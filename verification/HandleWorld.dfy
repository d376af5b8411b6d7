/** All handles and shared objects of a program: reference counts, list membership and deletion over any run of operations. */
module HandleWorld {
  import opened Soundness
  import opened Handle

  // ----- The registry: which handles refer to which live object -----

  /** For each live object, its list of replaceable handles in order, and its plain handles. */
  datatype Registry = Registry(lists: map<SharedObject, seq<RHandle>>, holders: map<SharedObject, set<PlainHandle>>) {
    ghost function Total(o: SharedObject): nat
      requires o in lists && o in holders
    {
      |lists[o]| + |holders[o]|
    }
  }

  /** s without r. */
  ghost function Drop(s: seq<RHandle>, r: RHandle): seq<RHandle> {
    if s == [] then [] else if s[0] == r then s[1..] else [s[0]] + Drop(s[1..], r)
  }

  lemma {:induction false} DropIs(s: seq<RHandle>, i: nat)
    requires i < |s| && forall j, k :: 0 <= j < k < |s| ==> s[j] != s[k]
    ensures Drop(s, s[i]) == Without(s, i)
    decreases |s|
  {
    if i > 0 {
      DropIs(s[1..], i - 1);
      assert Without(s, i) == [s[0]] + Without(s[1..], i - 1);
    }
  }

  /** The registry after the last handle of an object is gone: the object is dead. */
  ghost function Buried(g: Registry, o: SharedObject): Registry {
    Registry(map p | p in g.lists && p != o :: g.lists[p], map p | p in g.holders && p != o :: g.holders[p])
  }

  /** Replaceable handle r lets go of o. */
  ghost function ReleasedR(g: Registry, o: SharedObject, r: RHandle): Registry
    requires o in g.lists && o in g.holders
  {
    if g.Total(o) == 1 then Buried(g, o) else g.(lists := g.lists[o := Drop(g.lists[o], r)])
  }

  /** Plain handle h lets go of o. */
  ghost function ReleasedP(g: Registry, o: SharedObject, h: PlainHandle): Registry
    requires o in g.lists && o in g.holders
  {
    if g.Total(o) == 1 then Buried(g, o) else g.(holders := g.holders[o := g.holders[o] - {h}])
  }

  /** Handle r joins the end of x's list. */
  ghost function GainedR(g: Registry, x: SharedObject, r: RHandle): Registry
    requires x in g.lists
  {
    g.(lists := g.lists[x := g.lists[x] + [r]])
  }

  ghost function GainedP(g: Registry, x: SharedObject, h: PlainHandle): Registry
    requires x in g.holders
  {
    g.(holders := g.holders[x := g.holders[x] + {h}])
  }

  /** The registry after handle r, which referred to o, is assigned x. */
  ghost function AssignedR(g: Registry, o: SharedObject?, r: RHandle, x: SharedObject?): Registry
    requires o != null ==> o in g.lists && o in g.holders
  {
    if o == x then g
    else
      var g1 := if o == null then g else ReleasedR(g, o, r);
      if x != null && x in g1.lists then GainedR(g1, x, r) else g1
  }

  ghost function AssignedP(g: Registry, o: SharedObject?, h: PlainHandle, x: SharedObject?): Registry
    requires o != null ==> o in g.lists && o in g.holders
  {
    if o == x then g
    else
      var g1 := if o == null then g else ReleasedP(g, o, h);
      if x != null && x in g1.holders then GainedP(g1, x, h) else g1
  }

  lemma AssignedCases(g: Registry, o: SharedObject?, r: RHandle, x: SharedObject?)
    requires o != null ==> o in g.lists && o in g.holders
    ensures o == x ==> AssignedR(g, o, r, x) == g
    ensures o != x ==>
      var g1 := if o == null then g else ReleasedR(g, o, r);
      AssignedR(g, o, r, x) == if x != null && x in g1.lists then GainedR(g1, x, r) else g1
  {
  }

  /** The registry when the first i of o's replaceable handles s have moved to the end of t's list, or to nothing. */
  ghost function Moving(g: Registry, o: SharedObject, t: SharedObject?, s: seq<RHandle>, i: nat): Registry
    requires i <= |s| && (t != null ==> t in g.lists) && o in g.holders
  {
    var g1 := if i == |s| && g.holders[o] == {} then Buried(g, o) else g.(lists := g.lists[o := s[i..]]);
    if t == null then g1 else g1.(lists := g1.lists[t := g.lists[t] + s[..i]])
  }

  /** In the end: the handles follow those the new object had; the old object's list is empty, or the object is gone. */
  lemma AllMoved(g: Registry, o: SharedObject, t: SharedObject?, s: seq<RHandle>)
    requires o in g.lists && o in g.holders && s == g.lists[o] && o != t && (t != null ==> t in g.lists)
    ensures var m := Moving(g, o, t, s, |s|);
      && (t != null ==> t in m.lists && m.lists[t] == g.lists[t] + s)
      && (g.holders[o] != {} ==> o in m.lists && m.lists[o] == [] && o in m.holders && m.holders[o] == g.holders[o])
      && (g.holders[o] == {} ==> o !in m.lists && o !in m.holders)
      && forall p :: p in g.lists && p != o && p != t ==> p in m.lists && m.lists[p] == g.lists[p]
  {
    assert s[..|s|] == s;
    var g1 := Buried(g, o);
  }

  /** One handle more. */
  lemma MoveStep(g: Registry, o: SharedObject, t: SharedObject?, s: seq<RHandle>, i: nat)
    requires i < |s| && o in g.lists && o in g.holders && o != t && (t != null ==> t in g.lists)
    ensures var m := Moving(g, o, t, s, i);
      && o in m.lists && o in m.holders && AssignedR(m, o, s[i], t) == Moving(g, o, t, s, i + 1)
      && (t != null ==> t in m.lists) && m.lists.Keys == g.lists.Keys
  {
    var m, n := Moving(g, o, t, s, i), Moving(g, o, t, s, i + 1);
    var a := AssignedR(m, o, s[i], t);
    assert m.lists[o] == s[i..] && s[i..][0] == s[i] && s[i..][1..] == s[i + 1..];
    assert Drop(s[i..], s[i]) == s[i + 1..];
    assert m.Total(o) == |s| - i + |g.holders[o]|;
    if t != null {
      assert g.lists[t] + s[..i] + [s[i]] == g.lists[t] + s[..i + 1];
    }
    assert a.lists == n.lists;
    assert a.holders == n.holders;
  }

  /** o's entry changes, or goes; the other objects keep theirs. */
  ghost predicate OnlyAt(g: Registry, g': Registry, o: SharedObject) {
    && (forall p :: p in g'.lists && p != o ==> p in g.lists)
    && (forall p :: p in g'.holders && p != o ==> p in g.holders)
    && (forall p :: p in g.lists && p != o ==> p in g'.lists && g'.lists[p] == g.lists[p])
    && (forall p :: p in g.holders && p != o ==> p in g'.holders && g'.holders[p] == g.holders[p])
  }

  ghost predicate NoRepeats(s: seq<RHandle>) {
    forall i, j :: 0 <= i < j < |s| ==> s[i] != s[j]
  }

  lemma {:induction false} DropMembers(s: seq<RHandle>, r: RHandle)
    requires r in s && NoRepeats(s)
    ensures |Drop(s, r)| == |s| - 1 && forall i :: 0 <= i < |Drop(s, r)| ==> Drop(s, r)[i] in s && Drop(s, r)[i] != r
    ensures forall q :: q in s && q != r ==> q in Drop(s, r)
  {
    hide Drop;
    var i :| 0 <= i < |s| && s[i] == r;
    DropIs(s, i);
    assert s == s[..i] + [r] + s[i + 1..];
  }

  /** What letting go of o by a handle of its list does to the registry. */
  lemma ReleasedRFacts(g: Registry, o: SharedObject, r: RHandle)
    requires o in g.lists && o in g.holders && r in g.lists[o] && NoRepeats(g.lists[o])
    ensures OnlyAt(g, ReleasedR(g, o, r), o)
    ensures var g' := ReleasedR(g, o, r);
      if g.Total(o) == 1 then g.lists[o] == [r] && g.holders[o] == {} && o !in g'.lists && o !in g'.holders
      else
        && o in g'.lists && o in g'.holders && g'.holders[o] == g.holders[o] && g'.lists[o] == Drop(g.lists[o], r)
        && g'.Total(o) == g.Total(o) - 1
        && (forall i :: 0 <= i < |g'.lists[o]| ==> g'.lists[o][i] in g.lists[o])
        && (forall q :: q in g.lists[o] && q != r ==> q in g'.lists[o])
  {
    DropMembers(g.lists[o], r);
    if g.Total(o) == 1 {
      assert g.lists[o] == [r];
    }
  }

  /** What replace is given: a plain handle, or a replaceable one. */
  datatype AnyHandle = Plain(h: PlainHandle) | Replaceable(r: RHandle) {
    /** get() */
    function Obj(): SharedObject?
      reads if Plain? then {h} else {}, if Replaceable? then {r} else {}
    {
      match this
      case Plain(h) => h.obj
      case Replaceable(r) => r.obj
    }
  }

  // ----- The world -----

  /** A live object: its list is threaded through exactly the handles in the registry, and its counts are right. */
  ghost predicate Live(g: Registry, o: SharedObject)
    requires o in g.lists && o in g.holders
    reads o, g.lists[o], g.holders[o]
  {
    && !o.deleted && Linked(o, g.lists[o])
    && o.refcount == g.Total(o)
    && (forall h :: h in g.holders[o] ==> h.obj == o)
  }

  /** The registry speaks of these handles only. */
  ghost predicate Known(g: Registry, plain: set<PlainHandle>, rhandles: set<RHandle>) {
    && g.lists.Keys == g.holders.Keys
    && (forall o :: o in g.lists ==> forall r :: r in g.lists[o] ==> r in rhandles)
    && (forall o :: o in g.holders ==> g.holders[o] <= plain)
  }

  /** A replaceable handle is on the list of the object it points at. */
  ghost predicate OnList(g: Registry, r: RHandle)
    reads r
  {
    r.obj != null ==> r.obj in g.lists && r in g.lists[r.obj]
  }

  /** A plain handle is among the holders of the object it points at. */
  ghost predicate Holding(g: Registry, h: PlainHandle)
    reads h
  {
    h.obj != null ==> h.obj in g.holders && h in g.holders[h.obj]
  }

  /** g' is g after handle r, gone from its object o, whose entry shrank or was buried. */
  ghost predicate Let(g: Registry, g': Registry, o: SharedObject, rs: set<RHandle>, hs: set<PlainHandle>)
    requires o in g.lists && o in g.holders
  {
    && OnlyAt(g, g', o) && (o in g'.lists <==> o in g'.holders)
    && (o in g'.lists && o in g'.holders ==>
          && (forall i :: 0 <= i < |g'.lists[o]| ==> g'.lists[o][i] in g.lists[o])
          && (forall q :: q in g.lists[o] && q !in rs ==> q in g'.lists[o])
          && g.holders[o] - hs <= g'.holders[o] <= g.holders[o])
    && (o !in g'.lists ==> (forall q :: q in g.lists[o] ==> q in rs) && g.holders[o] <= hs)
  }

  lemma KnownAfter(g: Registry, g': Registry, o: SharedObject, rs: set<RHandle>, hs: set<PlainHandle>,
                   plain: set<PlainHandle>, rhandles: set<RHandle>)
    requires Known(g, plain, rhandles) && o in g.lists && o in g.holders && Let(g, g', o, rs, hs)
    ensures Known(g', plain, rhandles)
  {
    forall p ensures p in g'.lists <==> p in g'.holders {
      assert p in g.lists.Keys <==> p in g.holders.Keys;
    }
  }

  lemma OnListAfter(g: Registry, g': Registry, o: SharedObject, rs: set<RHandle>, hs: set<PlainHandle>, q: RHandle)
    requires o in g.lists && o in g.holders && Let(g, g', o, rs, hs) && OnList(g, q) && (q in rs ==> q.obj != o)
    ensures OnList(g', q)
  {
  }

  lemma HoldingAfter(g: Registry, g': Registry, o: SharedObject, rs: set<RHandle>, hs: set<PlainHandle>, h: PlainHandle)
    requires o in g.lists && o in g.holders && Let(g, g', o, rs, hs) && Holding(g, h) && (h in hs ==> h.obj != o)
    ensures Holding(g', h)
  {
  }

  lemma ReleasedRLets(g: Registry, o: SharedObject, r: RHandle)
    requires o in g.lists && o in g.holders && r in g.lists[o] && NoRepeats(g.lists[o])
    ensures Let(g, ReleasedR(g, o, r), o, {r}, {})
  {
    ReleasedRFacts(g, o, r);
    var s := g.lists[o];
    if g.Total(o) == 1 {
      assert s[0] == r && forall q :: q in s ==> q == s[0];
    } else {
      DropMembers(s, r);
      var t := Drop(s, r);
      assert ReleasedR(g, o, r).lists[o] == t;
      assert forall q :: q in s && q !in {r} ==> q in t;
    }
  }

  lemma ReleasedKeeps(g: Registry, o: SharedObject, r: RHandle)
    requires o in g.lists && o in g.holders
    ensures OnlyAt(g, ReleasedR(g, o, r), o)
  {
  }

  /** What letting go of o by one of its holders does to the registry. */
  lemma ReleasedPLets(g: Registry, o: SharedObject, h: PlainHandle)
    requires o in g.lists && o in g.holders && h in g.holders[o]
    ensures Let(g, ReleasedP(g, o, h), o, {}, {h})
    ensures g.Total(o) == 1 ==> g.lists[o] == [] && o !in ReleasedP(g, o, h).lists && o !in ReleasedP(g, o, h).holders
    ensures g.Total(o) > 1 ==> o in ReleasedP(g, o, h).lists && ReleasedP(g, o, h).lists[o] == g.lists[o]
    ensures g.Total(o) > 1 ==> o in ReleasedP(g, o, h).holders && ReleasedP(g, o, h).holders[o] == g.holders[o] - {h}
    ensures g.Total(o) > 1 ==> ReleasedP(g, o, h).Total(o) == g.Total(o) - 1
  {
    if g.Total(o) == 1 {
      assert |g.holders[o] - {h}| == |g.holders[o]| - 1;
    }
  }

  class World {
    ghost var g: Registry
    ghost var plain: set<PlainHandle>
    ghost var rhandles: set<RHandle>

    ghost predicate Consistent()
      reads this, g.lists.Keys, plain, rhandles
    {
      && Known(g, plain, rhandles)
      && (forall o :: o in g.lists ==> Live(g, o))
      && (forall r :: r in rhandles ==> OnList(g, r))
      && (forall h :: h in plain ==> Holding(g, h))
    }

    ghost function Valid(): Standing
      reads this, g.lists.Keys, plain, rhandles
    {
      if Consistent() then Sound else Unsound
    }

    constructor ()
      ensures Valid().Sound? && g == Registry(map[], map[]) && plain == {} && rhandles == {}
    {
      g, plain, rhandles := Registry(map[], map[]), {}, {};
    }

    lemma SettleNew(was: Registry, o: SharedObject)
      requires Known(was, plain, rhandles) && o !in was.lists && g == Registry(was.lists[o := []], was.holders[o := {}])
      requires Linked(o, []) && o.refcount == 0 && !o.deleted
      requires forall p :: p in was.lists ==> Live(was, p)
      requires forall q :: q in rhandles ==> OnList(was, q)
      requires forall h :: h in plain ==> Holding(was, h)
      ensures Valid().Sound?
    {
      forall p | p in g.lists && p != o ensures Live(g, p) {
        assert Live(was, p);
      }
      forall q | q in rhandles ensures OnList(g, q) {
        assert OnList(was, q);
      }
      forall h | h in plain ensures Holding(g, h) {
        assert Holding(was, h) && o !in was.holders.Keys;
      }
    }

    /** A new object: nothing refers to it yet. */
    method NewObject() returns (o: SharedObject)
      requires Valid().Sound?
      modifies this
      ensures Valid().Sound? && fresh(o) && g == Registry(old(g.lists)[o := []], old(g.holders)[o := {}])
      ensures plain == old(plain) && rhandles == old(rhandles)
    {
      o := new SharedObject();
      assert Consistent();
      ghost var was := g;
      g := Registry(g.lists[o := []], g.holders[o := {}]);
      SettleNew(was, o);
    }

    /** The lists of different objects share no handle. */
    lemma Apart(o: SharedObject, p: SharedObject)
      requires Valid().Sound? && o in g.lists && p in g.lists && o != p
      ensures forall q :: q in g.lists[p] ==> q !in g.lists[o]
    {
      assert Live(g, o) && Live(g, p);
    }

    /** The heap part of rhandle::detach. */
    method Unhook(r: RHandle, o: SharedObject, ghost s: seq<RHandle>, ghost i: nat) returns (alive: bool)
      requires r.obj == o && Linked(o, s) && i < |s| && s[i] == r && o.refcount > 0 && !o.deleted
      modifies o, s
      ensures r.obj == null && forall q :: q in s && q != r ==> q.obj == old(q.obj)
      ensures alive == (old(o.refcount) > 1) == !o.deleted
      ensures alive ==> o.refcount == old(o.refcount) - 1 && Linked(o, Without(s, i))
    {
      r.DelFromRlist(o, s, i);
      ghost var t := Without(s, i);
      assert r !in t;
      r.obj := null;
      assert Linked(o, t);
      alive := o.Unref();
    }

    /** When the other objects are live and the other handles placed as the old registry says, the world is settled again. */
    lemma Settle(was: Registry, o: SharedObject, rs: set<RHandle>, hs: set<PlainHandle>)
      requires Known(was, plain, rhandles) && o in was.lists && o in was.holders && Let(was, g, o, rs, hs)
      requires o in g.lists && o in g.holders ==> Live(g, o)
      requires forall p :: p in was.lists && p != o ==> Live(was, p)
      requires forall q :: q in rhandles ==> OnList(was, q) && (q in rs ==> q.obj == null)
      requires forall h :: h in plain ==> Holding(was, h) && (h in hs ==> h.obj == null)
      ensures Valid().Sound?
    {
      KnownAfter(was, g, o, rs, hs, plain, rhandles);
      forall p | p in g.lists && p != o ensures Live(g, p) {
        assert Live(was, p);
      }
      forall q | q in rhandles ensures OnList(g, q) {
        OnListAfter(was, g, o, rs, hs, q);
      }
      forall h | h in plain ensures Holding(g, h) {
        HoldingAfter(was, g, o, rs, hs, h);
      }
    }

    /** The heap part, seen from the rest of the world. */
    method UnhookApart(r: RHandle, o: SharedObject)
      requires Valid().Sound? && r in rhandles && r.obj == o
      modifies o, g.lists[o]
      ensures o in g.lists && o in g.holders && r in g.lists[o] && NoRepeats(g.lists[o]) && g.Total(o) > 0
      ensures r.obj == null && forall q :: q in rhandles && q != r ==> q.obj == old(q.obj)
      ensures if g.Total(o) == 1 then o.deleted
        else !o.deleted && o.refcount == g.Total(o) - 1 && Linked(o, Drop(g.lists[o], r)) && forall h :: h in g.holders[o] ==> h.obj == o
      ensures forall p :: p in g.lists && p != o ==> Live(g, p)
    {
      hide Drop, Holding, Before, After;
      assert OnList(g, r) && Live(g, o);
      ghost var s := g.lists[o];
      ghost var i :| 0 <= i < |s| && s[i] == r;
      DropIs(s, i);
      forall p | p in g.lists && p != o ensures forall q :: q in g.lists[p] ==> q !in s {
        Apart(o, p);
      }
      var alive := Unhook(r, o, s, i);
    }

    /** rhandle::detach of a handle that refers to o. */
    method DetachFrom(r: RHandle, o: SharedObject)
      requires Valid().Sound? && r in rhandles && r.obj == o
      modifies this`g, o, g.lists[o]
      ensures Valid().Sound? && r.obj == null && o in old(g).lists && o in old(g).holders && g == ReleasedR(old(g), o, r)
      ensures old(g).Total(o) == 1 ==> o.deleted
      ensures forall q :: q in rhandles && q != r ==> q.obj == old(q.obj)
    {
      hide Drop, Buried, ReleasedR, Linked;
      assert OnList(g, r);
      UnhookApart(r, o);
      forall q | q in rhandles ensures OnList(g, q) {
      }
      ReleasedRFacts(g, o, r);
      ReleasedRLets(g, o, r);
      ghost var was := g;
      g := ReleasedR(g, o, r);
      Settle(was, o, {r}, {});
    }

    /** rhandle::detach */
    method DetachR(r: RHandle)
      requires Valid().Sound? && r in rhandles
      modifies this`g, g.lists.Keys, rhandles
      ensures Valid().Sound? && r.obj == null && forall q :: q in rhandles && q != r ==> q.obj == old(q.obj)
      ensures old(r.obj) == null ==> g == old(g)
      ensures old(r.obj) != null ==> old(r.obj) in old(g).lists && old(r.obj) in old(g).holders
      ensures old(r.obj) != null ==> g == ReleasedR(old(g), old(r.obj), r)
      ensures old(r.obj) != null && old(g).Total(old(r.obj)) == 1 ==> old(r.obj).deleted && old(r.obj) !in g.lists
      ensures g.lists.Keys <= old(g).lists.Keys && forall p :: p in old(g).lists && p != old(r.obj) ==> p in g.lists
    {
      var o := r.obj;
      if o != null {
        assert OnList(g, r);
        assert forall q :: q in g.lists[o] ==> q in rhandles;
        ReleasedKeeps(g, o, r);
        DetachFrom(r, o);
      }
    }

    /** When one object's entry has grown by a handle that now refers to it. */
    lemma SettleMore(was: Registry, x: SharedObject)
      requires Known(was, plain, rhandles) && x in was.lists && x in was.holders && OnlyAt(was, g, x)
      requires x in g.lists && x in g.holders && Live(g, x)
      requires (forall i :: 0 <= i < |g.lists[x]| ==> g.lists[x][i] in rhandles) && g.holders[x] <= plain
      requires (forall q :: q in was.lists[x] ==> q in g.lists[x]) && was.holders[x] <= g.holders[x]
      requires forall p :: p in was.lists && p != x ==> Live(was, p)
      requires forall q :: q in rhandles ==> OnList(was, q) || (q.obj == x && q in g.lists[x])
      requires forall h :: h in plain ==> Holding(was, h) || (h.obj == x && h in g.holders[x])
      ensures Valid().Sound?
    {
      forall p ensures p in g.lists <==> p in g.holders {
        assert p in was.lists.Keys <==> p in was.holders.Keys;
      }
      forall p | p in g.lists && p != x ensures Live(g, p) {
        assert Live(was, p);
      }
    }

    /** The heap part of attaching, seen from the rest of the world. */
    method HookUpApart(r: RHandle, x: SharedObject)
      requires Valid().Sound? && r in rhandles && r.obj == null && x in g.lists
      modifies x, r, g.lists[x]
      ensures x in g.holders && r.obj == x && r !in g.lists[x]
      ensures Linked(x, g.lists[x] + [r]) && x.refcount == g.Total(x) + 1 && !x.deleted && forall h :: h in g.holders[x] ==> h.obj == x
      ensures forall q :: q in rhandles && q != r ==> q.obj == old(q.obj)
      ensures forall p :: p in g.lists && p != x ==> Live(g, p)
    {
      assert Live(g, x);
      ghost var s := g.lists[x];
      forall p | p in g.lists && p != x ensures forall q :: q in g.lists[p] ==> q !in s && q != r {
        Apart(x, p);
        assert Live(g, p);
      }
      HookUp(r, x, s);
    }

    /** obj=x, ref and add_to_rlist, for a handle that refers to nothing. */
    method AttachR(r: RHandle, x: SharedObject)
      requires Valid().Sound? && r in rhandles && r.obj == null && x in g.lists
      modifies this`g, x, r, g.lists[x]
      ensures Valid().Sound? && r.obj == x && g == GainedR(old(g), x, r)
      ensures forall q :: q in rhandles && q != r ==> q.obj == old(q.obj)
    {
      hide Linked;
      HookUpApart(r, x);
      forall q | q in rhandles && q != r ensures OnList(g, q) {
      }
      ghost var was := g;
      g := GainedR(g, x, r);
      SettleMore(was, x);
    }

    /** The heap part of attaching. */
    method HookUp(r: RHandle, x: SharedObject, ghost s: seq<RHandle>)
      requires Linked(x, s) && r.obj == null
      modifies x, r, s
      ensures Linked(x, s + [r]) && x.refcount == old(x.refcount) + 1 && x.deleted == old(x.deleted)
      ensures forall q :: q in s ==> q.obj == old(q.obj)
    {
      assert r !in s;
      r.obj := x;
      assert Linked(x, s);
      x.Ref();
      r.AddToRlist(x, s);
    }

    lemma PlacedR(r: RHandle)
      requires Valid().Sound? && r in rhandles
      ensures r.obj != null ==> r.obj in g.lists && r.obj in g.holders
      ensures forall p :: p in g.lists ==> p in g.holders && forall q :: q in g.lists[p] ==> q in rhandles
    {
      assert OnList(g, r);
      assert forall p :: p in g.lists.Keys ==> p in g.holders.Keys;
    }

    lemma Members()
      requires Valid().Sound?
      ensures forall p :: p in g.lists ==> p in g.holders && forall q :: q in g.lists[p] ==> q in rhandles
    {
      assert forall p :: p in g.lists.Keys ==> p in g.holders.Keys;
    }

    /** The same, seen from callers that know only the world's handles and objects. */
    method JoinR(r: RHandle, x: SharedObject)
      requires Valid().Sound? && r in rhandles && r.obj == null && x in g.lists
      modifies this`g, g.lists.Keys, rhandles
      ensures Valid().Sound? && r.obj == x && g == GainedR(old(g), x, r)
      ensures forall q :: q in rhandles && q != r ==> q.obj == old(q.obj)
    {
      Members();
      hide Valid, GainedR;
      AttachR(r, x);
    }

    /** rhandle::operator= */
    method AssignR(r: RHandle, x: SharedObject?)
      requires Valid().Sound? && r in rhandles && (x != null ==> x in g.lists)
      modifies this`g, g.lists.Keys, rhandles
      ensures Valid().Sound? && r.obj == x && forall q :: q in rhandles && q != r ==> q.obj == old(q.obj)
      ensures old(r.obj) != null ==> old(r.obj) in old(g).lists && old(r.obj) in old(g).holders
      ensures g == AssignedR(old(g), old(r.obj), r, x)
      ensures old(r.obj) != null && old(r.obj) != x && old(g).Total(old(r.obj)) == 1 ==> old(r.obj).deleted
    {
      hide Valid, ReleasedR, GainedR, AssignedR;
      PlacedR(r);
      AssignedCases(g, r.obj, r, x);
      if x == r.obj {
        return;
      }
      DetachR(r);
      if x != null {
        JoinR(r, x);
      }
    }

    /** A handle that refers to nothing. */
    method EmptyR() returns (r: RHandle)
      requires Valid().Sound?
      modifies this`rhandles
      ensures Valid().Sound? && fresh(r) && r.obj == null && rhandles == old(rhandles) + {r}
    {
      r := new RHandle();
      rhandles := rhandles + {r};
    }

    method EmptyPlain() returns (h: PlainHandle)
      requires Valid().Sound?
      modifies this`plain
      ensures Valid().Sound? && fresh(h) && h.obj == null && plain == old(plain) + {h}
    {
      h := new PlainHandle();
      plain := plain + {h};
    }

    /** The constructors of rhandle, from a pointer or from another handle's pointer. */
    method NewR(x: SharedObject?) returns (r: RHandle)
      requires Valid().Sound? && (x != null ==> x in g.lists)
      modifies this, g.lists.Keys, rhandles
      ensures Valid().Sound? && fresh(r) && r.obj == x && rhandles == old(rhandles) + {r} && plain == old(plain)
      ensures g == if x == null then old(g) else GainedR(old(g), x, r)
      ensures forall q :: q in old(rhandles) ==> q.obj == old(q.obj)
    {
      hide Valid, GainedR, Known, Live, OnList, Holding;
      r := EmptyR();
      if x != null {
        JoinR(r, x);
      }
    }

    /** A handle that refers to nothing is on no list. */
    lemma Free(r: RHandle)
      requires Valid().Sound? && r in rhandles && r.obj == null
      ensures forall p :: p in g.lists ==> r !in g.lists[p]
    {
      forall p | p in g.lists ensures r !in g.lists[p] {
        assert Live(g, p);
      }
    }

    /** ~rhandle */
    method DestroyR(r: RHandle)
      requires Valid().Sound? && r in rhandles
      modifies this, g.lists.Keys, rhandles
      ensures Valid().Sound? && rhandles == old(rhandles) - {r} && plain == old(plain)
      ensures old(r.obj) == null ==> g == old(g)
      ensures old(r.obj) != null ==> old(r.obj) in old(g).lists && old(r.obj) in old(g).holders
      ensures old(r.obj) != null ==> g == ReleasedR(old(g), old(r.obj), r)
      ensures old(r.obj) != null && old(g).Total(old(r.obj)) == 1 ==> old(r.obj).deleted
    {
      hide *;
      PlacedR(r);
      DetachR(r);
      ForgetR(r);
    }

    /** A handle that refers to nothing goes out of the world. */
    method ForgetR(r: RHandle)
      requires Valid().Sound? && r in rhandles && r.obj == null
      modifies this`rhandles
      ensures Valid().Sound? && rhandles == old(rhandles) - {r}
    {
      Free(r);
      rhandles := rhandles - {r};
    }

    // ----- Plain handles -----

    /** handle::detach of a handle that refers to o. */
    method DetachPlainFrom(h: PlainHandle, o: SharedObject)
      requires Valid().Sound? && h in plain && h.obj == o
      modifies this`g, o, h
      ensures Valid().Sound? && h.obj == null && o in old(g).lists && o in old(g).holders && g == ReleasedP(old(g), o, h)
      ensures old(g).Total(o) == 1 ==> o.deleted
    {
      hide Buried, ReleasedP, Linked;
      assert Holding(g, h);
      Unplug(h, o);
      ReleasedPLets(g, o, h);
      ghost var was := g;
      g := ReleasedP(g, o, h);
      Settle(was, o, {}, {h});
    }

    /** The heap part, seen from the rest of the world. */
    method Unplug(h: PlainHandle, o: SharedObject)
      requires Valid().Sound? && h in plain && h.obj == o
      modifies o, h
      ensures o in g.lists && o in g.holders && h in g.holders[o] && h.obj == null
      ensures if g.Total(o) == 1 then o.deleted
        else !o.deleted && o.refcount == g.Total(o) - 1 && Linked(o, g.lists[o]) && forall k :: k in g.holders[o] - {h} ==> k.obj == o
      ensures forall p :: p in g.lists && p != o ==> Live(g, p)
      ensures forall q :: q in rhandles ==> OnList(g, q)
      ensures forall k :: k in plain ==> Holding(g, k)
    {
      assert Holding(g, h) && Live(g, o);
      forall p | p in g.lists && p != o ensures h !in g.holders[p] {
        assert Live(g, p);
      }
      h.obj := null;
      var alive := o.Unref();
    }

    /** obj=x and ref, for a plain handle that refers to nothing. */
    method AttachPlain(h: PlainHandle, x: SharedObject)
      requires Valid().Sound? && h in plain && h.obj == null && x in g.lists
      modifies this`g, x, h
      ensures Valid().Sound? && h.obj == x && x in old(g).holders && g == GainedP(old(g), x, h)
    {
      hide Valid, GainedP, Linked, Live, OnList, Holding;
      Plug(h, x);
      ghost var was := g;
      g := GainedP(g, x, h);
      SettlePlain(was, h, x);
    }

    lemma SettlePlain(was: Registry, h: PlainHandle, x: SharedObject)
      requires Known(was, plain, rhandles) && x in was.lists && x in was.holders && g == GainedP(was, x, h)
      requires h in plain && h.obj == x && h !in was.holders[x]
      requires Linked(x, was.lists[x]) && x.refcount == was.Total(x) + 1 && !x.deleted && forall k :: k in was.holders[x] ==> k.obj == x
      requires forall p :: p in was.lists && p != x ==> Live(was, p)
      requires forall q :: q in rhandles ==> OnList(was, q)
      requires forall k :: k in plain && k != h ==> Holding(was, k)
      ensures Valid().Sound?
    {
      hide Linked;
      assert |g.holders[x]| == |was.holders[x]| + 1;
      SettleMore(was, x);
    }

    method Plug(h: PlainHandle, x: SharedObject)
      requires Valid().Sound? && h in plain && h.obj == null && x in g.lists
      modifies x, h
      ensures Known(g, plain, rhandles) && x in g.holders && h.obj == x && h !in g.holders[x]
      ensures Linked(x, g.lists[x]) && x.refcount == g.Total(x) + 1 && !x.deleted && forall k :: k in g.holders[x] ==> k.obj == x
      ensures forall p :: p in g.lists && p != x ==> Live(g, p)
      ensures forall q :: q in rhandles ==> OnList(g, q)
      ensures forall k :: k in plain && k != h ==> Holding(g, k)
    {
      hide Linked;
      forall p | p in g.lists ensures h !in g.holders[p] {
        assert Live(g, p);
      }
      assert Live(g, x);
      h.obj := x;
      x.Ref();
    }

    /** handle::operator= */
    method AssignPlain(h: PlainHandle, x: SharedObject?)
      requires Valid().Sound? && h in plain && (x != null ==> x in g.lists)
      modifies this`g, g.lists.Keys, plain
      ensures Valid().Sound? && h.obj == x
      ensures old(h.obj) != null ==> old(h.obj) in old(g).lists && old(h.obj) in old(g).holders
      ensures g == AssignedP(old(g), old(h.obj), h, x)
      ensures old(h.obj) != null && old(h.obj) != x && old(g).Total(old(h.obj)) == 1 ==> old(h.obj).deleted
    {
      var o := h.obj;
      assert Holding(g, h);
      if x == o {
        return;
      }
      if o != null {
        DetachPlainFrom(h, o);
      }
      if x != null {
        AttachPlain(h, x);
      }
    }

    /** The constructors of handle. */
    method NewPlain(x: SharedObject?) returns (h: PlainHandle)
      requires Valid().Sound? && (x != null ==> x in g.lists)
      modifies this, g.lists.Keys
      ensures Valid().Sound? && fresh(h) && h.obj == x && plain == old(plain) + {h} && rhandles == old(rhandles)
      ensures x != null ==> x in old(g).holders
      ensures g == if x == null then old(g) else GainedP(old(g), x, h)
    {
      hide Valid, GainedP;
      h := EmptyPlain();
      if x != null {
        AttachPlain(h, x);
      }
    }

    /** ~handle */
    method DestroyPlain(h: PlainHandle)
      requires Valid().Sound? && h in plain
      modifies this, g.lists.Keys, plain
      ensures Valid().Sound? && plain == old(plain) - {h} && rhandles == old(rhandles)
      ensures old(h.obj) != null ==> old(h.obj) in old(g).lists && old(h.obj) in old(g).holders
      ensures g == AssignedP(old(g), old(h.obj), h, null)
      ensures old(h.obj) != null && old(g).Total(old(h.obj)) == 1 ==> old(h.obj).deleted
    {
      hide *;
      AssignPlain(h, null);
      ForgetPlain(h);
    }

    method ForgetPlain(h: PlainHandle)
      requires Valid().Sound? && h in plain && h.obj == null
      modifies this`plain
      ensures Valid().Sound? && plain == old(plain) - {h}
    {
      forall p | p in g.holders ensures h !in g.holders[p] {
        assert p in g.lists.Keys;
        assert Live(g, p);
      }
      plain := plain - {h};
    }

    // ----- replace -----

    /** Where a list leads: its first handle, and from there the second. */
    lemma FirstTwo(o: SharedObject)
      requires Valid().Sound? && o in g.lists
      ensures o in g.holders && NoRepeats(g.lists[o]) && (forall q :: q in g.lists[o] ==> q in rhandles && q.obj == o)
      ensures g.lists[o] != [] ==> o.front == g.lists[o][0] && g.lists[o][0].next == After(g.lists[o], 0)
    {
      assert Live(g, o);
    }

    /**
     rhandle::replace. It walks the old object's list while unlinking the handle it stands on: all of them end up
     on the new object, after its own and in order, and the old object keeps only its plain handles.
     */
    method Replace(r: RHandle, x: AnyHandle) returns (n: nat)
      requires Valid().Sound? && r in rhandles && r.obj != null && Has(x)
      modifies this`g, g.lists.Keys, rhandles
      ensures Valid().Sound? && old(r.obj) in old(g).lists && old(r.obj) in old(g).holders
      ensures x.Obj() == old(r.obj) ==> n == 0 && g == old(g)
      ensures x.Obj() != old(r.obj) ==> n == |old(g).lists[old(r.obj)]| && (x.Obj() != null ==> x.Obj() in old(g).lists)
      ensures x.Obj() != old(r.obj) ==> g == Moving(old(g), old(r.obj), x.Obj(), old(g).lists[old(r.obj)], n)
      ensures forall q :: q in old(g).lists[old(r.obj)] ==> q.obj == x.Obj()
      ensures forall q :: q in rhandles && q !in old(g).lists[old(r.obj)] ==> q.obj == old(q.obj)
    {
      hide *;
      var o := r.obj;
      BeginMove(r, x);
      ghost var g0, s := g, g.lists[o];
      if x.Obj() == o {
        return 0;
      }
      var iter := o.front;
      var next := iter.next;
      n := 0;
      ghost var t := x.Obj();
      while iter != null
        invariant x.Obj() == t && Has(x)
        invariant Valid().Sound? && n <= |s| && g == Moving(g0, o, x.Obj(), s, n)
        invariant iter == (if n < |s| then s[n] else null) && next == (if n + 1 < |s| then s[n + 1] else null)
        invariant forall j :: 0 <= j < |s| ==> s[j] in rhandles && s[j].obj == if j < n then x.Obj() else o
        invariant forall q :: q in rhandles && q !in s ==> q.obj == old(q.obj)
        decreases |s| - n
      {
        MoveOne(iter, o, x, t, g0, s, n);
        n := n + 1;
        iter := next;
        next := if iter != null then iter.next else null;
      }
    }

    lemma OthersDiffer(g0: Registry, o: SharedObject, t: SharedObject?, s: seq<RHandle>, n: nat)
      requires Valid().Sound? && n < |s| && o in g0.holders && o != t && (t != null ==> t in g0.lists)
      requires g == Moving(g0, o, t, s, n)
      requires forall j :: 0 <= j < |s| ==> s[j].obj == if j < n then t else o
      ensures forall j :: 0 <= j < |s| && j != n ==> s[j] != s[n]
    {
      assert g.lists[o] == s[n..];
      FirstTwo(o);
      forall j | n < j < |s| ensures s[j] != s[n] {
        assert s[n..][0] == s[n] && s[n..][j - n] == s[j];
      }
    }

    /** x is a handle of this world. */
    ghost predicate Has(x: AnyHandle)
      reads `plain, `rhandles
    {
      match x
      case Plain(h) => h in plain
      case Replaceable(r) => r in rhandles
    }

    lemma BeginMove(r: RHandle, x: AnyHandle)
      requires Valid().Sound? && r in rhandles && r.obj != null && Has(x)
      ensures r.obj in g.lists && r.obj in g.holders && (x.Obj() != null ==> x.Obj() in g.lists)
      ensures var s := g.lists[r.obj];
        && r in s && (forall j :: 0 <= j < |s| ==> s[j] in rhandles && s[j].obj == r.obj)
        && r.obj.front == s[0] && s[0].next == (if |s| == 1 then null else s[1])
        && g == Moving(g, r.obj, x.Obj(), s, 0)
    {
      hide Linked;
      PlacedR(r);
      match x {
        case Plain(h) => PlacedPlain(h);
        case Replaceable(q) => PlacedR(q);
      }
      FirstTwo(r.obj);
      var s := g.lists[r.obj];
      assert r in s by { assert OnList(g, r); }
      assert s[0..] == s;
      if x.Obj() != null {
        assert g.lists[x.Obj()] + s[..0] == g.lists[x.Obj()];
      }
    }

    /** One handle of the list is assigned the new object; the next one still leads on. */
    method MoveOne(iter: RHandle, o: SharedObject, x: AnyHandle, ghost t: SharedObject?, ghost g0: Registry, ghost s: seq<RHandle>, ghost n: nat)
      requires Has(x) && x.Obj() == t
      requires Valid().Sound? && n < |s| && s[n] == iter && iter in rhandles && iter.obj == o && o != t
      requires o in g0.lists && o in g0.holders && (t != null ==> t in g0.lists) && g == Moving(g0, o, t, s, n)
      requires forall j :: 0 <= j < |s| ==> s[j] in rhandles && s[j].obj == if j < n then t else o
      modifies this`g, g0.lists.Keys, rhandles
      ensures Valid().Sound? && g == Moving(g0, o, t, s, n + 1) && Has(x) && x.Obj() == t
      ensures forall j :: 0 <= j < |s| ==> s[j].obj == if j < n + 1 then t else o
      ensures forall q :: q in rhandles && q !in s ==> q.obj == old(q.obj)
      ensures n + 1 < |s| ==> s[n + 1].next == if n + 2 < |s| then s[n + 2] else null
    {
      hide Valid, Moving, Linked, AssignedR;
      MoveStep(g0, o, t, s, n);
      OthersDiffer(g0, o, t, s, n);
      AssignR(iter, x.Obj());
      if n + 1 < |s| {
        Remaining(g0, o, t, s, n + 1);
      }
    }

    lemma PlacedPlain(h: PlainHandle)
      requires Valid().Sound? && h in plain
      ensures h.obj != null ==> h.obj in g.lists && h.obj in g.holders
    {
      assert Holding(g, h);
      if h.obj != null {
        assert h.obj in g.holders.Keys;
      }
    }

    /** What is left of the old object's list while its handles are moved. */
    lemma Remaining(g0: Registry, o: SharedObject, t: SharedObject?, s: seq<RHandle>, n: nat)
      requires Valid().Sound? && n < |s| && o in g0.holders && o != t && (t != null ==> t in g0.lists)
      requires g == Moving(g0, o, t, s, n)
      ensures s[n].next == if n + 1 < |s| then s[n + 1] else null
    {
      assert g.lists[o] == s[n..];
      FirstTwo(o);
    }

    /** In a consistent world: an object's counts are the numbers of handles that point at it, and its list is those handles. */
    lemma Census(o: SharedObject)
      requires Valid().Sound? && o in g.lists
      ensures o in g.holders && o.refcount == |g.lists[o]| + |g.holders[o]| && o.rrefcount == |g.lists[o]| && !o.deleted
      ensures forall r :: r in g.lists[o] <==> r in rhandles && r.obj == o
      ensures forall h :: h in g.holders[o] <==> h in plain && h.obj == o
      ensures Linked(o, g.lists[o])
    {
      assert Live(g, o);
      forall r | r in rhandles && r.obj == o ensures r in g.lists[o] {
        assert OnList(g, r);
      }
      forall h | h in plain && h.obj == o ensures h in g.holders[o] {
        assert Holding(g, h);
      }
    }
  }
}
