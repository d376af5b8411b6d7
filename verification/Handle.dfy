/** Reference-counted objects, handles, and replaceable handles on an intrusive doubly linked list. */
module Handle {

  /** A replaceable shared object: its two counts and the ends of its list of replaceable handles. */
  class SharedObject {
    var refcount: int
    var rrefcount: int
    var front: RHandle?
    var back: RHandle?
    var deleted: bool

    constructor ()
      ensures refcount == 0 && rrefcount == 0 && front == null && back == null && !deleted
    {
      refcount, rrefcount, front, back, deleted := 0, 0, null, null, false;
    }

    method Ref()
      modifies `refcount
      ensures refcount == old(refcount) + 1
    {
      refcount := refcount + 1;
    }

    /** Deletes the object when its last reference goes. */
    method Unref() returns (alive: bool)
      requires refcount > 0
      modifies `refcount, `deleted
      ensures alive == (old(refcount) > 1)
      ensures alive ==> refcount == old(refcount) - 1 && deleted == old(deleted)
      ensures !alive ==> deleted && refcount == -666
    {
      refcount := refcount - 1;
      alive := refcount != 0;
      if !alive {
        refcount := -666;
        deleted := true;
      }
    }
  }

  /** A plain handle. */
  class PlainHandle {
    var obj: SharedObject?

    constructor ()
      ensures obj == null
    {
      obj := null;
    }
  }

  /** s is the whole list of o: the walk from front along next, and back again from back along prev. */
  ghost predicate Linked(o: SharedObject, s: seq<RHandle>)
    reads o`rrefcount, o`front, o`back, s
  {
    && o.rrefcount == |s|
    && (forall i, j :: 0 <= i < j < |s| ==> s[i] != s[j])
    && (forall i :: 0 <= i < |s| ==> s[i].obj == o)
    && (if s == [] then o.front == null && o.back == null else o.front == s[0] && o.back == s[|s| - 1])
    && (forall i {:trigger s[i].prev} :: 0 <= i < |s| ==> s[i].prev == Before(s, i))
    && (forall i {:trigger s[i].next} :: 0 <= i < |s| ==> s[i].next == After(s, i))
  }

  function Before(s: seq<RHandle>, i: nat): RHandle?
    requires i < |s|
  {
    if i == 0 then null else s[i - 1]
  }

  function After(s: seq<RHandle>, i: nat): RHandle?
    requires i < |s|
  {
    if i == |s| - 1 then null else s[i + 1]
  }

  /** The list of o up to a last entry that is yet to be counted as such, together with that entry. */
  lemma AppendKeepsLinks(o: SharedObject, s: seq<RHandle>, r: RHandle)
    requires s != [] && r !in s && o.rrefcount == |s| + 1 && r.obj == o
    requires o.front == s[0] && o.back == r && r.prev == s[|s| - 1] && r.next == null
    requires forall i, j :: 0 <= i < j < |s| ==> s[i] != s[j]
    requires forall i :: 0 <= i < |s| ==> s[i].obj == o
    requires forall i {:trigger s[i].prev} :: 0 <= i < |s| ==> s[i].prev == Before(s, i)
    requires forall i {:trigger s[i].next} :: 0 <= i < |s| ==> s[i].next == if i == |s| - 1 then r else After(s, i)
    ensures Linked(o, s + [r])
  {
    var t := s + [r];
    forall i | 0 <= i < |t| ensures t[i].prev == Before(t, i) && t[i].next == After(t, i) {
      if i < |s| {
        assert t[i] == s[i];
      } else {
        assert t[i] == r && t[i - 1] == s[|s| - 1];
      }
    }
  }

  /** Unlinking the i-th entry: its neighbours, or the list's ends, are joined. */
  lemma WithoutKeepsLinks(o: SharedObject, s: seq<RHandle>, i: nat)
    requires i < |s| && |s| > 1 && o.rrefcount == |s| - 1
    requires forall j, k :: 0 <= j < k < |s| ==> s[j] != s[k]
    requires forall j :: 0 <= j < |s| ==> s[j].obj == o
    requires o.front == (if i == 0 then s[1] else s[0]) && o.back == (if i == |s| - 1 then s[|s| - 2] else s[|s| - 1])
    requires forall j {:trigger s[j].prev} :: 0 <= j < |s| && j != i ==> s[j].prev == if j == i + 1 then Before(s, i) else Before(s, j)
    requires forall j {:trigger s[j].next} :: 0 <= j < |s| && j != i ==> s[j].next == if j == i - 1 then After(s, i) else After(s, j)
    ensures Linked(o, Without(s, i))
  {
    var t := Without(s, i);
    forall j | 0 <= j < |t| ensures t[j].prev == Before(t, j) && t[j].next == After(t, j) {
      var k := if j < i then j else j + 1;
      assert t[j] == s[k];
      assert j > 0 ==> t[j - 1] == s[if j - 1 < i then j - 1 else j];
      assert j + 1 < |t| ==> t[j + 1] == s[if j + 1 < i then j + 1 else j + 2];
    }
  }

  /** s without its i-th entry. */
  function Without(s: seq<RHandle>, i: nat): seq<RHandle>
    requires i < |s|
  {
    s[..i] + s[i + 1..]
  }

  /** A replaceable handle. */
  class RHandle {
    var obj: SharedObject?
    var prev: RHandle?
    var next: RHandle?

    constructor ()
      ensures obj == null
    {
      obj, prev, next := null, null, null;
    }

    method AddToRlist(o: SharedObject, ghost s: seq<RHandle>)
      requires obj == o && Linked(o, s) && this !in s
      modifies `prev, `next, o`rrefcount, o`front, o`back, s
      ensures Linked(o, s + [this]) && obj == o && forall r :: r in s ==> r.obj == old(r.obj)
    {
      o.rrefcount := o.rrefcount + 1;
      if o.front == null {
        o.front, o.back := this, this;
        prev, next := null, null;
        return;
      }
      assert s[|s| - 1] in s;
      prev := o.back;
      next := null;
      prev.next := this;
      o.back := this;
      AppendKeepsLinks(o, s, this);
    }

    method DelFromRlist(o: SharedObject, ghost s: seq<RHandle>, ghost i: nat)
      requires obj == o && Linked(o, s) && i < |s| && s[i] == this
      modifies o`rrefcount, o`front, o`back, s
      ensures Linked(o, Without(s, i)) && forall r :: r in s ==> r.obj == old(r.obj)
    {
      o.rrefcount := o.rrefcount - 1;
      if o.front == o.back {
        assert s[0] == s[|s| - 1];
        o.front, o.back := null, null;
        prev, next := null, null;
        return;
      }
      assert i > 0 ==> s[i - 1] in s;
      assert i + 1 < |s| ==> s[i + 1] in s;
      assert prev == Before(s, i) && next == After(s, i);
      if prev == null {
        o.front := next;
      } else {
        prev.next := next;
      }
      if next == null {
        o.back := prev;
      } else {
        next.prev := prev;
      }
      WithoutKeepsLinks(o, s, i);
    }
  }
}
