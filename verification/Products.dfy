/** Products by name: sums of products then stay linear in them. */
module Products {

  /** a * b */
  function Mul(a: real, b: real): real {
    a * b
  }
}
