/** Names, and the order in which the source compares them. */
module Names {
  type Name = string

  predicate NameLess(a: Name, b: Name) {
    b != [] && (a == [] || a[0] < b[0] || (a[0] == b[0] && NameLess(a[1..], b[1..])))
  }

  /** Of two names, one comes first or they are the same. */
  lemma {:induction false} NameOrder(a: Name, b: Name)
    ensures (if NameLess(a, b) then 1 else 0) + (if NameLess(b, a) then 1 else 0) + (if a == b then 1 else 0) == 1
  {
    if a != [] && b != [] && a[0] == b[0] {
      NameOrder(a[1..], b[1..]);
      assert a == [a[0]] + a[1..] && b == [b[0]] + b[1..];
    }
  }
}
