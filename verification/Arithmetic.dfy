/** Facts about products and quotients that the solver needs in small steps. */
module Arithmetic {
  lemma MulMonotone(a: nat, b: nat, c: nat)
    requires a <= b
    ensures a * c <= b * c
  {
  }

  lemma MulNext(a: nat, c: nat)
    ensures (a + 1) * c == a * c + c
  {
  }

  lemma MulSplit(a: nat, b: nat, c: nat)
    ensures (a + b) * c == a * c + b * c
  {
  }

  /** A quotient and a remainder are determined by the number. */
  lemma SplitUnique(d: nat, r: nat, q: nat, r': nat, bs: nat)
    requires r < bs && r' < bs && d * bs + r == q * bs + r'
    ensures d == q && r == r'
  {
    if d < q {
      MulMonotone(d + 1, q, bs);
      MulNext(d, bs);
    } else if q < d {
      MulMonotone(q + 1, d, bs);
      MulNext(q, bs);
    }
  }

  lemma DivUnique(x: nat, bs: nat, q: nat, r: nat)
    requires bs > 0 && x == q * bs + r && r < bs
    ensures x / bs == q && x % bs == r
  {
    SplitUnique(x / bs, x % bs, q, r, bs);
  }
}
