/**
 * 64-bit words as naturals below 2^64, with the bitwise operators the frame bitmap and the
 * signal sets use. Every operator is characterised bit by bit.
 */
module Bits {
  import opened Common

  type Word = w: int | 0 <= w < U64_LIMIT

  const ALL_ONES: Word := 0xFFFF_FFFF_FFFF_FFFF

  function Pow2(n: nat): (r: nat)
    ensures r >= 1
  {
    if n == 0 then 1 else 2 * Pow2(n - 1)
  }

  /** Bit `i` of `w`. */
  predicate Bit(w: nat, i: nat) {
    if i == 0 then w % 2 == 1 else Bit(w / 2, i - 1)
  }

  function AndN(a: nat, b: nat, n: nat): nat {
    if n == 0 then 0 else (a % 2) * (b % 2) + 2 * AndN(a / 2, b / 2, n - 1)
  }

  function OrN(a: nat, b: nat, n: nat): nat {
    if n == 0 then 0 else (if a % 2 == 1 || b % 2 == 1 then 1 else 0) + 2 * OrN(a / 2, b / 2, n - 1)
  }

  function NotN(a: nat, n: nat): nat {
    if n == 0 then 0 else 1 - a % 2 + 2 * NotN(a / 2, n - 1)
  }

  lemma Pow2Twice(n: nat)
    ensures Pow2(n + 2) == 4 * Pow2(n)
  {
    assert Pow2(n + 1) == 2 * Pow2(n);
  }

  lemma Pow2Byte(n: nat)
    ensures Pow2(n + 8) == 256 * Pow2(n)
  {
    Pow2Twice(n);
    Pow2Twice(n + 2);
    Pow2Twice(n + 4);
    Pow2Twice(n + 6);
  }

  lemma Pow2Of64()
    ensures Pow2(64) == U64_LIMIT
  {
    Pow2Byte(0);
    Pow2Byte(8);
    Pow2Byte(16);
    Pow2Byte(24);
    Pow2Byte(32);
    Pow2Byte(40);
    Pow2Byte(48);
    Pow2Byte(56);
  }

  lemma {:induction false} AndNBits(a: nat, b: nat, n: nat, i: nat)
    ensures AndN(a, b, n) < Pow2(n)
    ensures Bit(AndN(a, b, n), i) <==> i < n && Bit(a, i) && Bit(b, i)
  {
    if n == 0 {
      ZeroHasNoBits(i);
    } else {
      AndNBits(a / 2, b / 2, n - 1, if i > 0 then i - 1 else 0);
      var t := AndN(a / 2, b / 2, n - 1);
      assert (a % 2) * (b % 2) == if a % 2 == 1 && b % 2 == 1 then 1 else 0;
      assert AndN(a, b, n) / 2 == t;
    }
  }

  lemma {:induction false} OrNBits(a: nat, b: nat, n: nat, i: nat)
    ensures OrN(a, b, n) < Pow2(n)
    ensures Bit(OrN(a, b, n), i) <==> i < n && (Bit(a, i) || Bit(b, i))
  {
    if n == 0 {
      ZeroHasNoBits(i);
    } else {
      OrNBits(a / 2, b / 2, n - 1, if i > 0 then i - 1 else 0);
      assert OrN(a, b, n) / 2 == OrN(a / 2, b / 2, n - 1);
    }
  }

  lemma {:induction false} NotNBits(a: nat, n: nat, i: nat)
    ensures NotN(a, n) < Pow2(n)
    ensures Bit(NotN(a, n), i) <==> i < n && !Bit(a, i)
  {
    if n == 0 {
      ZeroHasNoBits(i);
    } else {
      var t := NotN(a / 2, n - 1);
      NotNBits(a / 2, n - 1, if i > 0 then i - 1 else 0);
      assert NotN(a, n) == 2 * t + (1 - a % 2);
      assert NotN(a, n) / 2 == t && NotN(a, n) % 2 == 1 - a % 2;
    }
  }

  lemma {:induction false} ZeroHasNoBits(i: nat)
    ensures !Bit(0, i)
  {
    if i > 0 { ZeroHasNoBits(i - 1); }
  }

  lemma {:induction false} Pow2Bits(b: nat, c: nat)
    ensures Bit(Pow2(b), c) <==> c == b
  {
    if b > 0 && c > 0 {
      Pow2Bits(b - 1, c - 1);
    } else if c > 0 {
      ZeroHasNoBits(c - 1);
    }
  }

  /** A number below 2^n is determined by its low n bits. */
  lemma {:induction false} SameBits(a: nat, b: nat, n: nat)
    requires a < Pow2(n) && b < Pow2(n)
    requires forall i: nat :: i < n ==> (Bit(a, i) <==> Bit(b, i))
    ensures a == b
  {
    if n > 0 {
      assert Bit(a, 0) <==> Bit(b, 0);
      forall i: nat | i < n - 1 ensures Bit(a / 2, i) <==> Bit(b / 2, i) {
        assert Bit(a, i + 1) <==> Bit(b, i + 1);
      }
      SameBits(a / 2, b / 2, n - 1);
    }
  }

  // The operators on words.

  /** `1 << i` */
  function Mask(i: nat): (r: Word)
    requires i < 64
    ensures forall c: nat :: Bit(r, c) <==> c == i
  {
    Pow2Of64();
    Pow2Increases(i, 64);
    assert forall c: nat :: Bit(Pow2(i), c) <==> c == i by {
      forall c: nat ensures Bit(Pow2(i), c) <==> c == i { Pow2Bits(i, c); }
    }
    Pow2(i)
  }

  lemma {:induction false} Pow2Increases(m: nat, n: nat)
    requires m < n
    ensures Pow2(m) < Pow2(n)
  {
    if m < n - 1 { Pow2Increases(m, n - 1); }
  }

  /** `a & b` */
  function And(a: Word, b: Word): (r: Word)
    ensures forall i: nat :: Bit(r, i) <==> i < 64 && Bit(a, i) && Bit(b, i)
  {
    Pow2Of64();
    AndNBits(a, b, 64, 0);
    assert forall i: nat :: Bit(AndN(a, b, 64), i) <==> i < 64 && Bit(a, i) && Bit(b, i) by {
      forall i: nat ensures Bit(AndN(a, b, 64), i) <==> i < 64 && Bit(a, i) && Bit(b, i) { AndNBits(a, b, 64, i); }
    }
    AndN(a, b, 64)
  }

  /** `a | b` */
  function Or(a: Word, b: Word): (r: Word)
    ensures forall i: nat :: Bit(r, i) <==> i < 64 && (Bit(a, i) || Bit(b, i))
  {
    Pow2Of64();
    OrNBits(a, b, 64, 0);
    assert forall i: nat :: Bit(OrN(a, b, 64), i) <==> i < 64 && (Bit(a, i) || Bit(b, i)) by {
      forall i: nat ensures Bit(OrN(a, b, 64), i) <==> i < 64 && (Bit(a, i) || Bit(b, i)) { OrNBits(a, b, 64, i); }
    }
    OrN(a, b, 64)
  }

  /** `!a` */
  function Not(a: Word): (r: Word)
    ensures forall i: nat :: Bit(r, i) <==> i < 64 && !Bit(a, i)
  {
    Pow2Of64();
    NotNBits(a, 64, 0);
    assert forall i: nat :: Bit(NotN(a, 64), i) <==> i < 64 && !Bit(a, i) by {
      forall i: nat ensures Bit(NotN(a, 64), i) <==> i < 64 && !Bit(a, i) { NotNBits(a, 64, i); }
    }
    NotN(a, 64)
  }

  /** Words with the same bits are equal. */
  lemma WordExtensional(a: Word, b: Word)
    requires forall i: nat :: i < 64 ==> (Bit(a, i) <==> Bit(b, i))
    ensures a == b
  {
    Pow2Of64();
    SameBits(a, b, 64);
  }

  /** Index of the lowest set bit at or above `i`, or 64. */
  function LowestFrom(w: Word, i: nat): (r: nat)
    requires i <= 64
    ensures i <= r <= 64
    ensures r < 64 ==> Bit(w, r)
    ensures forall j: nat :: i <= j < r ==> !Bit(w, j)
    decreases 64 - i
  {
    if i == 64 || Bit(w, i) then i else LowestFrom(w, i + 1)
  }

  /** `trailing_zeros` of a non-zero word: its lowest set bit. */
  function TrailingZeros(w: Word): (r: nat)
    requires w != 0
    ensures r < 64 && Bit(w, r)
    ensures forall j: nat :: j < r ==> !Bit(w, j)
  {
    assert LowestFrom(w, 0) < 64 by {
      forall i: nat ensures !Bit(0, i) { ZeroHasNoBits(i); }
      if LowestFrom(w, 0) == 64 { WordExtensional(w, 0); }
    }
    LowestFrom(w, 0)
  }

  lemma {:induction false} OnesN(n: nat, i: nat)
    requires i < n
    ensures Bit(Pow2(n) - 1, i)
  {
    if i > 0 {
      OnesN(n - 1, i - 1);
      assert (Pow2(n) - 1) / 2 == Pow2(n - 1) - 1;
    }
  }

  /** A word is all ones exactly when every bit is set. */
  lemma AllOnes(w: Word)
    ensures w == ALL_ONES ==> forall i: nat :: i < 64 ==> Bit(w, i)
    ensures w != ALL_ONES ==> Not(w) != 0
  {
    Pow2Of64();
    if w == ALL_ONES {
      forall i: nat | i < 64 ensures Bit(w, i) { OnesN(64, i); }
    } else if Not(w) == 0 {
      var ones := Pow2(64) - 1;
      forall i: nat | i < 64 ensures Bit(w, i) <==> Bit(ones, i) {
        OnesN(64, i);
        ZeroHasNoBits(i);
        assert Bit(Not(w), i) <==> !Bit(w, i);
      }
      WordExtensional(w, ones);
    }
  }

  lemma TestBit(w: Word, b: nat)
    requires b < 64
    ensures And(w, Mask(b)) != 0 <==> Bit(w, b)
  {
    var m := And(w, Mask(b));
    assert Bit(m, b) <==> Bit(w, b);
    if m == 0 {
      ZeroHasNoBits(b);
    } else {
      var i := TrailingZeros(m);
      assert i == b;
    }
  }
}
