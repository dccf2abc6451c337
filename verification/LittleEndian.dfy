/** Little-endian machine words stored in byte sequences. */
module LittleEndian {
  import opened Common

  type byte = b: int | 0 <= b < 256

  function Pow256(n: nat): (r: nat)
    ensures r >= 1
  {
    if n == 0 then 1 else 256 * Pow256(n - 1)
  }

  lemma Pow256Of8()
    ensures Pow256(8) == U64_LIMIT
  {
    assert Pow256(2) == 0x1_0000;
    assert Pow256(4) == 256 * (256 * Pow256(2));
    assert Pow256(6) == 256 * (256 * Pow256(4));
  }

  /** The `n` low bytes of `v`, least significant first. */
  function ToLe(v: nat, n: nat): (s: seq<byte>)
    ensures |s| == n
  {
    if n == 0 then [] else [v % 256] + ToLe(v / 256, n - 1)
  }

  function FromLe(s: seq<byte>): nat {
    if s == [] then 0 else s[0] + 256 * FromLe(s[1..])
  }

  lemma {:induction false} FromToLe(v: nat, n: nat)
    requires v < Pow256(n)
    ensures FromLe(ToLe(v, n)) == v
  {
    if n > 0 {
      FromToLe(v / 256, n - 1);
      assert ToLe(v, n)[1..] == ToLe(v / 256, n - 1);
    }
  }

  /** A 64-bit word survives being stored and loaded. */
  lemma U64RoundTrip(v: nat)
    requires v < U64_LIMIT
    ensures FromLe(ToLe(v, 8)) == v
  {
    Pow256Of8();
    FromToLe(v, 8);
  }

  lemma {:induction false} ZerosAreZero(s: seq<byte>)
    requires forall i :: 0 <= i < |s| ==> s[i] == 0
    ensures FromLe(s) == 0
  {
    if s != [] { ZerosAreZero(s[1..]); }
  }
}
