/** Natural numbers as bytes and bit strings. */
module Bits {

  type byte = b: nat | b < 256

  function Pow2(n: nat): (p: nat)
    ensures p > 0
  {
    if n == 0 then 1 else 2 * Pow2(n - 1)
  }

  lemma Pow2Of5And8()
    ensures Pow2(5) == 32 && Pow2(8) == 256
  {
  }

  function Quo(v: nat, p: nat): nat
    requires p > 0
  {
    v / p
  }

  function Rem(v: nat, p: nat): nat
    requires p > 0
  {
    v % p
  }

  lemma QuoRem(v: nat, p: nat)
    requires p > 0
    ensures v == Quo(v, p) * p + Rem(v, p) && Rem(v, p) < p
  {
  }

  /** The low `k` bits of `v`, most significant first. */
  function ToBits(v: nat, k: nat): (bs: seq<bool>)
    ensures |bs| == k
  {
    if k == 0 then [] else ToBits(v / 2, k - 1) + [v % 2 == 1]
  }

  function FromBits(bs: seq<bool>): nat {
    if bs == [] then 0 else 2 * FromBits(bs[..|bs| - 1]) + (if bs[|bs| - 1] then 1 else 0)
  }

  function Zeros(n: nat): (bs: seq<bool>)
    ensures |bs| == n
  {
    if n == 0 then [] else Zeros(n - 1) + [false]
  }

  lemma {:induction false} FromToBits(v: nat, k: nat)
    requires v < Pow2(k)
    ensures FromBits(ToBits(v, k)) == v
  {
    if k > 0 {
      FromToBits(v / 2, k - 1);
      assert ToBits(v, k)[..k - 1] == ToBits(v / 2, k - 1);
    }
  }

  lemma {:induction false} FromBitsBelow(bs: seq<bool>)
    ensures FromBits(bs) < Pow2(|bs|)
  {
    if bs != [] { FromBitsBelow(bs[..|bs| - 1]); }
  }

  lemma {:induction false} ToFromBits(bs: seq<bool>)
    ensures ToBits(FromBits(bs), |bs|) == bs
  {
    if bs != [] {
      ToFromBits(bs[..|bs| - 1]);
      assert bs == bs[..|bs| - 1] + [bs[|bs| - 1]];
    }
  }

  lemma HalfOfShifted(v: nat, r: nat, m: nat)
    requires m > 0
    ensures (v * Pow2(m) + r) / 2 == v * Pow2(m - 1) + r / 2
    ensures (v * Pow2(m) + r) % 2 == r % 2
  {
    assert v * Pow2(m) == 2 * (v * Pow2(m - 1));
  }

  /** Writing `r` behind `v` shifted left writes its bits behind the bits of `v`. */
  lemma {:induction false} BitsOfShifted(v: nat, r: nat, k: nat, m: nat)
    requires r < Pow2(m)
    ensures ToBits(v * Pow2(m) + r, k + m) == ToBits(v, k) + ToBits(r, m)
  {
    if m > 0 {
      HalfOfShifted(v, r, m);
      assert r / 2 < Pow2(m - 1);
      hide Pow2;
      BitsOfShifted(v, r / 2, k, m - 1);
    }
  }

  /** High bits do not show in the low bits. */
  lemma {:induction false} LowBitsOnly(q: nat, r: nat, n: nat, k: nat)
    requires k <= n
    ensures ToBits(q * Pow2(n) + r, k) == ToBits(r, k)
  {
    if k > 0 {
      HalfOfShifted(q, r, n);
      hide Pow2;
      LowBitsOnly(q, r / 2, n - 1, k - 1);
    }
  }

  lemma BitsOfRemainder(v: nat, n: nat, k: nat)
    requires k <= n
    ensures ToBits(Rem(v, Pow2(n)), k) == ToBits(v, k)
  {
    hide Quo;
    hide Rem;
    QuoRem(v, Pow2(n));
    LowBitsOnly(Quo(v, Pow2(n)), Rem(v, Pow2(n)), n, k);
  }

  /** Reading the top `k` of the low `s + k` bits leaves the low `s` bits. */
  lemma BitsSplit(v: nat, k: nat, s: nat)
    ensures ToBits(v, k + s) == ToBits(Rem(Quo(v, Pow2(s)), Pow2(k)), k) + ToBits(v, s)
  {
    hide Quo;
    hide Rem;
    QuoRem(v, Pow2(s));
    BitsOfShifted(Quo(v, Pow2(s)), Rem(v, Pow2(s)), k, s);
    BitsOfRemainder(Quo(v, Pow2(s)), k, k);
    BitsOfRemainder(v, s, s);
  }
}
