/** Comparing address prefixes: a byte loop and a mask, against addresses as whole numbers. */
module IpPrefix {
  import opened Bits

  /** An address of 4 or 16 bytes read as one big-endian number. */
  function Value(a: seq<byte>): nat {
    if a == [] then 0 else 256 * Value(a[..|a| - 1]) + a[|a| - 1]
  }

  /** The first `k` bits of an `n`-byte address, as a number. */
  function Prefix(a: seq<byte>, k: nat): nat
    requires k <= 8 * |a|
  {
    Quo(Value(a), Pow2(8 * |a| - k))
  }

  /** Two addresses share their first `k` bits. */
  predicate SamePrefix(a: seq<byte>, b: seq<byte>, k: nat)
    requires |a| == |b| && k <= 8 * |a|
  {
    Prefix(a, k) == Prefix(b, k)
  }

  // ---- arithmetic of quotients ----------------------------------------------------------------

  lemma Pow2Sum(m: nat, n: nat)
    ensures Pow2(m + n) == Pow2(m) * Pow2(n)
    decreases n
  {
    if n > 0 {
      Pow2Sum(m, n - 1);
      assert Pow2(m) * Pow2(n) == 2 * (Pow2(m) * Pow2(n - 1));
    }
  }

  lemma {:induction false} MulStep(x: nat, y: nat, p: nat)
    requires x < y
    ensures x * p + p <= y * p
  {
    if x + 1 < y { MulStep(x, y - 1, p); }
    assert y * p == (y - 1) * p + p;
  }

  /** A quotient and a remainder are determined by the number they make up. */
  lemma CompareSplit(x: nat, y: nat, s: nat, t: nat, p: nat)
    requires s < p && t < p
    ensures x * p + s == y * p + t <==> x == y && s == t
  {
    if x < y {
      MulStep(x, y, p);
    } else if y < x {
      MulStep(y, x, p);
    }
  }

  lemma QuoFrom(v: nat, p: nat, q: nat, r: nat)
    requires p > 0 && v == q * p + r && r < p
    ensures Quo(v, p) == q && Rem(v, p) == r
  {
    hide *;
    QuoRem(v, p);
    CompareSplit(Quo(v, p), q, Rem(v, p), r, p);
  }

  /** A number lies in `[q * p, q * p + p)` exactly when `q` is its quotient. */
  lemma QuoIs(v: nat, p: nat, q: nat)
    requires p > 0
    ensures Quo(v, p) == q <==> q * p <= v < q * p + p
  {
    hide *;
    if q * p <= v < q * p + p {
      QuoFrom(v, p, q, v - q * p);
    } else {
      QuoRem(v, p);
    }
  }

  lemma QuoBelow(v: nat, p: nat, m: nat)
    requires p > 0 && v < m * p
    ensures Quo(v, p) < m
  {
    hide *;
    QuoRem(v, p);
    if m < Quo(v, p) {
      MulStep(m, Quo(v, p), p);
      assert false;
    }
  }

  /** Dividing twice is dividing by the product. */
  lemma QuoTwice(v: nat, p: nat, q: nat)
    requires p > 0 && q > 0
    ensures p * q > 0 && Quo(Quo(v, p), q) == Quo(v, p * q)
  {
    hide *;
    QuoRem(v, p);
    QuoRem(Quo(v, p), q);
    TwoDigits(Quo(Quo(v, p), q), Rem(Quo(v, p), q), Rem(v, p), p, q);
    QuoFrom(v, p * q, Quo(Quo(v, p), q), Rem(Quo(v, p), q) * p + Rem(v, p));
  }

  lemma TwoDigits(x: nat, d: nat, r: nat, p: nat, q: nat)
    requires r < p && d < q
    ensures (x * q + d) * p + r == x * (p * q) + (d * p + r)
    ensures d * p + r < p * q
  {
    MulStep(d, q, p);
    assert (x * q + d) * p == x * q * p + d * p;
    assert x * q * p == x * (q * p);
  }

  // ---- the bytes in front --------------------------------------------------------------------

  lemma {:induction false} ValueInjective(a: seq<byte>, b: seq<byte>)
    requires |a| == |b|
    ensures Value(a) == Value(b) <==> a == b
  {
    if a != [] && Value(a) == Value(b) {
      ValueInjective(a[..|a| - 1], b[..|b| - 1]);
      assert a == a[..|a| - 1] + [a[|a| - 1]];
      assert b == b[..|b| - 1] + [b[|b| - 1]];
    }
  }

  /** Dropping whole bytes from the end divides by a power of 256. */
  lemma {:induction false} LeadingBytes(a: seq<byte>, w: nat)
    requires w <= |a|
    ensures Prefix(a, 8 * w) == Value(a[..w])
    decreases |a|
  {
    if w == |a| {
      assert a[..w] == a;
      QuoFrom(Value(a), 1, Value(a), 0);
    } else {
      var init := a[..|a| - 1];
      LeadingBytes(init, w);
      assert init[..w] == a[..w];
      LastByteDropped(a);
      hide Value;
      hide Quo;
      QuoTwice(Value(a), 256, Pow2(8 * |init| - 8 * w));
      Pow2Of5And8();
      Pow2Sum(8, 8 * |init| - 8 * w);
    }
  }

  lemma LastByteDropped(a: seq<byte>)
    requires a != []
    ensures Quo(Value(a), 256) == Value(a[..|a| - 1])
  {
    QuoFrom(Value(a), 256, Value(a[..|a| - 1]), a[|a| - 1]);
  }

  /** Beyond `w` whole bytes and `r` bits, the prefix is the bytes' number and the top of the next byte. */
  lemma SplitByte(a: seq<byte>, w: nat, r: nat)
    requires w < |a| && 0 < r < 8
    ensures Prefix(a, 8 * w + r) == Value(a[..w]) * Pow2(r) + Quo(a[w], Pow2(8 - r))
    ensures Quo(a[w], Pow2(8 - r)) < Pow2(r)
  {
    LeadingBytes(a, w + 1);
    assert a[..w + 1][..w] == a[..w];
    var front := Value(a[..w]);
    assert Value(a[..w + 1]) == 256 * front + a[w];
    TopOfByte(front, a[w], r);
    var behind := 8 * |a| - 8 * (w + 1);
    hide Value;
    hide Quo;
    QuoTwice(Value(a), Pow2(behind), Pow2(8 - r));
    Pow2Sum(behind, 8 - r);
  }

  lemma TopOfByte(front: nat, last: byte, r: nat)
    requires 0 < r < 8
    ensures Quo(256 * front + last, Pow2(8 - r)) == front * Pow2(r) + Quo(last, Pow2(8 - r))
    ensures Quo(last, Pow2(8 - r)) < Pow2(r)
  {
    hide *;
    Pow2Of5And8();
    Pow2Sum(r, 8 - r);
    QuoRem(last, Pow2(8 - r));
    QuoBelow(last, Pow2(8 - r), Pow2(r));
    TwoDigits(front, Quo(last, Pow2(8 - r)), Rem(last, Pow2(8 - r)), Pow2(8 - r), Pow2(r));
    QuoFrom(256 * front + last, Pow2(8 - r), front * Pow2(r) + Quo(last, Pow2(8 - r)), Rem(last, Pow2(8 - r)));
  }

  // ---- the mask -------------------------------------------------------------------------------

  /** Bitwise and of the low `k` bits. */
  function BitAnd(x: nat, y: nat, k: nat): nat {
    if k == 0 then 0 else 2 * BitAnd(x / 2, y / 2, k - 1) + (if x % 2 == 1 && y % 2 == 1 then 1 else 0)
  }

  /** `(0xff << s) & 0xff`. */
  function Mask(s: nat): nat { Rem(255 * Pow2(s), 256) }

  lemma MaskIs(s: nat)
    requires s <= 8
    ensures Pow2(s) <= 256 && Mask(s) == 256 - Pow2(s)
  {
    Pow2Of5And8();
    Pow2Sum(s, 8 - s);
    var p := Pow2(s);
    assert p * Pow2(8 - s) >= p;
    assert 255 * p == (p - 1) * 256 + (256 - p);
    QuoFrom(255 * p, 256, p - 1, 256 - p);
  }

  /** Masking off the low `s` bits leaves the multiple of `2^s` below. */
  lemma {:induction false} AndWithMask(x: nat, s: nat, k: nat)
    requires s <= k && x < Pow2(k)
    ensures Pow2(s) <= Pow2(k) && BitAnd(x, Pow2(k) - Pow2(s), k) == Quo(x, Pow2(s)) * Pow2(s)
    decreases k
  {
    Pow2Grows(s, k);
    if s == 0 {
      AndWithOnes(x, k);
      QuoFrom(x, 1, x, 0);
    } else {
      hide *;
      PowHalves(s, k, x);
      AndWithMask(x / 2, s - 1, k - 1);
      AndDoubled(x, Pow2(k - 1) - Pow2(s - 1), k);
      HalfQuo(x, s);
    }
  }

  lemma PowHalves(s: nat, k: nat, x: nat)
    requires 0 < s <= k && x < Pow2(k)
    ensures x / 2 < Pow2(k - 1) && Pow2(s - 1) <= Pow2(k - 1)
    ensures Pow2(k) - Pow2(s) == 2 * (Pow2(k - 1) - Pow2(s - 1))
  {
    Pow2Grows(s - 1, k - 1);
  }

  lemma AndDoubled(x: nat, y: nat, k: nat)
    requires k > 0
    ensures BitAnd(x, 2 * y, k) == 2 * BitAnd(x / 2, y, k - 1)
  {
  }

  lemma HalfQuo(x: nat, s: nat)
    requires s > 0
    ensures Quo(x, Pow2(s)) * Pow2(s) == 2 * (Quo(x / 2, Pow2(s - 1)) * Pow2(s - 1))
  {
    assert Quo(x, 2) == x / 2;
    assert Pow2(s) == 2 * Pow2(s - 1);
    hide *;
    QuoTwice(x, 2, Pow2(s - 1));
  }

  lemma {:induction false} Pow2Grows(s: nat, k: nat)
    requires s <= k
    ensures Pow2(s) <= Pow2(k)
  {
    if s < k { Pow2Grows(s, k - 1); }
  }

  lemma {:induction false} AndWithOnes(x: nat, k: nat)
    requires x < Pow2(k)
    ensures BitAnd(x, Pow2(k) - 1, k) == x
  {
    if k > 0 {
      AndWithOnes(x / 2, k - 1);
      assert (Pow2(k) - 1) / 2 == Pow2(k - 1) - 1;
    }
  }

  lemma MaskedEqual(x: byte, y: byte, s: nat)
    requires s <= 8
    ensures BitAnd(x, Mask(s), 8) == BitAnd(y, Mask(s), 8) <==> Quo(x, Pow2(s)) == Quo(y, Pow2(s))
  {
    hide Quo;
    hide BitAnd;
    Pow2Of5And8();
    MaskIs(s);
    AndWithMask(x, s, 8);
    AndWithMask(y, s, 8);
    CompareSplit(Quo(x, Pow2(s)), Quo(y, Pow2(s)), 0, 0, Pow2(s));
  }

  // ---- the comparison ----------------------------------------------------------------------------

  lemma WholeBytes(a: seq<byte>, b: seq<byte>, w: nat)
    requires |a| == |b| && w <= |a|
    ensures SamePrefix(a, b, 8 * w) <==> a[..w] == b[..w]
  {
    LeadingBytes(a, w);
    LeadingBytes(b, w);
    ValueInjective(a[..w], b[..w]);
  }

  lemma BytesAndBits(a: seq<byte>, b: seq<byte>, w: nat, r: nat)
    requires |a| == |b| && w < |a| && 0 < r < 8
    ensures SamePrefix(a, b, 8 * w + r) <==> a[..w] == b[..w] && Quo(a[w], Pow2(8 - r)) == Quo(b[w], Pow2(8 - r))
  {
    SplitByte(a, w, r);
    SplitByte(b, w, r);
    ValueInjective(a[..w], b[..w]);
    CompareSplit(Value(a[..w]), Value(b[..w]), Quo(a[w], Pow2(8 - r)), Quo(b[w], Pow2(8 - r)), Pow2(r));
  }

  /** A shorter prefix agrees wherever a longer one does. */
  lemma ShorterPrefix(a: seq<byte>, b: seq<byte>, k: nat, m: nat)
    requires |a| == |b| && k <= m <= 8 * |a| && SamePrefix(a, b, m)
    ensures SamePrefix(a, b, k)
  {
    ShortenPrefix(a, k, m);
    ShortenPrefix(b, k, m);
  }

  lemma ShortenPrefix(a: seq<byte>, k: nat, m: nat)
    requires k <= m <= 8 * |a|
    ensures Prefix(a, k) == Quo(Prefix(a, m), Pow2(m - k))
  {
    QuoTwice(Value(a), Pow2(8 * |a| - m), Pow2(m - k));
    Pow2Sum(8 * |a| - m, m - k);
  }

  lemma DifferentByte(a: seq<byte>, b: seq<byte>, i: nat, k: nat)
    requires |a| == |b| && 8 * (i + 1) <= k <= 8 * |a| && a[i] != b[i]
    ensures !SamePrefix(a, b, k)
  {
    if SamePrefix(a, b, k) {
      ShorterPrefix(a, b, 8 * (i + 1), k);
      WholeBytes(a, b, i + 1);
      EqualPrefixes(a, b, i);
      assert false;
    }
  }

  lemma EqualPrefixes(a: seq<byte>, b: seq<byte>, i: nat)
    requires i < |a| && i < |b| && a[..i + 1] == b[..i + 1]
    ensures a[i] == b[i]
  {
    assert a[i] == a[..i + 1][i] && b[i] == b[..i + 1][i];
  }

  /** The byte loop and the mask compare the leading bits of the two numbers. */
  method PrefixMatches(a: seq<byte>, b: seq<byte>, bits: nat) returns (same: bool)
    requires |a| == |b| && bits <= 8 * |a|
    ensures same <==> SamePrefix(a, b, bits)
  {
    hide SamePrefix;
    var wholeBytes := bits / 8;
    for i := 0 to wholeBytes
      invariant a[..i] == b[..i]
    {
      if a[i] != b[i] {
        DifferentByte(a, b, i, bits);
        return false;
      }
    }
    var remaining := bits % 8;
    if remaining == 0 {
      WholeBytes(a, b, wholeBytes);
      return true;
    }
    BytesAndBits(a, b, wholeBytes, remaining);
    MaskedEqual(a[wholeBytes], b[wholeBytes], 8 - remaining);
    return BitAnd(a[wholeBytes], Mask(8 - remaining), 8) == BitAnd(b[wholeBytes], Mask(8 - remaining), 8);
  }

  // ---- ranges -------------------------------------------------------------------------------------

  /** The addresses of one family from `low` on, `size` of them. */
  datatype Range = Range(width: nat, low: nat, size: nat)

  function RangeOf(network: seq<byte>, bits: nat): Range
    requires bits <= 8 * |network|
  {
    var size := Pow2(8 * |network| - bits);
    Range(|network|, Prefix(network, bits) * size, size)
  }

  predicate InRange(address: seq<byte>, range: Range) {
    |address| == range.width && range.low <= Value(address) < range.low + range.size
  }

  /** Sharing the prefix is lying in one interval of addresses. */
  lemma PrefixIsInterval(address: seq<byte>, network: seq<byte>, bits: nat)
    requires |address| == |network| && bits <= 8 * |network|
    ensures SamePrefix(address, network, bits) <==> InRange(address, RangeOf(network, bits))
  {
    QuoIs(Value(address), Pow2(8 * |network| - bits), Prefix(network, bits));
  }

  /** Of two ranges of one family, one contains the other or they have no address in common. */
  lemma RangesNestOrAreDisjoint(a: seq<byte>, k: nat, b: seq<byte>, m: nat)
    requires |a| == |b| && k <= m <= 8 * |a|
    ensures (forall x :: InRange(x, RangeOf(b, m)) ==> InRange(x, RangeOf(a, k)))
         || (forall x :: InRange(x, RangeOf(b, m)) ==> !InRange(x, RangeOf(a, k)))
  {
    hide SamePrefix;
    hide InRange;
    forall x | InRange(x, RangeOf(b, m))
      ensures InRange(x, RangeOf(a, k)) <==> SamePrefix(b, a, k)
    {
      InWidth(x, RangeOf(b, m));
      PrefixIsInterval(x, b, m);
      ShorterPrefix(x, b, k, m);
      PrefixIsInterval(x, a, k);
      SameAsMiddle(x, b, a, k);
    }
  }

  lemma InWidth(x: seq<byte>, range: Range)
    requires InRange(x, range)
    ensures |x| == range.width
  {
  }

  lemma SameAsMiddle(x: seq<byte>, y: seq<byte>, z: seq<byte>, k: nat)
    requires |x| == |y| == |z| && k <= 8 * |x| && SamePrefix(x, y, k)
    ensures SamePrefix(x, z, k) <==> SamePrefix(y, z, k)
  {
  }
}
