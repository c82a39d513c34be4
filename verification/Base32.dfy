/**
 Base32 (section 6 of RFC 4648) as the service computes it: a loop that shifts bytes through a
 32-bit accumulator, proved against the plain definition on bit strings.
 */
module Base32 {
  import opened Bits
  import opened Lists
  import opened Options

  // ---- the alphabet --------------------------------------------------------------------------

  const BASE32_ALPHABET := "ABCDEFGHIJKLMNOPQRSTUVWXYZ234567"

  /** The character at an index of the alphabet. */
  function CharAt(i: nat): char
    requires i < 32
  {
    if i < 26 then ('A' as int + i) as char else ('2' as int + i - 26) as char
  }

  function Letter(i: nat): char
    requires i < 32
  {
    BASE32_ALPHABET[i]
  }

  lemma CharAtIsLetter(i: nat)
    requires i < 32
    ensures CharAt(i) == Letter(i)
  {
  }

  function IndexOf(c: char): (i: Option<nat>)
    ensures i.Some? ==> i.value < 32 && CharAt(i.value) == c
  {
    if 'A' <= c <= 'Z' then Some(c as int - 'A' as int)
    else if '2' <= c <= '7' then Some(26 + c as int - '2' as int) else None
  }

  lemma IndexOfChar(k: nat)
    requires k < 32
    ensures IndexOf(CharAt(k)) == Some(k)
  {
  }

  predicate Decoration(c: char) { c in " \t\n\r\U{0b}\U{0c}=" }

  function Upper(c: char): char { if 'a' <= c <= 'z' then (c as int - 32) as char else c }

  // ---- what base32 is -------------------------------------------------------------------------

  function BitsOf(buf: seq<byte>): seq<bool> {
    if buf == [] then [] else ToBits(buf[0], 8) + BitsOf(buf[1..])
  }

  function Symbol(bs: seq<bool>): char
    requires |bs| == 5
  {
    FromBitsBelow(bs);
    Pow2Of5And8();
    CharAt(FromBits(bs))
  }

  /** Five bits to a character; the last group is filled up with zeros. */
  function EncodeBits(bs: seq<bool>): string {
    if bs == [] then ""
    else if |bs| < 5 then [Symbol(bs + Zeros(5 - |bs|))] else [Symbol(bs[..5])] + EncodeBits(bs[5..])
  }

  function Encoding(buf: seq<byte>): string { EncodeBits(BitsOf(buf)) }

  /** Eight bits to a byte; what is left over is dropped. */
  function BytesOf(bs: seq<bool>): seq<byte> {
    if |bs| < 8 then [] else FromBitsBelow(bs[..8]); [FromBits(bs[..8])] + BytesOf(bs[8..])
  }

  predicate Valid(text: string) { forall i :: 0 <= i < |text| ==> IndexOf(text[i]).Some? }

  function BitsOfText(text: string): seq<bool>
    requires Valid(text)
  {
    if text == "" then [] else ToBits(IndexOf(text[0]).value, 5) + BitsOfText(text[1..])
  }

  /** Spaces and padding dropped, letters in upper case. */
  function Clean(input: string): string {
    if input == "" then "" else CleanChar(input[0]) + Clean(input[1..])
  }

  function CleanChar(c: char): string { if Decoration(c) then "" else [Upper(c)] }

  /** What decoding means: the clean text's bits as bytes, unless a character is foreign. */
  function Decoding(input: string): Option<seq<byte>> {
    if Valid(Clean(input)) then Some(BytesOf(BitsOfText(Clean(input)))) else None
  }

  // ---- the loops --------------------------------------------------------------------------------

  const WORD := 0x1_0000_0000

  lemma WordIsPow2()
    ensures WORD == Pow2(32)
  {
    assert Pow2(8) == 256;
    assert Pow2(16) == 256 * Pow2(8);
    assert Pow2(24) == 256 * Pow2(16);
    assert Pow2(32) == 256 * Pow2(24);
  }

  /** `value << n` in a 32-bit register. */
  function ShiftLeft(value: nat, n: nat): nat { Rem(value * Pow2(n), WORD) }

  /** `(value >>> s) & (2^k - 1)` of a 32-bit register. */
  function Field(value: nat, s: nat, k: nat): (f: nat)
    ensures f < Pow2(k)
  {
    QuoRem(Quo(value, Pow2(s)), Pow2(k));
    Rem(Quo(value, Pow2(s)), Pow2(k))
  }

  /** Shifting a new group in keeps the pending bits although the register wraps. */
  lemma ShiftIn(value: nat, pending: nat, n: nat, group: nat)
    requires group < Pow2(n) && pending + n <= 32
    ensures ToBits(ShiftLeft(value, n) + group, pending + n) == ToBits(value, pending) + ToBits(group, n)
  {
    hide Quo;
    hide Rem;
    WordIsPow2();
    var shifted := value * Pow2(n);
    QuoRem(shifted, WORD);
    LowBitsOnly(Quo(shifted, WORD), Rem(shifted, WORD) + group, 32, pending + n);
    BitsOfShifted(value, group, pending, n);
  }

  /** The last, incomplete group filled up with zeros. */
  lemma LastGroup(value: nat, pending: nat)
    requires 0 < pending < 5
    ensures Rem(ShiftLeft(value, 5 - pending), 32) < 32
    ensures ToBits(value, pending) + Zeros(5 - pending) == ToBits(Rem(ShiftLeft(value, 5 - pending), 32), 5)
  {
    ShiftIn(value, pending, 5 - pending, 0);
    ZeroBits(5 - pending);
    Pow2Of5And8();
    BitsOfRemainder(ShiftLeft(value, 5 - pending), 5, 5);
  }

  lemma {:induction false} ZeroBits(n: nat)
    ensures ToBits(0, n) == Zeros(n)
  {
    if n > 0 { ZeroBits(n - 1); }
  }

  lemma SymbolOf(f: nat)
    requires f < 32
    ensures Symbol(ToBits(f, 5)) == CharAt(f)
  {
    Pow2Of5And8();
    FromToBits(f, 5);
  }

  /** What is still to be written: the pending bits of the register, then the rest of the input. */
  function ToWrite(value: nat, bits: nat, rest: seq<bool>): string { EncodeBits(ToBits(value, bits) + rest) }

  lemma ToWriteIs(value: nat, bits: nat, rest: seq<bool>)
    ensures ToWrite(value, bits, rest) == EncodeBits(ToBits(value, bits) + rest)
  {
  }

  lemma TakeByte(value: nat, bits: nat, buf: seq<byte>)
    requires bits < 5 && buf != []
    ensures ToWrite(value, bits, BitsOf(buf)) == ToWrite(ShiftLeft(value, 8) + buf[0], bits + 8, BitsOf(buf[1..]))
  {
    hide *;
    Pow2Of5And8();
    ShiftIn(value, bits, 8, buf[0]);
    BitsOfFirst(buf);
    AppendAssociative(ToBits(value, bits), ToBits(buf[0], 8), BitsOf(buf[1..]));
    ToWriteIs(value, bits, BitsOf(buf));
    ToWriteIs(ShiftLeft(value, 8) + buf[0], bits + 8, BitsOf(buf[1..]));
  }

  lemma WriteSymbol(value: nat, bits: nat, rest: seq<bool>)
    requires 5 <= bits
    ensures Field(value, bits - 5, 5) < 32
    ensures ToWrite(value, bits, rest) == [CharAt(Field(value, bits - 5, 5))] + ToWrite(value, bits - 5, rest)
  {
    hide Symbol;
    hide ToBits;
    hide Field;
    Pow2Of5And8();
    var group, left := ToBits(Field(value, bits - 5, 5), 5), ToBits(value, bits - 5) + rest;
    TopField(value, 5, bits - 5);
    SymbolOf(Field(value, bits - 5, 5));
    assert ToBits(value, bits) + rest == group + left;
    assert (group + left)[..5] == group && (group + left)[5..] == left;
  }

  lemma TopField(value: nat, k: nat, s: nat)
    ensures ToBits(value, k + s) == ToBits(Field(value, s, k), k) + ToBits(value, s)
  {
    BitsSplit(value, k, s);
  }

  lemma WriteLast(value: nat, bits: nat)
    requires bits < 5
    ensures bits == 0 ==> ToWrite(value, bits, []) == ""
    ensures bits > 0 ==>
          Rem(ShiftLeft(value, 5 - bits), 32) < 32
          && ToWrite(value, bits, []) == [CharAt(Rem(ShiftLeft(value, 5 - bits), 32))]
  {
    assert ToBits(value, bits) + [] == ToBits(value, bits);
    if bits > 0 {
      LastGroup(value, bits);
      SymbolOf(Rem(ShiftLeft(value, 5 - bits), 32));
    }
  }

  method Base32Encode(buf: seq<byte>) returns (out: string)
    ensures out == Encoding(buf)
  {
    hide ToWrite;
    hide BitsOf;
    hide ShiftLeft;
    hide Field;
    hide Letter;
    var bits: nat, value: nat := 0, 0;
    out := "";
    StartsWithAll(buf);
    for i := 0 to |buf|
      invariant 0 <= bits < 5
      invariant out + ToWrite(value, bits, BitsOf(buf[i..])) == Encoding(buf)
    {
      ghost var rest := BitsOf(buf[i + 1..]);
      assert buf[i..][1..] == buf[i + 1..];
      TakeByte(value, bits, buf[i..]);
      value := ShiftLeft(value, 8) + buf[i];
      bits := bits + 8;
      while bits >= 5
        invariant 0 <= bits <= 12
        invariant out + ToWrite(value, bits, rest) == Encoding(buf)
      {
        WriteSymbol(value, bits, rest);
        CharAtIsLetter(Field(value, bits - 5, 5));
        out := out + [Letter(Field(value, bits - 5, 5))];
        bits := bits - 5;
      }
    }
    WriteLast(value, bits);
    EndsWithNone(buf);
    if bits > 0 {
      CharAtIsLetter(Rem(ShiftLeft(value, 5 - bits), 32));
      out := out + [Letter(Rem(ShiftLeft(value, 5 - bits), 32))];
    }
  }

  lemma StartsWithAll(buf: seq<byte>)
    ensures buf[0..] == buf && ToWrite(0, 0, BitsOf(buf)) == Encoding(buf)
  {
    assert ToBits(0, 0) + BitsOf(buf) == BitsOf(buf);
  }

  lemma EndsWithNone(buf: seq<byte>)
    ensures BitsOf(buf[|buf|..]) == []
  {
  }

  /** What is still to be read off the register and the rest of the text. */
  function ToRead(value: nat, bits: nat, rest: seq<bool>): seq<byte> { BytesOf(ToBits(value, bits) + rest) }

  lemma TakeSymbol(value: nat, bits: nat, text: string)
    requires bits < 8 && text != "" && Valid(text)
    ensures Valid(text[1..])
    ensures ToRead(value, bits, BitsOfText(text))
         == ToRead(ShiftLeft(value, 5) + IndexOf(text[0]).value, bits + 5, BitsOfText(text[1..]))
  {
    hide *;
    TextSplit(text);
    ToReadIs(value, bits, BitsOfText(text));
    ToReadIs(ShiftLeft(value, 5) + IndexOf(text[0]).value, bits + 5, BitsOfText(text[1..]));
    Pow2Of5And8();
    var symbol := IndexOf(text[0]).value;
    ShiftIn(value, bits, 5, symbol);
    AppendAssociative(ToBits(value, bits), ToBits(symbol, 5), BitsOfText(text[1..]));
  }

  lemma ToReadIs(value: nat, bits: nat, rest: seq<bool>)
    ensures ToRead(value, bits, rest) == BytesOf(ToBits(value, bits) + rest)
  {
  }

  lemma TextSplit(text: string)
    requires text != "" && Valid(text)
    ensures Valid(text[1..]) && IndexOf(text[0]).Some?
    ensures BitsOfText(text) == ToBits(IndexOf(text[0]).value, 5) + BitsOfText(text[1..])
  {
  }

  lemma ReadByte(value: nat, bits: nat, rest: seq<bool>)
    requires bits >= 8
    ensures Field(value, bits - 8, 8) < 256
    ensures ToRead(value, bits, rest) == [Field(value, bits - 8, 8)] + ToRead(value, bits - 8, rest)
  {
    hide ToBits;
    hide Field;
    Pow2Of5And8();
    var group, left := ToBits(Field(value, bits - 8, 8), 8), ToBits(value, bits - 8) + rest;
    TopField(value, 8, bits - 8);
    FromToBits(Field(value, bits - 8, 8), 8);
    assert ToBits(value, bits) + rest == group + left;
    assert (group + left)[..8] == group && (group + left)[8..] == left;
  }

  /** A foreign character makes the whole text invalid; otherwise the bytes come out as defined. */
  method Base32Decode(input: string) returns (bytes: Option<seq<byte>>)
    ensures bytes == Decoding(input)
  {
    hide *;
    DecodingIs(input);
    var clean := Clean(input);
    var bits: nat, value: nat := 0, 0;
    var out: seq<byte> := [];
    ReadsFromStart(clean);
    for i := 0 to |clean|
      invariant 0 <= bits < 8
      invariant forall k :: 0 <= k < i ==> IndexOf(clean[k]).Some?
      invariant Valid(clean) ==>
            Valid(clean[i..]) && out + ToRead(value, bits, BitsOfText(clean[i..])) == BytesOf(BitsOfText(clean))
    {
      ValidMeans(clean);
      var idx := IndexOf(clean[i]);
      if idx.None? {
        return None;
      }
      ghost var rest := ReadSymbol(value, bits, clean, i);
      value := ShiftLeft(value, 5) + idx.value;
      bits := bits + 5;
      if bits >= 8 {
        ReadByte(value, bits, rest);
        out := out + [Field(value, bits - 8, 8)];
        bits := bits - 8;
      }
    }
    ValidMeans(clean);
    ReadsNothingMore(value, bits, clean);
    assert out + [] == out;
    return Some(out);
  }

  lemma ValidMeans(text: string)
    ensures Valid(text) <==> forall i :: 0 <= i < |text| ==> IndexOf(text[i]).Some?
  {
  }

  /** Reading the character at `i`, and the bits of the text behind it. */
  lemma ReadSymbol(value: nat, bits: nat, clean: string, i: nat) returns (rest: seq<bool>)
    requires bits < 8 && i < |clean| && IndexOf(clean[i]).Some? && (Valid(clean) ==> Valid(clean[i..]))
    ensures Valid(clean) ==> Valid(clean[i + 1..]) && rest == BitsOfText(clean[i + 1..])
    ensures Valid(clean) ==>
          ToRead(value, bits, BitsOfText(clean[i..]))
              == ToRead(ShiftLeft(value, 5) + IndexOf(clean[i]).value, bits + 5, rest)
  {
    hide *;
    rest := [];
    if Valid(clean) {
      assert clean[i..][1..] == clean[i + 1..];
      TakeSymbol(value, bits, clean[i..]);
      rest := BitsOfText(clean[i + 1..]);
    }
  }

  lemma DecodingIs(input: string)
    ensures Decoding(input) == if Valid(Clean(input)) then Some(BytesOf(BitsOfText(Clean(input)))) else None
  {
  }

  lemma ReadsFromStart(clean: string)
    ensures clean[0..] == clean
    ensures Valid(clean) ==> ToRead(0, 0, BitsOfText(clean)) == BytesOf(BitsOfText(clean))
  {
    if Valid(clean) { assert ToBits(0, 0) + BitsOfText(clean) == BitsOfText(clean); }
  }

  lemma ReadsNothingMore(value: nat, bits: nat, clean: string)
    requires bits < 8
    ensures ToRead(value, bits, BitsOfText(clean[|clean|..])) == []
  {
  }

  // ---- the round trip ------------------------------------------------------------------------------

  lemma SymbolDecodes(bs: seq<bool>)
    requires |bs| == 5
    ensures IndexOf(Symbol(bs)).Some? && ToBits(IndexOf(Symbol(bs)).value, 5) == bs
  {
    FromBitsBelow(bs);
    Pow2Of5And8();
    IndexOfChar(FromBits(bs));
    ToFromBits(bs);
  }

  /** Encoded text reads back as the same bits, followed by less than a group of zeros. */
  lemma {:induction false} EncodedBits(bs: seq<bool>) returns (fill: nat)
    ensures fill < 5 && Valid(EncodeBits(bs)) && BitsOfText(EncodeBits(bs)) == bs + Zeros(fill)
    decreases |bs|
  {
    hide *;
    if |bs| < 5 {
      fill := EncodedLast(bs);
    } else {
      SymbolDecodes(bs[..5]);
      fill := EncodedBits(bs[5..]);
      EncodeFirst(bs);
      TextFirst(Symbol(bs[..5]), EncodeBits(bs[5..]));
      assert bs[..5] + (bs[5..] + Zeros(fill)) == bs + Zeros(fill);
    }
  }

  lemma EncodedLast(bs: seq<bool>) returns (fill: nat)
    requires |bs| < 5
    ensures fill < 5 && Valid(EncodeBits(bs)) && BitsOfText(EncodeBits(bs)) == bs + Zeros(fill)
  {
    if bs == [] {
      fill := 0;
    } else {
      hide *;
      fill := 5 - |bs|;
      SymbolDecodes(bs + Zeros(fill));
      EncodeShort(bs);
      TextOne(Symbol(bs + Zeros(fill)));
    }
  }

  lemma EncodeShort(bs: seq<bool>)
    requires 0 < |bs| < 5
    ensures EncodeBits(bs) == [Symbol(bs + Zeros(5 - |bs|))]
  {
  }

  lemma TextOne(c: char)
    requires IndexOf(c).Some?
    ensures Valid([c]) && BitsOfText([c]) == ToBits(IndexOf(c).value, 5)
  {
    hide IndexOf;
    hide ToBits;
    TextFirst(c, "");
    assert [c] + "" == [c];
  }

  lemma EncodeFirst(bs: seq<bool>)
    requires |bs| >= 5
    ensures EncodeBits(bs) == [Symbol(bs[..5])] + EncodeBits(bs[5..])
  {
  }

  lemma TextFirst(c: char, text: string)
    requires IndexOf(c).Some? && Valid(text)
    ensures Valid([c] + text) && BitsOfText([c] + text) == ToBits(IndexOf(c).value, 5) + BitsOfText(text)
  {
    assert ([c] + text)[1..] == text;
  }

  lemma {:induction false} BytesOfBits(buf: seq<byte>, fill: nat)
    requires fill < 8
    ensures BytesOf(BitsOf(buf) + Zeros(fill)) == buf
  {
    if buf != [] {
      hide *;
      Pow2Of5And8();
      FromToBits(buf[0], 8);
      BytesOfBits(buf[1..], fill);
      BitsOfFirst(buf);
      AppendAssociative(ToBits(buf[0], 8), BitsOf(buf[1..]), Zeros(fill));
      FirstByte(ToBits(buf[0], 8), BitsOf(buf[1..]) + Zeros(fill));
      assert buf == [buf[0]] + buf[1..];
    } else {
      assert BitsOf(buf) + Zeros(fill) == Zeros(fill);
    }
  }

  lemma BitsOfFirst(buf: seq<byte>)
    requires buf != []
    ensures BitsOf(buf) == ToBits(buf[0], 8) + BitsOf(buf[1..])
  {
  }

  lemma FirstByte(group: seq<bool>, rest: seq<bool>)
    requires |group| == 8 && FromBits(group) < 256
    ensures BytesOf(group + rest) == [FromBits(group)] + BytesOf(rest)
  {
    hide FromBits;
    assert (group + rest)[..8] == group && (group + rest)[8..] == rest;
  }

  lemma {:induction false} CleanLeavesAlphabet(text: string)
    requires Valid(text)
    ensures Clean(text) == text
  {
    if text != "" {
      forall i | 0 <= i < |text| - 1 ensures IndexOf(text[1..][i]).Some? { assert text[1..][i] == text[i + 1]; }
      CleanLeavesAlphabet(text[1..]);
    }
  }

  /** Every text that is an encoding up to spacing, padding and letter case decodes to the bytes. */
  lemma DecodesToWhatWasEncoded(buf: seq<byte>, typed: string)
    requires Clean(typed) == Encoding(buf)
    ensures Decoding(typed) == Some(buf)
  {
    var fill := EncodedBits(BitsOf(buf));
    BytesOfBits(buf, fill);
  }

  /** Decoding undoes encoding for every byte sequence. */
  lemma Base32RoundTrip(buf: seq<byte>)
    ensures Decoding(Encoding(buf)) == Some(buf)
  {
    var _ := EncodedBits(BitsOf(buf));
    CleanLeavesAlphabet(Encoding(buf));
    DecodesToWhatWasEncoded(buf, Encoding(buf));
  }

  lemma {:induction false} CleanConcat(a: string, b: string)
    ensures Clean(a + b) == Clean(a) + Clean(b)
  {
    if a == "" {
      assert a + b == b;
    } else {
      hide *;
      CleanConcat(a[1..], b);
      CleanSplit(a);
      CleanSplit(a + b);
      AppendHead(a, b);
      AppendAssociative(CleanChar(a[0]), Clean(a[1..]), Clean(b));
    }
  }

  lemma CleanSplit(s: string)
    requires s != ""
    ensures Clean(s) == CleanChar(s[0]) + Clean(s[1..])
  {
  }

  lemma {:induction false} CleanDecoration(deco: string)
    requires forall c :: c in deco ==> Decoration(c)
    ensures Clean(deco) == ""
  {
    if deco != "" { CleanDecoration(deco[1..]); }
  }

  /** Spaces or padding typed anywhere change nothing about what a text decodes to. */
  lemma DecorationChangesNothing(a: string, deco: string, b: string)
    requires forall c :: c in deco ==> c in " \t\n\r\U{0b}\U{0c}="
    ensures Decoding(a + deco + b) == Decoding(a + b)
  {
    hide Decoding;
    CleanConcat(a + deco, b);
    CleanConcat(a, deco);
    CleanConcat(a, b);
    CleanDecoration(deco);
    SameClean(a + deco + b, a + b);
  }

  /** The letters of the alphabet typed as small letters, here and there or everywhere, change nothing either. */
  lemma CaseChangesNothing(a: string, b: string)
    requires |a| == |b|
    requires forall i :: 0 <= i < |a| ==> b[i] == a[i] || ('A' <= a[i] <= 'Z' && b[i] as int == a[i] as int + 32)
    ensures Decoding(a) == Decoding(b)
  {
    hide Decoding;
    CleanAlike(a, b);
    SameClean(a, b);
  }

  lemma {:induction false} CleanAlike(a: string, b: string)
    requires |a| == |b|
    requires forall i :: 0 <= i < |a| ==> b[i] == a[i] || ('A' <= a[i] <= 'Z' && b[i] as int == a[i] as int + 32)
    ensures Clean(a) == Clean(b)
  {
    if a != "" { CleanAlike(a[1..], b[1..]); }
  }

  lemma SameClean(s: string, t: string)
    requires Clean(s) == Clean(t)
    ensures Decoding(s) == Decoding(t)
  {
  }
}
