/** Reading IP addresses from text: dotted quads, hexadecimal groups, `::`, and the mapped form. */
module IpAddress {
  import opened Bits
  import opened Lists
  import opened Options
  import opened Text

  // ---- text ------------------------------------------------------------------------------------

  /** The text cut at every occurrence of `c`. */
  function Split(s: string, c: char): (parts: seq<string>)
    ensures |parts| > 0
  {
    var i := Find(s, c);
    if i == |s| then [s] else [s[..i]] + Split(s[i + 1..], c)
  }

  /** The first place of `c`, or the length of the text. */
  function Find(s: string, c: char): (i: nat)
    ensures i <= |s| && c !in s[..i] && (i < |s| ==> s[i] == c)
  {
    if s == "" || s[0] == c then 0
    else
      var i := Find(s[1..], c);
      assert s[..i + 1] == [s[0]] + s[1..][..i];
      i + 1
  }

  function Join(parts: seq<string>, c: char): string {
    if parts == [] then "" else if |parts| == 1 then parts[0] else parts[0] + [c] + Join(parts[1..], c)
  }

  lemma {:induction false} FindAt(a: string, c: char, b: string)
    requires c !in a
    ensures Find(a + [c] + b, c) == |a|
  {
    if a == "" {
      assert (a + [c] + b)[0] == c;
    } else {
      assert (a + [c] + b)[1..] == a[1..] + [c] + b;
      FindAt(a[1..], c, b);
    }
  }

  lemma FindNone(a: string, c: char)
    requires c !in a
    ensures Find(a, c) == |a|
  {
  }

  /** Cutting what was joined gives the parts back. */
  lemma {:induction false} SplitJoin(parts: seq<string>, c: char)
    requires parts != [] && forall i :: 0 <= i < |parts| ==> c !in parts[i]
    ensures Split(Join(parts, c), c) == parts
  {
    if |parts| == 1 {
      FindNone(parts[0], c);
    } else {
      hide *;
      JoinMore(parts, c);
      SplitJoin(parts[1..], c);
      FindAt(parts[0], c, Join(parts[1..], c));
      SplitOnce(parts[0], c, Join(parts[1..], c));
      assert [parts[0]] + parts[1..] == parts;
    }
  }

  lemma JoinMore(parts: seq<string>, c: char)
    requires |parts| > 1
    ensures Join(parts, c) == parts[0] + [c] + Join(parts[1..], c)
  {
  }

  lemma SplitOnce(a: string, c: char, b: string)
    requires Find(a + [c] + b, c) == |a|
    ensures Split(a + [c] + b, c) == [a] + Split(b, c)
  {
    var s := a + [c] + b;
    assert s[..|a|] == a && s[|a| + 1..] == b;
  }

  // ---- dotted quads ------------------------------------------------------------------------------

  /** One to three digits. */
  predicate ShortNumeral(s: string) { 1 <= |s| <= 3 && AllDigits(s) }

  predicate OctetText(s: string) { ShortNumeral(s) && ParseNat(s) <= 255 }

  function Octet(s: string): byte
    requires OctetText(s)
  {
    ParseNat(s)
  }

  predicate AllOctets(parts: seq<string>) { forall i :: 0 <= i < |parts| ==> OctetText(parts[i]) }

  /** What a dotted quad denotes: four octets, each up to three digits. Leading zeros are accepted. */
  function Ipv4Bytes(text: string): Option<seq<byte>> {
    var parts := Split(text, '.');
    if |parts| == 4 && AllOctets(parts) then Some([Octet(parts[0]), Octet(parts[1]), Octet(parts[2]), Octet(parts[3])])
    else None
  }

  method ParseIpv4(text: string) returns (bytes: Option<seq<byte>>)
    ensures bytes == Ipv4Bytes(text)
  {
    var parts := Split(text, '.');
    if |parts| != 4 { return None; }
    var out: seq<byte> := [];
    for i := 0 to 4
      invariant |out| == i
      invariant forall k :: 0 <= k < i ==> OctetText(parts[k]) && out[k] == Octet(parts[k])
    {
      if !ShortNumeral(parts[i]) { return None; }
      var n := ParseNat(parts[i]);
      if n > 255 { return None; }
      out := out + [n];
    }
    assert out == [Octet(parts[0]), Octet(parts[1]), Octet(parts[2]), Octet(parts[3])];
    return Some(out);
  }

  // ---- hexadecimal groups ----------------------------------------------------------------------------

  predicate IsHex(c: char) { '0' <= c <= '9' || 'a' <= c <= 'f' || 'A' <= c <= 'F' }

  function HexVal(c: char): (v: nat)
    requires IsHex(c)
    ensures v < 16
  {
    if c <= '9' then c as int - '0' as int
    else if c <= 'F' then c as int - 'A' as int + 10 else c as int - 'a' as int + 10
  }

  predicate HexText(s: string) { forall i :: 0 <= i < |s| ==> IsHex(s[i]) }

  /** One to four hexadecimal digits, in either case, with or without leading zeros. */
  predicate GroupText(s: string) { 1 <= |s| <= 4 && HexText(s) }

  function ParseHex(s: string): nat
    requires HexText(s)
  {
    if s == "" then 0 else 16 * ParseHex(s[..|s| - 1]) + HexVal(s[|s| - 1])
  }

  /** The two bytes of every group, high byte first. */
  function GroupBytes(chunks: seq<string>): (bytes: seq<byte>)
    requires AllGroups(chunks)
    ensures |bytes| == 2 * |chunks|
  {
    if chunks == [] then []
    else
      assert GroupText(chunks[|chunks| - 1]);
      var n := ParseHex(chunks[|chunks| - 1]);
      GroupBytes(chunks[..|chunks| - 1]) + [n / 256 % 256, n % 256]
  }

  predicate AllGroups(chunks: seq<string>) { forall i :: 0 <= i < |chunks| ==> GroupText(chunks[i]) }

  /** The bytes of colon-separated groups; no text is no groups. */
  function Groups(part: string): Option<seq<byte>> {
    if part == "" then Some([])
    else if AllGroups(Split(part, ':')) then Some(GroupBytes(Split(part, ':')))
    else None
  }

  method ToGroups(part: string) returns (groups: Option<seq<byte>>)
    ensures groups == Groups(part)
  {
    if part == "" { return Some([]); }
    var chunks := Split(part, ':');
    var out: seq<byte> := [];
    for i := 0 to |chunks|
      invariant AllGroups(chunks[..i]) && out == GroupBytes(chunks[..i])
    {
      if !GroupText(chunks[i]) { return None; }
      var n := ParseHex(chunks[i]);
      assert chunks[..i + 1][..i] == chunks[..i];
      out := out + [n / 256 % 256, n % 256];
    }
    assert chunks[..|chunks|] == chunks;
    return Some(out);
  }

  // ---- the double colon --------------------------------------------------------------------------------

  /** The first `::`, or the length of the text. */
  function FindGap(s: string): (i: nat)
    ensures i <= |s| && (i < |s| ==> i + 2 <= |s| && s[i] == ':' && s[i + 1] == ':')
  {
    if |s| < 2 then |s| else if s[0] == ':' && s[1] == ':' then 0 else FindGap(s[1..]) + 1
  }

  function Zeroes(n: nat): (bytes: seq<byte>)
    ensures |bytes| == n
  {
    seq(n, _ => 0)
  }

  /** The bytes before and after a gap of zeros that makes 16 of them. */
  function Filled(head: seq<byte>, tail: seq<byte>): seq<byte>
    requires |head| + |tail| <= 16
  {
    head + Zeroes(16 - |head| - |tail|) + tail
  }

  function Ipv6Bytes(address: string): Option<seq<byte>> {
    var i := FindGap(address);
    if i == |address| then
      match Groups(address)
      case Some(head) => if |head| == 16 then Some(head) else None
      case None => None
    else
      var rest := address[i + 2..];
      if FindGap(rest) < |rest| then None
      else
        match (Groups(address[..i]), Groups(rest))
        case (Some(head), Some(tail)) =>
          if |head| + |tail| <= 16 then Some(Filled(head, tail)) else None
        case _ => None
  }

  /** The dotted quad of `::a.b.c.d` or `::ffff:a.b.c.d`, if the text has that shape. */
  function MappedQuad(address: string): Option<string> {
    if |address| < 2 || address[..2] != "::" then None
    else
      var rest := address[2..];
      if |rest| >= 5 && (forall i :: 0 <= i < 4 ==> rest[i] in "fF") && rest[4] == ':' && QuadShape(rest[5..]) then
        Some(rest[5..])
      else if QuadShape(rest) then Some(rest)
      else None
  }

  predicate QuadShape(s: string) {
    var parts := Split(s, '.');
    |parts| == 4 && forall i :: 0 <= i < 4 ==> ShortNumeral(parts[i])
  }

  method ParseIpv6(address: string) returns (bytes: Option<seq<byte>>)
    ensures bytes == Ipv6Bytes(address)
  {
    hide Groups;
    hide FindGap;
    hide Filled;
    var i := FindGap(address);
    if i == |address| {
      assert address[..i] == address;
      var all := ToGroups(address[..i]);
      if all.None? || |all.value| != 16 { return None; }
      return all;
    }
    var rest := address[i + 2..];
    if FindGap(rest) < |rest| { return None; }
    var head := ToGroups(address[..i]);
    var tail := ToGroups(rest);
    if head.None? || tail.None? { return None; }
    if |head.value| + |tail.value| > 16 { return None; }
    return Some(Filled(head.value, tail.value));
  }

  // ---- any address -----------------------------------------------------------------------------------------

  /** The bytes an address text denotes: 4 for IPv4 and mapped addresses, 16 for IPv6. */
  function IpBytes(text: string): (bytes: Option<seq<byte>>)
    ensures bytes.Some? ==> |bytes.value| in {4, 16}
  {
    var address := Trim(text);
    if address == "" then None
    else if ':' !in address then Ipv4Bytes(address)
    else
      match MappedQuad(address)
      case Some(quad) => Ipv4Bytes(quad)
      case None => Ipv6Bytes(address)
  }

  method ParseIp(text: string) returns (bytes: Option<seq<byte>>)
    ensures bytes == IpBytes(text)
  {
    hide Ipv4Bytes;
    hide Ipv6Bytes;
    hide MappedQuad;
    hide Trim;
    var address := Trim(text);
    if address == "" { return None; }
    if ':' !in address {
      bytes := ParseIpv4(address);
      return;
    }
    var mapped := MappedQuad(address);
    if mapped.Some? {
      bytes := ParseIpv4(mapped.value);
      return;
    }
    bytes := ParseIpv6(address);
  }

  /** Reading is undone by joining: the parts make up the text again. */
  lemma {:induction false} JoinSplit(s: string, c: char)
    ensures Join(Split(s, c), c) == s
  {
    if s != "" {
      JoinSplit(s[1..], c);
      SplitFirst(s, c);
    }
  }

  lemma SplitFirst(s: string, c: char)
    requires s != "" && Join(Split(s[1..], c), c) == s[1..]
    ensures Join(Split(s, c), c) == s
  {
  }

  /**
   A text reads as an IPv4 address exactly when it is four numerals of one to three digits, joined by dots, of
   its bytes.
   */
  lemma Ipv4ReadIff(text: string, bytes: seq<byte>)
    ensures Ipv4Bytes(text) == Some(bytes)
       <==> exists parts :: Quad(text, parts, bytes)
  {
    if Ipv4Bytes(text) == Some(bytes) {
      JoinSplit(text, '.');
      assert Quad(text, Split(text, '.'), bytes);
    }
    if parts :| Quad(text, parts, bytes) { QuadReads(text, parts, bytes); }
  }

  lemma QuadReads(text: string, parts: seq<string>, bytes: seq<byte>)
    requires Quad(text, parts, bytes)
    ensures Ipv4Bytes(text) == Some(bytes)
  {
    forall i | 0 <= i < 4 ensures '.' !in parts[i] { DigitsAreTrimmed(parts[i]); }
    SplitJoin(parts, '.');
    hide Split;
    hide Join;
    assert AllOctets(parts);
    assert [Octet(parts[0]), Octet(parts[1]), Octet(parts[2]), Octet(parts[3])] == bytes;
  }

  /** The parts make up the text, and denote the bytes. */
  predicate Quad(text: string, parts: seq<string>, bytes: seq<byte>) {
    && |parts| == 4 && |bytes| == 4 && text == Join(parts, '.')
    && forall i :: 0 <= i < 4 ==> 1 <= |parts[i]| <= 3 && AllDigits(parts[i]) && ParseNat(parts[i]) == bytes[i]
  }

  // ---- written addresses read back ---------------------------------------------------------------

  lemma {:induction false} TrimmedJoin(parts: seq<string>, c: char)
    requires parts != [] && forall i :: 0 <= i < |parts| ==> Trimmed(parts[i])
    ensures Trimmed(Join(parts, c))
    ensures parts[0] != "" && Join(parts, c)[0] == parts[0][0]
  {
    if |parts| > 1 { TrimmedJoin(parts[1..], c); }
  }

  lemma {:induction false} JoinHas(parts: seq<string>, c: char, d: char)
    requires d != c && forall i :: 0 <= i < |parts| ==> d !in parts[i]
    ensures d !in Join(parts, c)
  {
    if |parts| > 1 { JoinHas(parts[1..], c, d); }
  }

  lemma DigitsAreTrimmed(s: string)
    requires ShortNumeral(s)
    ensures Trimmed(s) && ':' !in s && '.' !in s
  {
    assert IsDigit(s[0]) && IsDigit(s[|s| - 1]);
  }

  lemma GroupIsTrimmed(s: string)
    requires GroupText(s)
    ensures Trimmed(s) && ':' !in s && '.' !in s
  {
    assert IsHex(s[0]) && IsHex(s[|s| - 1]);
  }

  /** A dotted quad, each octet written with up to three digits, reads back as its four bytes. */
  lemma DottedQuadParses(parts: seq<string>)
    requires |parts| == 4 && AllOctets(parts)
    ensures IpBytes(Join(parts, '.')) == Some([Octet(parts[0]), Octet(parts[1]), Octet(parts[2]), Octet(parts[3])])
  {
    hide Join;
    hide Trim;
    hide Split;
    forall i | 0 <= i < 4 ensures Trimmed(parts[i]) && ':' !in parts[i] && '.' !in parts[i] {
      DigitsAreTrimmed(parts[i]);
    }
    TrimmedJoin(parts, '.');
    TrimKeeps(Join(parts, '.'));
    JoinHas(parts, '.', ':');
    SplitJoin(parts, '.');
  }

  /** Two texts around the double colon. */
  function Abbreviated(h: string, t: string): string { h + "::" + t }

  /** No two colons stand next to each other. */
  predicate Tight(s: string) { forall i :: 0 <= i < |s| - 1 ==> !(s[i] == ':' && s[i + 1] == ':') }

  lemma TightHasNoGap(s: string)
    requires Tight(s)
    ensures FindGap(s) == |s|
  {
  }

  lemma {:induction false} GapAfter(a: string, b: string)
    requires Tight(a) && (a == "" || a[|a| - 1] != ':')
    ensures FindGap(Abbreviated(a, b)) == |a|
  {
    if a == "" {
      assert Abbreviated(a, b)[0] == ':' && Abbreviated(a, b)[1] == ':';
    } else {
      AbbreviatedTail(a, b);
      hide Abbreviated;
      NotYetAGap(Abbreviated(a, b));
      GapAfter(a[1..], b);
    }
  }

  lemma AbbreviatedTail(a: string, b: string)
    requires a != "" && Tight(a) && a[|a| - 1] != ':'
    ensures |Abbreviated(a, b)| >= 2 && Abbreviated(a, b)[1..] == Abbreviated(a[1..], b)
    ensures !(Abbreviated(a, b)[0] == ':' && Abbreviated(a, b)[1] == ':')
    ensures Tight(a[1..])
  {
    assert Abbreviated(a, b)[0] == a[0] && Abbreviated(a, b)[1] == (if |a| > 1 then a[1] else ':');
    assert forall i :: 0 <= i < |a[1..]| ==> a[1..][i] == a[i + 1];
  }

  lemma NotYetAGap(s: string)
    requires |s| >= 2 && !(s[0] == ':' && s[1] == ':')
    ensures FindGap(s) == FindGap(s[1..]) + 1
  {
  }

  lemma {:induction false} JoinIsTight(chunks: seq<string>)
    requires AllGroups(chunks)
    ensures Tight(Join(chunks, ':'))
  {
    if |chunks| == 1 {
      GroupIsTrimmed(chunks[0]);
    } else if |chunks| > 1 {
      JoinIsTight(chunks[1..]);
      GroupIsTrimmed(chunks[0]);
      forall i | 0 <= i < |chunks[1..]| ensures Trimmed(chunks[1..][i]) { GroupIsTrimmed(chunks[1..][i]); }
      TrimmedJoin(chunks[1..], ':');
      GroupIsTrimmed(chunks[1]);
      TightAround(chunks[0], Join(chunks[1..], ':'));
    }
  }

  lemma TightAround(a: string, b: string)
    requires ':' !in a && Tight(b) && b != "" && b[0] != ':' && a != ""
    ensures Tight(a + ":" + b)
  {
    var s := a + ":" + b;
    forall i | 0 <= i < |s| - 1 ensures !(s[i] == ':' && s[i + 1] == ':') {
      if i < |a| {
        assert s[i] == a[i];
      } else if i > |a| {
        assert s[i] == b[i - |a| - 1] && s[i + 1] == b[i - |a|];
      }
    }
  }

  lemma GroupsOfJoin(chunks: seq<string>)
    requires AllGroups(chunks)
    ensures Groups(Join(chunks, ':')) == Some(GroupBytes(chunks))
    ensures '.' !in Join(chunks, ':')
    ensures chunks != [] ==> Trimmed(Join(chunks, ':')) && Join(chunks, ':')[|Join(chunks, ':')| - 1] != ':'
  {
    if chunks != [] {
      hide Split;
      forall i | 0 <= i < |chunks| ensures Trimmed(chunks[i]) && ':' !in chunks[i] && '.' !in chunks[i] {
        GroupIsTrimmed(chunks[i]);
      }
      SplitJoin(chunks, ':');
      TrimmedJoin(chunks, ':');
      JoinHas(chunks, ':', '.');
      JoinEnds(chunks);
    }
  }

  lemma {:induction false} JoinEnds(chunks: seq<string>)
    requires chunks != [] && AllGroups(chunks)
    ensures Join(chunks, ':') != "" && Join(chunks, ':')[|Join(chunks, ':')| - 1] != ':'
  {
    if |chunks| == 1 { GroupIsTrimmed(chunks[0]); } else { JoinEnds(chunks[1..]); }
  }

  lemma NoDotsNoQuad(s: string)
    requires '.' !in s
    ensures MappedQuad(s).None?
  {
    if |s| >= 2 {
      FindNone(s[2..], '.');
      if |s| >= 7 { FindNone(s[2..][5..], '.'); }
    }
  }

  /** Eight groups without an abbreviation. */
  lemma FullFormParses(chunks: seq<string>)
    requires |chunks| == 8 && AllGroups(chunks)
    ensures IpBytes(Join(chunks, ':')) == Some(GroupBytes(chunks))
  {
    hide Trim;
    hide Groups;
    hide MappedQuad;
    hide Split;
    hide GroupBytes;
    var text := Join(chunks, ':');
    GroupsOfJoin(chunks);
    JoinHasColon(chunks);
    JoinIsTight(chunks);
    hide Join;
    TrimKeeps(text);
    NoDotsNoQuad(text);
    TightHasNoGap(text);
  }

  lemma JoinHasColon(chunks: seq<string>)
    requires |chunks| > 1
    ensures ':' in Join(chunks, ':')
  {
    assert Join(chunks, ':')[|chunks[0]|] == ':';
  }

  /** Groups before and after `::`, the gap filled with zeros. */
  lemma AbbreviatedFormParses(head: seq<string>, tail: seq<string>)
    requires AllGroups(head) && AllGroups(tail) && |head| + |tail| <= 8
    ensures IpBytes(Abbreviated(Join(head, ':'), Join(tail, ':'))) == Some(Filled(GroupBytes(head), GroupBytes(tail)))
  {
    var h, t := Join(head, ':'), Join(tail, ':');
    assert (head == [] ==> h == "") && (tail == [] ==> t == "");
    hide *;
    GroupsOfJoin(head);
    GroupsOfJoin(tail);
    JoinIsTight(head);
    JoinIsTight(tail);
    AbbreviatedText(h, t);
    NoDotsNoQuad(Abbreviated(h, t));
    TightHasNoGap(t);
    GapAfter(h, t);
    IpIsIpv6(Abbreviated(h, t));
    Ipv6OfHalves(h, t, GroupBytes(head), GroupBytes(tail));
  }

  lemma Ipv6OfHalves(h: string, t: string, head: seq<byte>, tail: seq<byte>)
    requires FindGap(Abbreviated(h, t)) == |h| && FindGap(t) == |t|
    requires Groups(h) == Some(head) && Groups(t) == Some(tail) && |head| + |tail| <= 16
    ensures Ipv6Bytes(Abbreviated(h, t)) == Some(Filled(head, tail))
  {
    hide Groups;
    hide FindGap;
    hide Filled;
    hide Abbreviated;
    Halves(h, t);
  }

  lemma IpIsIpv6(text: string)
    requires Trim(text) == text && ':' in text && MappedQuad(text).None?
    ensures IpBytes(text) == Ipv6Bytes(text)
  {
  }

  lemma AbbreviatedText(h: string, t: string)
    requires (h == "" || Trimmed(h)) && (t == "" || Trimmed(t)) && '.' !in h && '.' !in t
    ensures Trim(Abbreviated(h, t)) == Abbreviated(h, t) && ':' in Abbreviated(h, t) && '.' !in Abbreviated(h, t)
  {
    assert (h + "::" + t)[|h|] == ':';
    TrimKeeps(Abbreviated(h, t));
  }

  lemma Halves(h: string, t: string)
    ensures |Abbreviated(h, t)| == |h| + 2 + |t|
    ensures Abbreviated(h, t)[..|h|] == h && Abbreviated(h, t)[|h| + 2..] == t
  {
  }

  /** Every way of writing the eight groups of an address, in full or with a run of zero groups as `::`. */
  ghost predicate Writes(text: string, address: seq<byte>) {
    || (exists chunks ::
          |chunks| == 8 && AllGroups(chunks) && GroupBytes(chunks) == address && text == Join(chunks, ':'))
    || (exists head, tail ::
          && AllGroups(head) && AllGroups(tail) && |head| + |tail| <= 8
          && Filled(GroupBytes(head), GroupBytes(tail)) == address
          && text == Abbreviated(Join(head, ':'), Join(tail, ':')))
  }

  /** Every written form of a 16-byte address reads back as that address. */
  lemma WrittenFormsParse(text: string, address: seq<byte>)
    requires Writes(text, address)
    ensures IpBytes(text) == Some(address)
  {
    hide IpBytes;
    hide Join;
    hide GroupBytes;
    if chunks :| |chunks| == 8 && AllGroups(chunks) && GroupBytes(chunks) == address && text == Join(chunks, ':') {
      FullFormParses(chunks);
    } else {
      var head, tail :|
          && AllGroups(head) && AllGroups(tail) && |head| + |tail| <= 8
          && Filled(GroupBytes(head), GroupBytes(tail)) == address
          && text == Abbreviated(Join(head, ':'), Join(tail, ':'));
      AbbreviatedFormParses(head, tail);
    }
  }

  // ---- every address can be written --------------------------------------------------------------

  function HexChar(d: nat): (c: char)
    requires d < 16
    ensures IsHex(c) && HexVal(c) == d
  {
    if d < 10 then (d + '0' as int) as char else (d - 10 + 'a' as int) as char
  }

  /** A group of two bytes as four hexadecimal digits. */
  function GroupOf(high: byte, low: byte): (s: string)
    ensures GroupText(s) && ParseHex(s) == 256 * high + low
  {
    var s := [HexChar(high / 16), HexChar(high % 16), HexChar(low / 16), HexChar(low % 16)];
    assert s[..3][..2][..1] == [HexChar(high / 16)];
    assert s[..3][..2] == [HexChar(high / 16), HexChar(high % 16)];
    assert s[..3] == [HexChar(high / 16), HexChar(high % 16), HexChar(low / 16)];
    HexDigits(s);
    s
  }

  lemma HexDigits(s: string)
    requires |s| == 4 && HexText(s)
    ensures ParseHex(s) == 4096 * HexVal(s[0]) + 256 * HexVal(s[1]) + 16 * HexVal(s[2]) + HexVal(s[3])
  {
    assert ParseHex(s[..1]) == HexVal(s[0]);
    assert s[..2][..1] == s[..1] && ParseHex(s[..2]) == 16 * HexVal(s[0]) + HexVal(s[1]);
    assert s[..3][..2] == s[..2] && ParseHex(s[..3]) == 256 * HexVal(s[0]) + 16 * HexVal(s[1]) + HexVal(s[2]);
  }

  /** The groups of an address, written in full. */
  function GroupsOf(address: seq<byte>): (chunks: seq<string>)
    requires |address| % 2 == 0
    ensures |chunks| == |address| / 2 && AllGroups(chunks)
  {
    if address == [] then []
    else GroupsOf(address[..|address| - 2]) + [GroupOf(address[|address| - 2], address[|address| - 1])]
  }

  lemma {:induction false} GroupsRoundTrip(address: seq<byte>)
    requires |address| % 2 == 0
    ensures GroupBytes(GroupsOf(address)) == address
  {
    if address != [] {
      var init := address[..|address| - 2];
      var high, low := address[|address| - 2], address[|address| - 1];
      assert address == init + [high, low];
      assert |init| % 2 == 0;
      GroupsRoundTrip(init);
      LastGroup(init, high, low);
    }
  }

  lemma LastGroup(init: seq<byte>, high: byte, low: byte)
    requires |init| % 2 == 0 && GroupBytes(GroupsOf(init)) == init
    ensures GroupBytes(GroupsOf(init + [high, low])) == init + [high, low]
  {
    GroupsOfSnoc(init, high, low);
    hide *;
    GroupBytesSnoc(GroupsOf(init), GroupOf(high, low));
    HighLow(high, low, ParseHex(GroupOf(high, low)));
  }

  lemma HighLow(high: byte, low: byte, n: nat)
    requires n == 256 * high + low
    ensures [n / 256 % 256, n % 256] == [high, low]
  {
    assert n / 256 == high;
  }

  lemma GroupsOfSnoc(init: seq<byte>, high: byte, low: byte)
    requires |init| % 2 == 0
    ensures GroupsOf(init + [high, low]) == GroupsOf(init) + [GroupOf(high, low)]
  {
    hide GroupOf;
    hide GroupText;
    assert (init + [high, low])[..|init|] == init;
  }

  lemma GroupBytesSnoc(chunks: seq<string>, group: string)
    requires AllGroups(chunks) && GroupText(group)
    ensures AllGroups(chunks + [group])
    ensures GroupBytes(chunks + [group]) == GroupBytes(chunks) + [ParseHex(group) / 256 % 256, ParseHex(group) % 256]
  {
    assert (chunks + [group])[..|chunks|] == chunks;
  }

  /** Every 16-byte address prints as eight groups and reads back. */
  lemma Ipv6RoundTrip(address: seq<byte>)
    requires |address| == 16
    ensures IpBytes(Join(GroupsOf(address), ':')) == Some(address)
  {
    GroupsRoundTrip(address);
    FullFormParses(GroupsOf(address));
  }

  /** So does its printing with any run of zero groups, from group `i` up to `j`, written as `::`. */
  lemma Ipv6AbbreviatedRoundTrip(address: seq<byte>, i: nat, j: nat)
    requires |address| == 16 && i <= j <= 8
    requires forall k :: 2 * i <= k < 2 * j ==> address[k] == 0
    ensures IpBytes(Abbreviated(Join(GroupsOf(address[..2 * i]), ':'), Join(GroupsOf(address[2 * j..]), ':')))
         == Some(address)
  {
    hide *;
    GroupsRoundTrip(address[..2 * i]);
    GroupsRoundTrip(address[2 * j..]);
    AbbreviatedFormParses(GroupsOf(address[..2 * i]), GroupsOf(address[2 * j..]));
    FilledBack(address, 2 * i, 2 * j);
  }

  lemma FilledBack(address: seq<byte>, i: nat, j: nat)
    requires |address| == 16 && i <= j <= 16
    requires forall k :: i <= k < j ==> address[k] == 0
    ensures Filled(address[..i], address[j..]) == address
  {
  }

  /**
   Contrary to what the parser's comment announces, a leading zero does not make an octet ambiguous: it is read
   as decimal.
   */
  lemma LeadingZeroAccepted(octet: string)
    requires OctetText(octet) && |octet| < 3
    ensures OctetText("0" + octet) && Octet("0" + octet) == Octet(octet)
  {
    ZeroInFront(octet);
  }

  /** The IPv4-mapped form reads as the four bytes of the quad behind it. */
  lemma MappedFormParses(prefix: string, parts: seq<string>)
    requires prefix in {"::", "::ffff:", "::FFFF:"}
    requires |parts| == 4 && AllOctets(parts)
    ensures IpBytes(prefix + Join(parts, '.')) == IpBytes(Join(parts, '.'))
  {
    hide Trim;
    hide Split;
    var quad := Join(parts, '.');
    forall i | 0 <= i < 4 ensures Trimmed(parts[i]) && ':' !in parts[i] && '.' !in parts[i] {
      DigitsAreTrimmed(parts[i]);
    }
    TrimmedJoin(parts, '.');
    JoinHas(parts, '.', ':');
    SplitJoin(parts, '.');
    QuadText(parts);
    hide Join;
    TrimKeeps(quad);
    TrimKeeps(prefix + quad);
    MappedText(prefix, quad);
  }

  lemma QuadText(parts: seq<string>)
    requires |parts| == 4 && AllOctets(parts)
    ensures Join(parts, '.') != "" && IsDigit(Join(parts, '.')[0])
  {
    forall i | 0 <= i < 4 ensures Trimmed(parts[i]) { DigitsAreTrimmed(parts[i]); }
    TrimmedJoin(parts, '.');
    assert OctetText(parts[0]);
    assert IsDigit(parts[0][0]);
  }

  lemma MappedText(prefix: string, quad: string)
    requires prefix in {"::", "::ffff:", "::FFFF:"} && QuadShape(quad) && quad != "" && IsDigit(quad[0])
    ensures MappedQuad(prefix + quad) == Some(quad) && ':' in prefix + quad
  {
    hide QuadShape;
    var s := prefix + quad;
    assert s[0] == ':' && s[..2] == "::";
    if prefix == "::" {
      assert s[2..] == quad;
    } else {
      assert s[2..][..5] == prefix[2..7] && s[2..][5..] == quad;
      assert s[2..][4] == ':';
      assert forall i :: 0 <= i < 4 ==> s[2..][i] == prefix[i + 2];
    }
  }
}
