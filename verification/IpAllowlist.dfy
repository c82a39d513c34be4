/** The sign-in allowlist: entries, lists of entries, and the check made when an entry is saved. */
module IpAllowlist {
  import opened Bits
  import opened IpAddress
  import opened IpPrefix
  import opened Options
  import opened Text

  /** The part of an entry before the first slash. */
  function NetworkText(entry: string): string { Split(entry, '/')[0] }

  /** How many bits an entry names: all of the address, or the number behind the slash. */
  function EntryBits(entry: string, maxBits: nat): Option<nat> {
    var parts := Split(entry, '/');
    if |parts| == 1 then Some(maxBits)
    else if ShortNumeral(parts[1]) && ParseNat(parts[1]) <= maxBits then Some(ParseNat(parts[1]))
    else None
  }

  /** The addresses one entry stands for; a malformed entry stands for none. */
  function EntryRange(entry: string): Option<Range> {
    match IpBytes(NetworkText(Trim(entry)))
    case None => None
    case Some(network) =>
      match EntryBits(Trim(entry), 8 * |network|)
      case None => None
      case Some(bits) => if bits <= 8 * |network| then Some(RangeOf(network, bits)) else None
  }

  predicate Admits(entry: string, address: seq<byte>) {
    EntryRange(entry).Some? && InRange(address, EntryRange(entry).value)
  }

  /** An entry matches exactly the addresses of its range, whichever way the address is written. */
  method MatchesEntry(ip: string, entry: string) returns (matches: bool)
    ensures matches <==> IpBytes(ip).Some? && Admits(entry, IpBytes(ip).value)
  {
    hide Prefix;
    hide IpBytes;
    hide Trim;
    hide Split;
    var address := ParseIp(ip);
    if address.None? { return false; }
    var parts := Split(Trim(entry), '/');
    var network := ParseIp(parts[0]);
    if network.None? { return false; }
    if |network.value| != |address.value| { return false; }
    var maxBits := |network.value| * 8;
    var bits := maxBits;
    if |parts| > 1 {
      if !ShortNumeral(parts[1]) { return false; }
      bits := ParseNat(parts[1]);
      if bits > maxBits { return false; }
    }
    PrefixIsInterval(address.value, network.value, bits);
    matches := PrefixMatches(address.value, network.value, bits);
  }

  predicate IsBlank(entry: string) { Trim(entry) == "" }

  /** The entries with the spaces around them removed, blank ones left out. */
  function Entries(allowlist: seq<string>): seq<string> {
    if allowlist == [] then []
    else
      var last := Trim(allowlist[|allowlist| - 1]);
      Entries(allowlist[..|allowlist| - 1]) + (if last == "" then [] else [last])
  }

  ghost predicate AnyAdmits(entries: seq<string>, address: seq<byte>) {
    exists i :: 0 <= i < |entries| && Admits(entries[i], address)
  }

  ghost predicate AllBlank(allowlist: seq<string>) { forall i :: 0 <= i < |allowlist| ==> IsBlank(allowlist[i]) }

  /** A list of only blank entries allows everyone; any other list is the union of its ranges. */
  method IsIpAllowed(ip: Option<string>, allowlist: seq<string>) returns (allowed: bool)
    ensures allowed <==>
      || AllBlank(allowlist)
      || (ip.Some? && IpBytes(ip.value).Some? && AnyAdmits(allowlist, IpBytes(ip.value).value))
  {
    hide *;
    var entries := Entries(allowlist);
    EntriesBlank(allowlist);
    if |entries| == 0 { return true; }
    if ip.None? { return false; }
    if ip.value == "" {
      EmptyAddress();
      return false;
    }
    allowed := SomeEntryMatches(ip.value, entries);
    if IpBytes(ip.value).Some? { EntriesAdmit(allowlist, IpBytes(ip.value).value); }
  }

  method SomeEntryMatches(ip: string, entries: seq<string>) returns (some: bool)
    ensures some <==> IpBytes(ip).Some? && AnyAdmits(entries, IpBytes(ip).value)
  {
    hide Admits;
    hide IpBytes;
    for k := 0 to |entries|
      invariant forall n :: 0 <= n < k ==> !(IpBytes(ip).Some? && Admits(entries[n], IpBytes(ip).value))
    {
      var matches := MatchesEntry(ip, entries[k]);
      if matches { return true; }
    }
    return false;
  }

  lemma EmptyAddress()
    ensures IpBytes("").None?
  {
  }

  lemma {:induction false} EntriesBlank(allowlist: seq<string>)
    ensures |Entries(allowlist)| == 0 <==> AllBlank(allowlist)
  {
    if allowlist != [] {
      hide Trim;
      var init := allowlist[..|allowlist| - 1];
      EntriesBlank(init);
      assert AllBlank(allowlist) <==> AllBlank(init) && IsBlank(allowlist[|allowlist| - 1]);
    }
  }

  lemma {:induction false} EntriesAdmit(allowlist: seq<string>, address: seq<byte>)
    ensures AnyAdmits(Entries(allowlist), address) <==> AnyAdmits(allowlist, address)
  {
    if allowlist != [] {
      var init, last := allowlist[..|allowlist| - 1], allowlist[|allowlist| - 1];
      EntriesAdmit(init, address);
      EntryAdded(init, last, address);
      assert allowlist == init + [last];
    }
  }

  lemma EntryAdded(init: seq<string>, last: string, address: seq<byte>)
    requires AnyAdmits(Entries(init), address) <==> AnyAdmits(init, address)
    ensures AnyAdmits(Entries(init + [last]), address) <==> AnyAdmits(init + [last], address)
  {
    hide *;
    EntriesLast(init, last);
    AnyAdmitsLast(init, last, address);
    if Trim(last) == "" {
      BlankAdmits(last, address);
    } else {
      AnyAdmitsLast(Entries(init), Trim(last), address);
      TrimmedEntry(last, address);
    }
  }

  lemma EntriesLast(init: seq<string>, last: string)
    ensures Trim(last) == "" ==> Entries(init + [last]) == Entries(init)
    ensures Trim(last) != "" ==> Entries(init + [last]) == Entries(init) + [Trim(last)]
  {
    hide Trim;
    assert (init + [last])[..|init|] == init;
  }

  lemma AnyAdmitsLast(init: seq<string>, last: string, address: seq<byte>)
    ensures AnyAdmits(init + [last], address) <==> AnyAdmits(init, address) || Admits(last, address)
  {
    hide Admits;
    if Admits(last, address) {
      assert Admits((init + [last])[|init|], address);
    } else if i :| 0 <= i < |init| && Admits(init[i], address) {
      assert Admits((init + [last])[i], address);
    }
  }

  lemma BlankAdmits(entry: string, address: seq<byte>)
    requires Trim(entry) == ""
    ensures !Admits(entry, address)
  {
    assert Split("", '/') == [""];
    EmptyAddress();
  }

  lemma TrimmedEntry(entry: string, address: seq<byte>)
    ensures Admits(Trim(entry), address) <==> Admits(entry, address)
  {
    TrimTwice(entry);
  }

  // ---- the check on saving ---------------------------------------------------------------------------

  /** Whether an entry may be saved: its own network address must match it. */
  method SaveCheck(value: string) returns (accepted: bool)
    ensures accepted <==> exists address :: Admits(value, address)
  {
    hide *;
    if |value| < 1 {
      EmptyTrim();
      forall address ensures !Admits(value, address) { BlankAdmits(value, address); }
      return false;
    }
    SavedIffAdmitting(value);
    accepted := MatchesEntry(NetworkText(value), value);
  }

  lemma EmptyTrim()
    ensures Trim("") == ""
  {
  }

  /** An entry that admits any address admits its own network address, and only entries of that kind can be saved. */
  lemma SavedIffAdmitting(value: string)
    ensures (IpBytes(NetworkText(value)).Some? && Admits(value, IpBytes(NetworkText(value)).value))
       <==> exists address :: Admits(value, address)
  {
    hide IpBytes;
    NetworkTextTrimmed(value);
    if EntryRange(value).Some? {
      hide NetworkText;
      hide Trim;
      hide EntryBits;
      hide Prefix;
      var network := IpBytes(NetworkText(Trim(value))).value;
      var bits := EntryBits(Trim(value), 8 * |network|).value;
      PrefixIsInterval(network, network, bits);
    }
  }

  /** Spaces around the entry do not reach its network address. */
  lemma NetworkTextTrimmed(value: string)
    ensures IpBytes(NetworkText(value)) == IpBytes(NetworkText(Trim(value)))
  {
    hide Split;
    FirstPart(value);
    FirstPart(Trim(value));
    TrimFirstPart(value, Find(value, '/'));
    SameTrim(value[..Find(value, '/')], Trim(value)[..Find(Trim(value), '/')]);
  }

  lemma SameTrim(s: string, t: string)
    requires Trim(s) == Trim(t)
    ensures IpBytes(s) == IpBytes(t)
  {
  }

  lemma FirstPart(s: string)
    ensures NetworkText(s) == s[..Find(s, '/')]
  {
  }

  lemma TrimFirstPart(value: string, i: nat)
    requires i == Find(value, '/')
    ensures Trim(value[..i]) == Trim(Trim(value)[..Find(Trim(value), '/')])
  {
    var s := TrimStart(value);
    var t := TrimEnd(s);
    StartOfFirstPart(value);
    EndOfFirstPart(s);
    TrimStartOnce(value);
    TrimEndOnce(s);
    StartsClean(s, Find(s, '/'));
    StartsClean(s, Find(t, '/'));
    assert t[..Find(t, '/')] == s[..Find(t, '/')];
  }

  lemma StartsClean(s: string, i: nat)
    requires i <= |s| && (s == "" || !Blank(s[0]))
    ensures TrimStart(s[..i]) == s[..i]
  {
  }

  lemma {:induction false} StartOfFirstPart(s: string)
    ensures TrimStart(s[..Find(s, '/')]) == TrimStart(TrimStart(s)[..Find(TrimStart(s), '/')])
  {
    if s != "" && Blank(s[0]) {
      StartOfFirstPart(s[1..]);
      var i := Find(s, '/');
      assert s[..i][1..] == s[1..][..i - 1];
    }
  }

  lemma {:induction false} EndOfFirstPart(s: string)
    ensures TrimEnd(s[..Find(s, '/')]) == TrimEnd(TrimEnd(s)[..Find(TrimEnd(s), '/')])
  {
    if s != "" && Blank(s[|s| - 1]) {
      var init := s[..|s| - 1];
      EndOfFirstPart(init);
      FindInit(s, '/');
      assert Find(s, '/') < |s| ==> s[..Find(s, '/')] == init[..Find(s, '/')];
      assert Find(s, '/') == |s| ==> s[..Find(s, '/')] == s && init[..Find(init, '/')] == init;
    }
  }

  lemma {:induction false} FindInit(s: string, c: char)
    requires s != "" && s[|s| - 1] != c
    ensures Find(s[..|s| - 1], c) == if Find(s, c) == |s| then |s| - 1 else Find(s, c)
  {
    if |s| > 1 && s[0] != c {
      FindInit(s[1..], c);
      assert s[..|s| - 1][1..] == s[1..][..|s| - 2];
    }
  }
}
