/** E-mail templates: HTML escaping, entity decoding, and interpolation. */
module Templates {
  import opened Lists
  import opened Options
  import opened Text

  // ---- escaping ------------------------------------------------------------------------------------

  function EscapeChar(c: char): string {
    match c
    case '&' => "&amp;"
    case '<' => "&lt;"
    case '>' => "&gt;"
    case '"' => "&quot;"
    case '\'' => "&#39;"
    case _ => [c]
  }

  function EscapeHtml(s: string): string { if s == "" then "" else EscapeChar(s[0]) + EscapeHtml(s[1..]) }

  // ---- decoding ------------------------------------------------------------------------------------

  predicate IsAlpha(c: char) { 'a' <= c <= 'z' || 'A' <= c <= 'Z' }

  function AlphaRun(s: string): (n: nat)
    ensures n <= |s|
  {
    if s != "" && IsAlpha(s[0]) then AlphaRun(s[1..]) + 1 else 0
  }

  function DigitRun(s: string): (n: nat)
    ensures n <= |s|
  {
    if s != "" && IsDigit(s[0]) then DigitRun(s[1..]) + 1 else 0
  }

  /**
   The length of the entity at the front of a text that starts with `&`: letters or `#` digits up to a
   semicolon, or none.
   */
  function EntityLength(s: string): (n: nat)
    requires s != "" && s[0] == '&'
    ensures n <= |s|
  {
    var letters := AlphaRun(s[1..]);
    if letters > 0 && letters + 1 < |s| && s[letters + 1] == ';' then letters + 2
    else if |s| > 1 && s[1] == '#' then
      var digits := DigitRun(s[2..]);
      if digits > 0 && digits + 2 < |s| && s[digits + 2] == ';' then digits + 3 else 0
    else 0
  }

  /** The character an entity stands for; unknown ones are kept as written. */
  function Entity(e: string): string {
    match e
    case "&rsquo;" => "\U{2019}"
    case "&lsquo;" => "\U{2018}"
    case "&rdquo;" => "\U{201d}"
    case "&ldquo;" => "\U{201c}"
    case "&mdash;" => "\U{2014}"
    case "&ndash;" => "\U{2013}"
    case "&hellip;" => "\U{2026}"
    case "&nbsp;" => " "
    case "&middot;" => "\U{b7}"
    case "&quot;" => "\""
    case "&#39;" => "'"
    case "&apos;" => "'"
    case "&lt;" => "<"
    case "&gt;" => ">"
    case "&amp;" => "&"
    case _ => e
  }

  function DecodeEntities(s: string): string
    decreases |s|
  {
    if s == "" then ""
    else if s[0] == '&' && EntityLength(s) > 0 then Entity(s[..EntityLength(s)]) + DecodeEntities(s[EntityLength(s)..])
    else [s[0]] + DecodeEntities(s[1..])
  }

  lemma {:induction false} AlphaRunOf(letters: string, rest: string)
    requires (forall i :: 0 <= i < |letters| ==> IsAlpha(letters[i])) && (rest == "" || !IsAlpha(rest[0]))
    ensures AlphaRun(letters + rest) == |letters|
  {
    if letters == "" {
      assert letters + rest == rest;
    } else {
      AlphaRunOf(letters[1..], rest);
      assert (letters + rest)[1..] == letters[1..] + rest;
    }
  }

  /** A named entity at the front is decoded, whatever follows. */
  lemma NamedEntityDecodes(letters: string, rest: string)
    requires letters != "" && forall i :: 0 <= i < |letters| ==> IsAlpha(letters[i])
    ensures DecodeEntities("&" + letters + ";" + rest) == Entity("&" + letters + ";") + DecodeEntities(rest)
  {
    var e, s := "&" + letters + ";", "&" + letters + ";" + rest;
    AlphaRunOf(letters, ";" + rest);
    assert s[1..] == letters + (";" + rest);
    assert s[0] == '&' && s[|letters| + 1] == ';';
    hide Entity;
    assert s[..|letters| + 2] == e && s[|letters| + 2..] == rest;
  }

  lemma ApostropheDigits(rest: string)
    ensures var s := "&#39;" + rest;
            |s| >= 5 && s[0] == '&' && s[1] == '#' && AlphaRun(s[1..]) == 0 && DigitRun(s[2..]) == 2
  {
    var s := "&#39;" + rest;
    assert s[1..][0] == '#';
    assert AlphaRun(s[1..]) == 0;
    assert s[2..] == "39;" + rest && s[2..][1..] == "9;" + rest && s[2..][1..][1..] == ";" + rest;
    assert DigitRun(s[2..][1..][1..]) == 0;
    assert DigitRun(s[2..][1..]) == 1;
  }

  lemma ApostropheDecodes(rest: string)
    ensures DecodeEntities("&#39;" + rest) == "'" + DecodeEntities(rest)
  {
    var s := "&#39;" + rest;
    ApostropheDigits(rest);
    hide AlphaRun;
    hide DigitRun;
    assert s[..5] == "&#39;" && s[5..] == rest && s[4] == ';';
  }

  lemma OtherCharDecodes(c: char, rest: string)
    requires c != '&'
    ensures DecodeEntities([c] + rest) == [c] + DecodeEntities(rest)
  {
    assert ([c] + rest)[1..] == rest;
  }

  /** An escaped character at the front decodes to the character, whatever follows. */
  lemma EscapedCharDecodes(c: char, rest: string)
    ensures DecodeEntities(EscapeChar(c) + rest) == [c] + DecodeEntities(rest)
  {
    hide DecodeEntities;
    match c
    case '&' =>
      NamedEntityDecodes("amp", rest);
      assert "&" + "amp" + ";" == "&amp;";
    case '<' =>
      NamedEntityDecodes("lt", rest);
      assert "&" + "lt" + ";" == "&lt;";
    case '>' =>
      NamedEntityDecodes("gt", rest);
      assert "&" + "gt" + ";" == "&gt;";
    case '"' =>
      NamedEntityDecodes("quot", rest);
      assert "&" + "quot" + ";" == "&quot;";
    case '\'' => ApostropheDecodes(rest);
    case _ => OtherCharDecodes(c, rest);
  }

  lemma {:induction false} EscapedTextDecodes(s: string, rest: string)
    ensures DecodeEntities(EscapeHtml(s) + rest) == s + DecodeEntities(rest)
  {
    if s == "" {
      assert EscapeHtml(s) + rest == rest;
      assert s + DecodeEntities(rest) == DecodeEntities(rest);
    } else {
      assert EscapeHtml(s) == EscapeChar(s[0]) + EscapeHtml(s[1..]);
      hide *;
      EscapedTextDecodes(s[1..], rest);
      EscapedCharDecodes(s[0], EscapeHtml(s[1..]) + rest);
      AppendAssociative(EscapeChar(s[0]), EscapeHtml(s[1..]), rest);
      AppendAssociative([s[0]], s[1..], DecodeEntities(rest));
      assert [s[0]] + s[1..] == s;
    }
  }

  /** Decoding undoes escaping, for every text. */
  lemma {:induction false} DecodeUndoesEscape(s: string)
    ensures DecodeEntities(EscapeHtml(s)) == s
  {
    hide EscapeHtml;
    EscapedTextDecodes(s, "");
    assert EscapeHtml(s) + "" == EscapeHtml(s);
    assert DecodeEntities("") == "";
  }

  // ---- placeholders ---------------------------------------------------------------------------------

  /** A template is read as single characters and placeholders, once, from left to right. */
  datatype Piece = Literal(c: char) | Placeholder(key: string)

  predicate IsAlnum(c: char) { IsAlpha(c) || IsDigit(c) }

  function AlnumRun(s: string): (n: nat)
    ensures n <= |s|
    ensures forall i :: 0 <= i < n ==> IsAlnum(s[i])
  {
    if s != "" && IsAlnum(s[0]) then AlnumRun(s[1..]) + 1 else 0
  }

  /** The key of the placeholder at the front: a letter and alphanumerics between double braces. */
  function KeyAt(s: string): (key: Option<string>)
    ensures key.Some? ==> |key.value| > 0 && |key.value| + 4 <= |s| && s[..|key.value| + 4] == "{{" + key.value + "}}"
    ensures key.Some? ==> forall i :: 0 <= i < |key.value| ==> IsAlnum(key.value[i])
  {
    if |s| < 2 || s[0] != '{' || s[1] != '{' then None
    else
      var n := AlnumRun(s[2..]);
      if n == 0 || !IsAlpha(s[2]) || n + 4 > |s| || s[n + 2] != '}' || s[n + 3] != '}' then None
      else
        assert s[..n + 4] == "{{" + s[2..][..n] + "}}";
        Some(s[2..][..n])
  }

  function Pieces(s: string): seq<Piece>
    decreases |s|
  {
    if s == "" then []
    else
      match KeyAt(s)
      case Some(key) => [Placeholder(key)] + Pieces(s[|key| + 4..])
      case None => [Literal(s[0])] + Pieces(s[1..])
  }

  type Values = map<string, string>

  /** What a piece becomes; a placeholder without a value stays as it is. */
  function Render(p: Piece, values: Values, escape: bool): string {
    match p
    case Literal(c) => [c]
    case Placeholder(key) =>
      if key !in values then "{{" + key + "}}" else if escape then EscapeHtml(values[key]) else values[key]
  }

  function RenderAll(ps: seq<Piece>, values: Values, escape: bool): string {
    if ps == [] then "" else Render(ps[0], values, escape) + RenderAll(ps[1..], values, escape)
  }

  /** The template with every piece rendered by itself: nothing that was inserted is read again. */
  function Interpolated(source: string, values: Values, escape: bool): string {
    RenderAll(Pieces(source), values, escape)
  }

  /** The keys of a template without a value. */
  predicate IsMissing(source: string, values: Values, key: string) {
    Placeholder(key) in Pieces(source) && key !in values
  }

  method Interpolate(source: string, values: Values, escape: bool, alreadyMissing: set<string>)
    returns (out: string, missing: set<string>)
    ensures out == Interpolated(source, values, escape)
    ensures forall key :: key in missing <==> key in alreadyMissing || IsMissing(source, values, key)
  {
    hide Pieces;
    hide Render;
    hide RenderAll;
    hide KeyAt;
    out := "";
    missing := alreadyMissing;
    var i := 0;
    assert source[0..] == source;
    while i < |source|
      invariant i <= |source|
      invariant out + RenderAll(Pieces(source[i..]), values, escape) == Interpolated(source, values, escape)
      invariant forall key ::
                  key in missing || IsMissing(source[i..], values, key)
                  <==> key in alreadyMissing || IsMissing(source, values, key)
    {
      var rest := source[i..];
      NextPiece(rest, values, escape);
      var key := KeyAt(rest);
      if key.Some? {
        assert source[i + |key.value| + 4..] == rest[|key.value| + 4..];
        if key.value !in values {
          missing := missing + {key.value};
        }
        out := out + Render(Placeholder(key.value), values, escape);
        i := i + |key.value| + 4;
      } else {
        assert source[i + 1..] == rest[1..];
        out := out + Render(Literal(rest[0]), values, escape);
        i := i + 1;
      }
    }
    NothingLeft(source, values, escape);
    assert out + "" == out;
  }

  lemma NothingLeft(source: string, values: Values, escape: bool)
    ensures RenderAll(Pieces(source[|source|..]), values, escape) == ""
    ensures forall key :: !IsMissing(source[|source|..], values, key)
  {
  }

  lemma NextPiece(s: string, values: Values, escape: bool)
    requires s != ""
    ensures KeyAt(s).Some? ==>
      && RenderAll(Pieces(s), values, escape)
          == Render(Placeholder(KeyAt(s).value), values, escape)
              + RenderAll(Pieces(s[|KeyAt(s).value| + 4..]), values, escape)
      && (forall key ::
            IsMissing(s, values, key)
            <==> (key == KeyAt(s).value && key !in values) || IsMissing(s[|KeyAt(s).value| + 4..], values, key))
    ensures KeyAt(s).None? ==>
      && RenderAll(Pieces(s), values, escape)
          == Render(Literal(s[0]), values, escape) + RenderAll(Pieces(s[1..]), values, escape)
      && (forall key :: IsMissing(s, values, key) <==> IsMissing(s[1..], values, key))
  {
    hide Render;
    hide KeyAt;
  }

  // ---- what interpolation keeps ---------------------------------------------------------------------------

  function Count(s: string, c: char): nat { if s == "" then 0 else (if s[0] == c then 1 else 0) + Count(s[1..], c) }

  lemma {:induction false} CountAppend(s: string, t: string, c: char)
    ensures Count(s + t, c) == Count(s, c) + Count(t, c)
  {
    if s == "" {
      assert s + t == t;
    } else {
      CountAppend(s[1..], t, c);
      AppendHead(s, t);
    }
  }

  predicate Markup(c: char) { c in "<>\"'" }

  lemma {:induction false} NoneIn(s: string, c: char)
    requires c !in s
    ensures Count(s, c) == 0
  {
    if s != "" { NoneIn(s[1..], c); }
  }

  lemma EscapedCharHasNoMarkup(c: char, markup: char)
    requires Markup(markup)
    ensures markup !in EscapeChar(c)
  {
  }

  lemma {:induction false} EscapedHasNoMarkup(s: string, markup: char)
    requires Markup(markup)
    ensures markup !in EscapeHtml(s)
  {
    if s != "" {
      EscapedHasNoMarkup(s[1..], markup);
      EscapedCharHasNoMarkup(s[0], markup);
      hide EscapeChar;
    }
  }

  /** The template text a piece was read from. */
  function Source(p: Piece): string { if p.Literal? then [p.c] else "{{" + p.key + "}}" }

  predicate KeyPiece(p: Piece) { p.Placeholder? ==> forall i :: 0 <= i < |p.key| ==> IsAlnum(p.key[i]) }

  lemma PieceMarkup(p: Piece, values: Values, markup: char)
    requires Markup(markup) && KeyPiece(p)
    ensures Count(Render(p, values, true), markup) == Count(Source(p), markup)
  {
    if p.Placeholder? {
      BracedHasNoMarkup(p.key, markup);
      NoneIn("{{" + p.key + "}}", markup);
      if p.key in values {
        EscapedHasNoMarkup(values[p.key], markup);
        NoneIn(EscapeHtml(values[p.key]), markup);
      }
    }
  }

  lemma BracedHasNoMarkup(key: string, markup: char)
    requires Markup(markup) && forall i :: 0 <= i < |key| ==> IsAlnum(key[i])
    ensures markup !in "{{" + key + "}}"
  {
    assert !IsAlnum(markup);
  }

  lemma SourceSplit(s: string)
    requires s != ""
    ensures KeyAt(s).Some? ==>
          s == Source(Placeholder(KeyAt(s).value)) + s[|KeyAt(s).value| + 4..] && KeyPiece(Placeholder(KeyAt(s).value))
    ensures KeyAt(s).None? ==> s == Source(Literal(s[0])) + s[1..]
  {
    if KeyAt(s).Some? { assert s == s[..|KeyAt(s).value| + 4] + s[|KeyAt(s).value| + 4..]; }
  }

  /** Whatever the values, the rendered text has exactly the template's own angle brackets and quotes. */
  lemma {:induction false} MarkupIsTheTemplates(source: string, values: Values, markup: char)
    requires Markup(markup)
    ensures Count(Interpolated(source, values, true), markup) == Count(source, markup)
    decreases |source|
  {
    if source != "" {
      var p := if KeyAt(source).Some? then Placeholder(KeyAt(source).value) else Literal(source[0]);
      var rest := if KeyAt(source).Some? then source[|KeyAt(source).value| + 4..] else source[1..];
      NextPiece(source, values, true);
      SourceSplit(source);
      assert Interpolated(source, values, true) == Render(p, values, true) + Interpolated(rest, values, true);
      assert source == Source(p) + rest && |rest| < |source| && KeyPiece(p);
      hide *;
      MarkupIsTheTemplates(rest, values, markup);
      PieceMarkup(p, values, markup);
      CountAppend(Render(p, values, true), Interpolated(rest, values, true), markup);
      CountAppend(Source(p), rest, markup);
    }
  }

  /** Without any values a template renders as itself: its pieces are all of it, in order. */
  lemma {:induction false} PiecesMakeUpTheTemplate(source: string, escape: bool)
    ensures Interpolated(source, map[], escape) == source
    decreases |source|
  {
    if source != "" {
      NextPiece(source, map[], escape);
      SourceSplit(source);
      hide KeyAt;
      hide Pieces;
      if KeyAt(source).Some? {
        PiecesMakeUpTheTemplate(source[|KeyAt(source).value| + 4..], escape);
      } else {
        PiecesMakeUpTheTemplate(source[1..], escape);
      }
    }
  }

  lemma {:induction false} PlainTextDecodes(s: string, rest: string)
    requires '&' !in s
    ensures DecodeEntities(s + rest) == s + DecodeEntities(rest)
  {
    if s == "" {
      assert s + rest == rest;
    } else {
      hide *;
      PlainTextDecodes(s[1..], rest);
      OtherCharDecodes(s[0], s[1..] + rest);
      AppendAssociative([s[0]], s[1..], rest);
      AppendAssociative([s[0]], s[1..], DecodeEntities(rest));
      assert [s[0]] + s[1..] == s;
    }
  }

  /**
   With an `&` of its own the template and a value can form an entity together, so that decoding gives
   something else.
   */
  lemma AmpersandBeforeAValue(values: Values)
    requires "X" in values && values["X"] == "lt;"
    ensures DecodeEntities(Interpolated("&{{X}}", values, true)) == "<"
    ensures Interpolated("&{{X}}", values, false) == "&lt;"
  {
    PiecesOfExample();
    EscapeOfExample();
    RenderTwo('&', "X", values, true);
    RenderTwo('&', "X", values, false);
    hide *;
    NamedEntityDecodes("lt", "");
    EntityOfExample();
  }

  lemma EntityOfExample()
    ensures "&" + "lt" + ";" + "" == ['&'] + "lt;" == "&lt;" && "&" + "lt" + ";" == "&lt;" && Entity("&lt;") == "<"
    ensures "<" + DecodeEntities("") == "<" && IsAlpha('l') && IsAlpha('t')
  {
  }

  lemma RenderTwo(c: char, key: string, values: Values, escape: bool)
    requires key in values
    ensures RenderAll([Literal(c), Placeholder(key)], values, escape)
         == [c] + (if escape then EscapeHtml(values[key]) else values[key])
  {
    hide EscapeHtml;
    var ps := [Literal(c), Placeholder(key)];
    assert ps[1..] == [Placeholder(key)] && [Placeholder(key)][1..] == [];
    assert RenderAll([Placeholder(key)], values, escape) == Render(Placeholder(key), values, escape) + "";
  }

  lemma EscapeOfExample()
    ensures EscapeHtml("lt;") == "lt;"
  {
    assert EscapeHtml(";") == ";" && EscapeHtml("t;") == "t;";
  }

  lemma PiecesOfExample()
    ensures Pieces("&{{X}}") == [Literal('&'), Placeholder("X")]
  {
    var s := "{{X}}";
    assert s[2..] == "X}}" && AlnumRun("}}") == 0 && AlnumRun("X}}") == 1;
    assert s[2..][..1] == "X";
    assert KeyAt(s) == Some("X");
    assert s[5..] == "";
    assert Pieces(s) == [Placeholder("X")] + Pieces("");
    assert "&{{X}}"[1..] == s;
    assert KeyAt("&{{X}}").None?;
  }

  // ---- when decoding the rendering gives the raw text ------------------------------------------------

  /** The entities that stand for a character. */
  predicate Known(e: string) {
    e in {
      "&rsquo;", "&lsquo;", "&rdquo;", "&ldquo;", "&mdash;", "&ndash;", "&hellip;", "&nbsp;", "&middot;",
      "&quot;", "&#39;", "&apos;", "&lt;", "&gt;", "&amp;"}
  }

  /** An entity's characters after the first are plain: escaping leaves them, and none opens another entity. */
  predicate PlainTail(e: string) { forall i :: 1 <= i < |e| ==> IsAlnum(e[i]) || e[i] in "#;" }

  lemma KnownShape(e: string)
    requires Known(e)
    ensures |e| > 3 && e[0] == '&' && e[|e| - 1] == ';' && |Entity(e)| == 1
  {
  }

  lemma KnownTail(e: string)
    requires Known(e)
    ensures PlainTail(e)
  {
  }

  lemma KnownLetters(e: string)
    requires Known(e) && e != "&#39;"
    ensures |e| > 3 && forall i :: 1 <= i < |e| - 1 ==> IsAlpha(e[i])
  {
  }

  lemma EntityParts(e: string)
    requires |e| > 3 && e[0] == '&' && e[|e| - 1] == ';'
    ensures e == "&" + e[1..|e| - 1] + ";"
  {
  }

  lemma TailHasNoAmpersand(e: string)
    requires |e| > 3 && PlainTail(e)
    ensures '&' !in e[1..]
  {
    assert !IsAlnum('&');
    forall i | 0 <= i < |e[1..]| ensures e[1..][i] != '&' { assert e[1..][i] == e[i + 1]; }
  }

  lemma UnknownIsKept(e: string)
    requires !Known(e)
    ensures Entity(e) == e
  {
  }

  lemma KnownDecodes(e: string, rest: string)
    requires Known(e)
    ensures DecodeEntities(e + rest) == Entity(e) + DecodeEntities(rest)
  {
    KnownShape(e);
    hide DecodeEntities;
    if e == "&#39;" {
      ApostropheDecodes(rest);
    } else {
      KnownLetters(e);
      EntityParts(e);
      var letters := e[1..|e| - 1];
      hide *;
      assert forall i :: 0 <= i < |letters| ==> letters[i] == e[i + 1];
      NamedEntityDecodes(letters, rest);
    }
  }

  /** The characters that entities stand for. */
  predicate StandsFor(e: string, c: char) {
    || (e == "&rsquo;" && c == '\U{2019}') || (e == "&lsquo;" && c == '\U{2018}')
    || (e == "&rdquo;" && c == '\U{201d}') || (e == "&ldquo;" && c == '\U{201c}')
    || (e == "&mdash;" && c == '\U{2014}') || (e == "&ndash;" && c == '\U{2013}')
    || (e == "&hellip;" && c == '\U{2026}') || (e == "&nbsp;" && c == ' ') || (e == "&middot;" && c == '\U{b7}')
    || (e == "&quot;" && c == '\"') || ((e == "&#39;" || e == "&apos;") && c == '\'')
    || (e == "&lt;" && c == '<') || (e == "&gt;" && c == '>') || (e == "&amp;" && c == '&')
  }

  lemma EntityIs(e: string, c: char)
    requires StandsFor(e, c)
    ensures Known(e) && Entity(e) == [c]
  {
  }

  /** A known entity decodes to its character, whatever follows. */
  lemma EntityMeans(e: string, c: char, rest: string)
    requires StandsFor(e, c)
    ensures DecodeEntities(e + rest) == [c] + DecodeEntities(rest)
  {
    hide *;
    EntityIs(e, c);
    KnownDecodes(e, rest);
  }

  /** A known entity stands at the front. */
  ghost predicate StartsKnown(s: string) { exists e :: Known(e) && e <= s }

  lemma EntityTail(s: string)
    requires s != "" && s[0] == '&' && EntityLength(s) > 0
    ensures '&' !in s[1..EntityLength(s)]
  {
    AlphaRunIs(s[1..]);
    if |s| > 1 { DigitRunIs(s[2..]); }
  }

  lemma {:induction false} AlphaRunIs(s: string)
    ensures forall i :: 0 <= i < AlphaRun(s) ==> IsAlpha(s[i])
  {
    if s != "" && IsAlpha(s[0]) { AlphaRunIs(s[1..]); }
  }

  lemma {:induction false} DigitRunIs(s: string)
    ensures forall i :: 0 <= i < DigitRun(s) ==> IsDigit(s[i])
  {
    if s != "" && IsDigit(s[0]) { DigitRunIs(s[1..]); }
  }

  lemma UnknownEntityDecodes(s: string)
    requires s != "" && s[0] == '&' && EntityLength(s) > 0 && !StartsKnown(s)
    ensures DecodeEntities(s) == s[..EntityLength(s)] + DecodeEntities(s[EntityLength(s)..])
  {
    var n := EntityLength(s);
    assert s[..n] <= s;
    hide EntityLength;
    UnknownIsKept(s[..n]);
    hide Entity;
  }

  lemma KeptAmpersandDecodes(s: string)
    requires s != "" && s[0] == '&' && EntityLength(s) == 0
    ensures DecodeEntities(s) == [s[0]] + DecodeEntities(s[1..])
  {
  }

  /** An ampersand that opens no known entity stays, and decoding goes on behind it. */
  lemma OtherAmpersandDecodes(s: string)
    requires s != "" && s[0] == '&' && !StartsKnown(s)
    ensures DecodeEntities(s) == "&" + DecodeEntities(s[1..])
  {
    hide *;
    if EntityLength(s) > 0 {
      var n := EntityLength(s);
      EntityTail(s);
      UnknownEntityDecodes(s);
      assert s[1..] == s[1..n] + s[n..] && s[..n] == "&" + s[1..n];
      PlainTextDecodes(s[1..n], s[n..]);
      AppendAssociative("&", s[1..n], DecodeEntities(s[n..]));
    } else {
      hide *;
      KeptAmpersandDecodes(s);
      assert [s[0]] == "&";
    }
  }

  /** A rendered character: one that is copied, or one of a value, which is escaped. */
  datatype Atom = Copied(c: char) | Inserted(c: char)

  function EscapedAtom(a: Atom): string { if a.Copied? then [a.c] else EscapeChar(a.c) }

  function EscapedText(atoms: seq<Atom>): string {
    if atoms == [] then "" else EscapedAtom(atoms[0]) + EscapedText(atoms[1..])
  }

  function RawText(atoms: seq<Atom>): (s: string)
    ensures |s| == |atoms|
  {
    if atoms == [] then "" else [atoms[0].c] + RawText(atoms[1..])
  }

  /** Somewhere a copied ampersand opens a known entity. */
  ghost predicate Triggers(atoms: seq<Atom>) {
    atoms != []
    && ((atoms[0] == Copied('&') && StartsKnown(EscapedText(atoms))) || Triggers(atoms[1..]))
  }

  lemma EscapedNotEmpty(a: Atom)
    ensures EscapedAtom(a) != "" && (a.Inserted? && |EscapedAtom(a)| > 1 ==> EscapedAtom(a)[0] == '&')
    ensures |EscapedAtom(a)| == 1 ==> EscapedAtom(a) == [a.c]
  {
  }

  /** Plain characters at the front come from as many atoms. */
  lemma {:induction false} PlainFront(atoms: seq<Atom>, e: string)
    requires e <= EscapedText(atoms) && '&' !in e
    ensures |e| <= |atoms| && EscapedText(atoms)[|e|..] == EscapedText(atoms[|e|..])
  {
    if e == "" {
      assert atoms[0..] == atoms;
    } else {
      EscapedNotEmpty(atoms[0]);
      assert e[0] == EscapedText(atoms)[0] == EscapedAtom(atoms[0])[0];
      assert e[0] in e;
      SingleFront(atoms);
      hide *;
      PrefixTail(e, EscapedText(atoms));
      PlainFront(atoms[1..], e[1..]);
      assert atoms[1..][|e| - 1..] == atoms[|e|..];
    }
  }

  lemma SingleFront(atoms: seq<Atom>)
    requires atoms != [] && |EscapedAtom(atoms[0])| == 1
    ensures EscapedText(atoms)[1..] == EscapedText(atoms[1..])
  {
  }

  /** Decoding never gives more than the raw text, and gives less exactly when an entity opens by itself. */
  lemma {:induction false} DecodedLength(atoms: seq<Atom>)
    ensures |DecodeEntities(EscapedText(atoms))| <= |atoms|
    ensures Triggers(atoms) ==> |DecodeEntities(EscapedText(atoms))| < |atoms|
    ensures !Triggers(atoms) ==> DecodeEntities(EscapedText(atoms)) == RawText(atoms)
    decreases |atoms|
  {
    if atoms != [] {
      var s := EscapedText(atoms);
      if atoms[0] == Copied('&') && StartsKnown(s) {
        var e :| Known(e) && e <= s;
        DecodedEntity(atoms, e);
        DecodedLength(atoms[|e|..]);
      } else {
        DecodedAtom(atoms);
        hide EscapedText;
        DecodedLength(atoms[1..]);
      }
    }
  }

  lemma DecodedEntity(atoms: seq<Atom>, e: string)
    requires atoms != [] && atoms[0] == Copied('&') && Known(e) && e <= EscapedText(atoms)
    ensures 3 < |e| <= |atoms|
    ensures |DecodeEntities(EscapedText(atoms))| == 1 + |DecodeEntities(EscapedText(atoms[|e|..]))|
  {
    var s := EscapedText(atoms);
    KnownShape(e);
    KnownTail(e);
    SingleFront(atoms);
    TailHasNoAmpersand(e);
    hide *;
    PrefixTail(e, s);
    PlainFront(atoms[1..], e[1..]);
    assert atoms[1..][|e| - 1..] == atoms[|e|..];
    KnownDecodes(e, s[|e|..]);
  }

  lemma PrefixTail(e: string, s: string)
    requires e != "" && e <= s
    ensures e[1..] <= s[1..] && s[1..][|e| - 1..] == s[|e|..] && s == e + s[|e|..]
  {
  }

  lemma DecodedAtom(atoms: seq<Atom>)
    requires atoms != [] && !(atoms[0] == Copied('&') && StartsKnown(EscapedText(atoms)))
    ensures DecodeEntities(EscapedText(atoms)) == [atoms[0].c] + DecodeEntities(EscapedText(atoms[1..]))
  {
    var rest := EscapedText(atoms[1..]);
    hide DecodeEntities;
    hide StartsKnown;
    if atoms[0].Inserted? {
      EscapedCharDecodes(atoms[0].c, rest);
    } else if atoms[0].c != '&' {
      OtherCharDecodes(atoms[0].c, rest);
    } else {
      OtherAmpersandDecodes(EscapedText(atoms));
      SingleFront(atoms);
    }
  }

  // ---- which templates -----------------------------------------------------------------------------

  function Atoms(s: string, inserted: bool): (atoms: seq<Atom>)
    ensures |atoms| == |s| && forall i :: 0 <= i < |s| ==> atoms[i] == if inserted then Inserted(s[i]) else Copied(s[i])
  {
    seq(|s|, i requires 0 <= i < |s| => if inserted then Inserted(s[i]) else Copied(s[i]))
  }

  function PieceAtoms(p: Piece, values: Values): seq<Atom> {
    match p
    case Literal(c) => [Copied(c)]
    case Placeholder(key) => if key in values then Atoms(values[key], true) else Atoms("{{" + key + "}}", false)
  }

  function AllAtoms(ps: seq<Piece>, values: Values): seq<Atom> {
    if ps == [] then [] else PieceAtoms(ps[0], values) + AllAtoms(ps[1..], values)
  }

  lemma EscapedUnfolds(atoms: seq<Atom>)
    ensures EscapedText([]) == ""
    ensures atoms != [] ==> EscapedText(atoms) == EscapedAtom(atoms[0]) + EscapedText(atoms[1..])
  {
  }

  lemma RawUnfolds(atoms: seq<Atom>)
    ensures RawText([]) == ""
    ensures atoms != [] ==> RawText(atoms) == [atoms[0].c] + RawText(atoms[1..])
  {
  }

  lemma {:induction false} EscapedOfBoth(xs: seq<Atom>, ys: seq<Atom>)
    ensures EscapedText(xs + ys) == EscapedText(xs) + EscapedText(ys)
  {
    hide *;
    EscapedUnfolds(xs);
    if xs == [] {
      assert xs + ys == ys;
    } else {
      EscapedUnfolds(xs + ys);
      AppendHead(xs, ys);
      EscapedOfBoth(xs[1..], ys);
      AppendAssociative(EscapedAtom(xs[0]), EscapedText(xs[1..]), EscapedText(ys));
    }
  }

  lemma {:induction false} RawOfBoth(xs: seq<Atom>, ys: seq<Atom>)
    ensures RawText(xs + ys) == RawText(xs) + RawText(ys)
  {
    hide *;
    RawUnfolds(xs);
    if xs == [] {
      assert xs + ys == ys;
    } else {
      RawUnfolds(xs + ys);
      AppendHead(xs, ys);
      RawOfBoth(xs[1..], ys);
      AppendAssociative([xs[0].c], RawText(xs[1..]), RawText(ys));
    }
  }

  lemma {:induction false} AtomsOfText(s: string)
    ensures EscapedText(Atoms(s, true)) == EscapeHtml(s) && RawText(Atoms(s, true)) == s
    ensures EscapedText(Atoms(s, false)) == s && RawText(Atoms(s, false)) == s
  {
    if s != "" {
      AtomsOfText(s[1..]);
      assert Atoms(s, true)[1..] == Atoms(s[1..], true) && Atoms(s, false)[1..] == Atoms(s[1..], false);
      assert [s[0]] + s[1..] == s;
      hide EscapeChar;
    }
  }

  lemma PieceTexts(p: Piece, values: Values)
    ensures EscapedText(PieceAtoms(p, values)) == Render(p, values, true)
    ensures RawText(PieceAtoms(p, values)) == Render(p, values, false)
  {
    match p
    case Literal(c) => assert [Copied(c)][1..] == [];
    case Placeholder(key) => AtomsOfText(if key in values then values[key] else "{{" + key + "}}");
  }

  lemma {:induction false} AtomsRender(ps: seq<Piece>, values: Values)
    ensures EscapedText(AllAtoms(ps, values)) == RenderAll(ps, values, true)
    ensures RawText(AllAtoms(ps, values)) == RenderAll(ps, values, false)
  {
    if ps != [] {
      hide EscapedText;
      hide RawText;
      hide Render;
      hide PieceAtoms;
      AtomsRender(ps[1..], values);
      PieceTexts(ps[0], values);
      EscapedOfBoth(PieceAtoms(ps[0], values), AllAtoms(ps[1..], values));
      RawOfBoth(PieceAtoms(ps[0], values), AllAtoms(ps[1..], values));
    } else {
      hide Render;
    }
  }

  /** The literal text at the front. */
  function LiteralRun(ps: seq<Piece>): string {
    if ps == [] || ps[0].Placeholder? then "" else [ps[0].c] + LiteralRun(ps[1..])
  }

  /** A placeholder follows the literal text at the front. */
  predicate RunsIntoPlaceholder(ps: seq<Piece>) { ps != [] && (ps[0].Placeholder? || RunsIntoPlaceholder(ps[1..])) }

  /** An ampersand opens a known entity in the literal text, or one that the next placeholder could complete. */
  ghost predicate OpensAt(ps: seq<Piece>) {
    ps != [] && ps[0] == Literal('&')
    && exists e :: Known(e) && (e <= LiteralRun(ps) || (RunsIntoPlaceholder(ps) && LiteralRun(ps) < e))
  }

  ghost predicate Opens(ps: seq<Piece>) { ps != [] && (OpensAt(ps) || Opens(ps[1..])) }

  predicate KeyPieces(ps: seq<Piece>) { forall i :: 0 <= i < |ps| ==> KeyPiece(ps[i]) }

  lemma {:induction false} PiecesHaveKeys(source: string)
    ensures KeyPieces(Pieces(source))
    decreases |source|
  {
    if source != "" {
      SourceSplit(source);
      if KeyAt(source).Some? {
        PiecesHaveKeys(source[|KeyAt(source).value| + 4..]);
      } else {
        PiecesHaveKeys(source[1..]);
      }
    }
  }

  lemma TriggersUnfolds(atoms: seq<Atom>)
    requires atoms != []
    ensures Triggers(atoms)
       <==> (atoms[0] == Copied('&') && StartsKnown(EscapedText(atoms))) || Triggers(atoms[1..])
  {
  }

  lemma {:induction false} NoTriggerIn(xs: seq<Atom>, ys: seq<Atom>)
    requires forall x :: x in xs ==> x != Copied('&')
    ensures Triggers(xs + ys) <==> Triggers(ys)
  {
    hide *;
    if xs == [] {
      assert xs + ys == ys;
    } else {
      TriggersUnfolds(xs + ys);
      AppendHead(xs, ys);
      assert xs[0] in xs;
      forall x | x in xs[1..] ensures x != Copied('&') { assert x in xs; }
      NoTriggerIn(xs[1..], ys);
    }
  }

  lemma TriggersOfPieces(ps: seq<Piece>, values: Values)
    requires ps != [] && KeyPieces(ps)
    ensures Triggers(AllAtoms(ps, values))
       <==> (ps[0] == Literal('&') && StartsKnown(RenderAll(ps, values, true))) || Triggers(AllAtoms(ps[1..], values))
  {
    AtomsRender(ps, values);
    var rest := AllAtoms(ps[1..], values);
    hide StartsKnown;
    hide RenderAll;
    match ps[0]
    case Literal(c) => assert ([Copied(c)] + rest)[1..] == rest;
    case Placeholder(key) =>
      PlaceholderAtoms(key, values);
      hide PieceAtoms;
      NoTriggerIn(PieceAtoms(ps[0], values), rest);
  }

  lemma PlaceholderAtoms(key: string, values: Values)
    requires KeyPiece(Placeholder(key))
    ensures forall x :: x in PieceAtoms(Placeholder(key), values) ==> x != Copied('&')
  {
    assert !IsAlnum('&');
  }

  /** The rendering starts with the literal text, and has more only behind a placeholder. */
  lemma {:induction false} RunRenders(ps: seq<Piece>, values: Values)
    ensures LiteralRun(ps) <= RenderAll(ps, values, true)
    ensures !RunsIntoPlaceholder(ps) ==> LiteralRun(ps) == RenderAll(ps, values, true)
  {
    if ps != [] && ps[0].Literal? { RunRenders(ps[1..], values); }
  }

  lemma StartsOnlyWhereOpen(ps: seq<Piece>, values: Values)
    requires ps != [] && ps[0] == Literal('&') && StartsKnown(RenderAll(ps, values, true))
    ensures OpensAt(ps)
  {
    RunRenders(ps, values);
    hide RenderAll;
    var s, run := RenderAll(ps, values, true), LiteralRun(ps);
    var e :| Known(e) && e <= s;
    hide LiteralRun;
    hide RunsIntoPlaceholder;
    if |e| <= |run| {
      assert e == s[..|e|] == run[..|e|];
      assert e <= run;
    } else {
      assert run == s[..|run|] == e[..|run|];
      assert run < e;
    }
  }

  lemma {:induction false} TriggersOnlyWhereOpen(ps: seq<Piece>, values: Values)
    requires KeyPieces(ps) && Triggers(AllAtoms(ps, values))
    ensures Opens(ps)
  {
    if ps != [] {
      TriggersOfPieces(ps, values);
      hide OpensAt;
      hide AllAtoms;
      hide Triggers;
      hide StartsKnown;
      if Triggers(AllAtoms(ps[1..], values)) {
        TriggersOnlyWhereOpen(ps[1..], values);
      } else {
        StartsOnlyWhereOpen(ps, values);
      }
    }
  }

  lemma RunUnfolds(ps: seq<Piece>)
    requires ps != []
    ensures ps[0].Placeholder? ==> LiteralRun(ps) == ""
    ensures ps[0].Literal? ==> LiteralRun(ps) == [ps[0].c] + LiteralRun(ps[1..])
    ensures RunsIntoPlaceholder(ps) <==> ps[0].Placeholder? || RunsIntoPlaceholder(ps[1..])
  {
  }

  lemma RenderUnfolds(ps: seq<Piece>, values: Values)
    requires ps != []
    ensures RenderAll(ps, values, true) == Render(ps[0], values, true) + RenderAll(ps[1..], values, true)
    ensures ps[0].Literal? ==> Render(ps[0], values, true) == [ps[0].c]
  {
  }

  lemma AppendIsPrefix(a: string, b: string)
    ensures "" + a <= a + b
  {
  }

  lemma PrependKeepsPrefix(c: char, a: string, b: string)
    requires a <= b
    ensures [c] + a <= [c] + b
  {
  }

  /** The placeholder behind the literal text, rendered with the value that completes the entity. */
  lemma {:induction false} CompletedRun(ps: seq<Piece>, tail: string) returns (values: Values)
    requires RunsIntoPlaceholder(ps)
    ensures LiteralRun(ps) + EscapeHtml(tail) <= RenderAll(ps, values, true)
  {
    RunUnfolds(ps);
    hide EscapeHtml;
    if ps[0].Placeholder? {
      values := map[ps[0].key := tail];
      assert Render(ps[0], values, true) == EscapeHtml(tail);
      RenderUnfolds(ps, values);
      hide *;
      AppendIsPrefix(EscapeHtml(tail), RenderAll(ps[1..], values, true));
    } else {
      values := CompletedRun(ps[1..], tail);
      RenderUnfolds(ps, values);
      hide *;
      AppendAssociative([ps[0].c], LiteralRun(ps[1..]), EscapeHtml(tail));
      PrependKeepsPrefix(ps[0].c, LiteralRun(ps[1..]) + EscapeHtml(tail), RenderAll(ps[1..], values, true));
    }
  }

  lemma PlainFirst(s: string)
    requires s != "" && (IsAlnum(s[0]) || s[0] in "#;")
    ensures EscapeHtml(s) == [s[0]] + EscapeHtml(s[1..])
  {
    PlainChar(s[0]);
    hide EscapeChar;
    hide IsAlnum;
  }

  lemma PlainChar(c: char)
    requires IsAlnum(c) || c in "#;"
    ensures EscapeChar(c) == [c]
  {
  }

  lemma {:induction false} PlainEscapes(s: string)
    requires forall i :: 0 <= i < |s| ==> IsAlnum(s[i]) || s[i] in "#;"
    ensures EscapeHtml(s) == s
  {
    if s != "" {
      PlainFirst(s);
      hide *;
      forall i | 0 <= i < |s[1..]| ensures IsAlnum(s[1..][i]) || s[1..][i] in "#;" { assert s[1..][i] == s[i + 1]; }
      PlainEscapes(s[1..]);
      assert [s[0]] + s[1..] == s;
    }
  }

  lemma OpenCanStart(ps: seq<Piece>) returns (values: Values)
    requires OpensAt(ps)
    ensures StartsKnown(RenderAll(ps, values, true))
  {
    OpensHead(ps);
    RunStarts(ps);
    hide *;
    var run := LiteralRun(ps);
    var e := OpenedEntity(ps);
    if e <= run {
      values := map[];
      RunRenders(ps, values);
      PrefixOfPrefix(e, run, RenderAll(ps, values, true));
    } else {
      var tail := e[|run|..];
      TailEscapes(e, |run|);
      values := CompletedRun(ps, tail);
      PrefixAndRest(run, e);
    }
    KnownStart(e, RenderAll(ps, values, true));
  }

  lemma OpenedEntity(ps: seq<Piece>) returns (e: string)
    requires OpensAt(ps)
    ensures Known(e) && (e <= LiteralRun(ps) || (RunsIntoPlaceholder(ps) && LiteralRun(ps) < e))
  {
    hide Known;
    hide LiteralRun;
    hide RunsIntoPlaceholder;
    e :| Known(e) && (e <= LiteralRun(ps) || (RunsIntoPlaceholder(ps) && LiteralRun(ps) < e));
  }

  lemma PrefixAndRest(a: string, b: string)
    requires a <= b
    ensures a + b[|a|..] == b
  {
  }

  lemma KnownStart(e: string, s: string)
    requires Known(e) && e <= s
    ensures StartsKnown(s)
  {
  }

  lemma PrefixOfPrefix(a: string, b: string, c: string)
    requires a <= b <= c
    ensures a <= c
  {
  }

  lemma TailEscapes(e: string, n: nat)
    requires Known(e) && 1 <= n <= |e|
    ensures EscapeHtml(e[n..]) == e[n..]
  {
    KnownTail(e);
    TailIsPlain(e, n);
    PlainEscapes(e[n..]);
  }

  lemma RunStarts(ps: seq<Piece>)
    requires ps != [] && ps[0].Literal?
    ensures |LiteralRun(ps)| >= 1
  {
  }

  lemma TailIsPlain(e: string, n: nat)
    requires 1 <= n <= |e| && PlainTail(e)
    ensures forall i :: 0 <= i < |e[n..]| ==> IsAlnum(e[n..][i]) || e[n..][i] in "#;"
  {
    forall i | 0 <= i < |e[n..]| ensures IsAlnum(e[n..][i]) || e[n..][i] in "#;" { assert e[n..][i] == e[i + n]; }
  }

  lemma {:induction false} OpenCanTrigger(ps: seq<Piece>) returns (values: Values)
    requires KeyPieces(ps) && Opens(ps)
    ensures Triggers(AllAtoms(ps, values))
  {
    hide OpensAt;
    if OpensAt(ps) {
      values := OpenCanStart(ps);
      OpensHead(ps);
    } else {
      values := OpenCanTrigger(ps[1..]);
    }
    TriggersOfPieces(ps, values);
  }

  lemma OpensHead(ps: seq<Piece>)
    requires OpensAt(ps)
    ensures ps != [] && ps[0] == Literal('&')
  {
  }

  /**
   For given values: the decoded rendering is the raw one exactly when no ampersand of the template opens an
   entity.
   */
  lemma DecodesToRawUnlessTriggered(source: string, values: Values)
    ensures DecodeEntities(Interpolated(source, values, true)) == Interpolated(source, values, false)
       <==> !Triggers(AllAtoms(Pieces(source), values))
  {
    AtomsRender(Pieces(source), values);
    DecodedLength(AllAtoms(Pieces(source), values));
    hide Pieces;
    hide AllAtoms;
    hide RenderAll;
    hide DecodeEntities;
    hide Triggers;
  }

  /**
   Decoding the escaped rendering gives the raw one for all values if and only if no ampersand of the
   template opens an entity in its literal text, or one that a placeholder next to it could complete.
   */
  lemma {:induction false} DecodedRenderingIsRawIff(source: string)
    ensures (forall values :: DecodeEntities(Interpolated(source, values, true)) == Interpolated(source, values, false))
       <==> !Opens(Pieces(source))
  {
    PiecesHaveKeys(source);
    hide *;
    if Opens(Pieces(source)) {
      var values := OpenCanTrigger(Pieces(source));
      DecodesToRawUnlessTriggered(source, values);
    } else {
      forall values ensures DecodeEntities(Interpolated(source, values, true)) == Interpolated(source, values, false) {
        DecodesToRawUnlessTriggered(source, values);
        if Triggers(AllAtoms(Pieces(source), values)) {
          TriggersOnlyWhereOpen(Pieces(source), values);
          assert false;
        }
      }
    }
  }
}
