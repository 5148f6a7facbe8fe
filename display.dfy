/**
 * What the popup shows and copies: HTML escaping of a stored URL, the
 * newline-joined clipboard payload, and the "n URL"/"n URLs" labels.
 */
module Display {
  import opened Text

  // ---------------------------------------------------------------------------
  // Escaping
  // ---------------------------------------------------------------------------

  /** The text `esc` puts in place of one character. */
  function EscapeChar(c: char): string {
    match c
    case '&' => "&amp;"
    case '<' => "&lt;"
    case '>' => "&gt;"
    case '"' => "&quot;"
    case _ => [c]
  }

  /** Reference definition: every character replaced by its entity, in one pass. */
  function EscapeEach(s: string): string {
    if s == [] then [] else EscapeChar(s[0]) + EscapeEach(s[1..])
  }

  /** `s.replace(/c/g, by)`: every occurrence of `c` replaced by `by`. */
  function ReplaceAll(s: string, c: char, entity: string): string {
    if s == [] then []
    else (if s[0] == c then entity else [s[0]]) + ReplaceAll(s[1..], c, entity)
  }

  /** `esc`: four global replacements, applied in the order `&`, `<`, `>`, `"`. */
  function Esc(s: string): string {
    ReplaceAll(ReplaceAll(ReplaceAll(ReplaceAll(s, '&', "&amp;"), '<', "&lt;"), '>', "&gt;"), '"', "&quot;")
  }

  lemma {:induction false} ReplaceAllAppend(a: string, b: string, c: char, entity: string)
    ensures ReplaceAll(a + b, c, entity) == ReplaceAll(a, c, entity) + ReplaceAll(b, c, entity)
  {
    if a == [] {
      assert a + b == b;
    } else {
      assert (a + b)[0] == a[0];
      assert (a + b)[1..] == a[1..] + b;
      ReplaceAllAppend(a[1..], b, c, entity);
    }
  }

  /** Replacing a character that does not occur changes nothing. */
  lemma {:induction false} ReplaceAbsent(s: string, c: char, entity: string)
    requires c !in s
    ensures ReplaceAll(s, c, entity) == s
  {
    if s != [] {
      assert s[1..] + [] == s[1..];
      ReplaceAbsent(s[1..], c, entity);
      assert [s[0]] + s[1..] == s;
    }
  }

  lemma EscAppend(a: string, b: string)
    ensures Esc(a + b) == Esc(a) + Esc(b)
  {
    var a1, b1 := ReplaceAll(a, '&', "&amp;"), ReplaceAll(b, '&', "&amp;");
    var a2, b2 := ReplaceAll(a1, '<', "&lt;"), ReplaceAll(b1, '<', "&lt;");
    var a3, b3 := ReplaceAll(a2, '>', "&gt;"), ReplaceAll(b2, '>', "&gt;");
    ReplaceAllAppend(a, b, '&', "&amp;");
    ReplaceAllAppend(a1, b1, '<', "&lt;");
    ReplaceAllAppend(a2, b2, '>', "&gt;");
    ReplaceAllAppend(a3, b3, '"', "&quot;");
  }

  lemma ReplaceOne(x: char, c: char, entity: string)
    ensures ReplaceAll([x], c, entity) == if x == c then entity else [x]
  {
  }

  /** An entity produced by one step holds none of the characters the later steps replace. */
  lemma EntityUntouched(e: string)
    requires e == "&amp;" || e == "&lt;" || e == "&gt;"
    ensures ReplaceAll(e, '"', "&quot;") == e
    ensures e != "&gt;" ==> ReplaceAll(e, '>', "&gt;") == e
    ensures e == "&amp;" ==> ReplaceAll(e, '<', "&lt;") == e
  {
    ReplaceAbsent(e, '"', "&quot;");
    if e != "&gt;" {
      ReplaceAbsent(e, '>', "&gt;");
    }
    if e == "&amp;" {
      ReplaceAbsent(e, '<', "&lt;");
    }
  }

  /** On a single character, the chain of replacements produces that character's entity. */
  lemma EscOneChar(c: char)
    ensures Esc([c]) == EscapeChar(c)
  {
    ReplaceOne(c, '&', "&amp;");
    var s1 := ReplaceAll([c], '&', "&amp;");
    if c == '&' {
      EntityUntouched("&amp;");
      return;
    }
    ReplaceOne(c, '<', "&lt;");
    var s2 := ReplaceAll(s1, '<', "&lt;");
    if c == '<' {
      EntityUntouched("&lt;");
      return;
    }
    ReplaceOne(c, '>', "&gt;");
    var s3 := ReplaceAll(s2, '>', "&gt;");
    if c == '>' {
      EntityUntouched("&gt;");
      return;
    }
    ReplaceOne(c, '"', "&quot;");
  }

  /**
   * Because `&` is replaced first, no entity introduced by a later step is
   * escaped again: the chain agrees with the one-pass reference.
   */
  lemma {:induction false} EscIsEscapeEach(s: string)
    ensures Esc(s) == EscapeEach(s)
  {
    if s == [] {
      assert Esc(s) == [];
    } else {
      assert s == [s[0]] + s[1..];
      EscAppend([s[0]], s[1..]);
      EscOneChar(s[0]);
      EscIsEscapeEach(s[1..]);
    }
  }

  /** No character in the text can open or close a tag or end an attribute value. */
  predicate Inert(t: string) {
    '<' !in t && '>' !in t && '"' !in t
  }

  lemma {:induction false} EscapeEachInert(s: string)
    ensures Inert(EscapeEach(s))
  {
    if s != [] {
      EscapeEachInert(s[1..]);
    }
  }

  /** Escaped text placed in the list markup or in a `title` attribute holds no markup characters. */
  lemma EscIsInert(s: string)
    ensures Inert(Esc(s))
  {
    EscIsEscapeEach(s);
    EscapeEachInert(s);
  }

  /** An entity starts at position `i` of `t`. */
  predicate EntityAt(t: string, i: nat)
    requires i < |t|
  {
    "&amp;" <= t[i..] || "&lt;" <= t[i..] || "&gt;" <= t[i..] || "&quot;" <= t[i..]
  }

  lemma {:induction false} EscapeEachAmpersands(s: string, i: nat)
    requires i < |EscapeEach(s)| && EscapeEach(s)[i] == '&'
    ensures EntityAt(EscapeEach(s), i)
  {
    var t := EscapeEach(s);
    var e := EscapeChar(s[0]);
    var rest := EscapeEach(s[1..]);
    assert t == e + rest;
    if i < |e| {
      assert i == 0;
      assert t[i..] == e + rest;
    } else {
      assert t[i..] == rest[i - |e|..];
      EscapeEachAmpersands(s[1..], i - |e|);
    }
  }

  /** Every `&` in escaped text begins one of the four entities, so the text reads back unambiguously. */
  lemma EscAmpersands(s: string, i: nat)
    requires i < |Esc(s)| && Esc(s)[i] == '&'
    ensures EntityAt(Esc(s), i)
  {
    EscIsEscapeEach(s);
    EscapeEachAmpersands(s, i);
  }

  /** A string with none of the four special characters is shown as it is. */
  lemma EscOfPlain(s: string)
    requires '&' !in s && Inert(s)
    ensures Esc(s) == s
  {
    ReplaceAbsent(s, '&', "&amp;");
    ReplaceAbsent(s, '<', "&lt;");
    ReplaceAbsent(s, '>', "&gt;");
    ReplaceAbsent(s, '"', "&quot;");
  }

  /** What an HTML reader makes of escaped text: each of the four entities back to its character. */
  function Unescape(t: string): string
    decreases |t|
  {
    if t == [] then []
    else if "&amp;" <= t then "&" + Unescape(t[5..])
    else if "&lt;" <= t then "<" + Unescape(t[4..])
    else if "&gt;" <= t then ">" + Unescape(t[4..])
    else if "&quot;" <= t then "\"" + Unescape(t[6..])
    else [t[0]] + Unescape(t[1..])
  }

  lemma UnescapeStep(c: char, t: string)
    ensures Unescape(EscapeChar(c) + t) == [c] + Unescape(t)
  {
    var e := EscapeChar(c) + t;
    if c == '&' || c == '<' || c == '>' || c == '"' {
      UnescapeEntity(c, t);
    } else {
      assert e[0] == c && e[1..] == t;
    }
  }

  lemma UnescapeEntity(c: char, t: string)
    requires c == '&' || c == '<' || c == '>' || c == '"'
    ensures Unescape(EscapeChar(c) + t) == [c] + Unescape(t)
  {
    var e := EscapeChar(c) + t;
    assert e[..|EscapeChar(c)|] == EscapeChar(c);
    assert e[|EscapeChar(c)|..] == t;
    assert e[0] == '&';
    if c != '&' {
      assert e[1] != 'a';
    }
    if c == '"' {
      assert e[1] == 'q';
    }
  }

  /** Escaping loses nothing: the page shows exactly the stored URL. */
  lemma {:induction false} UnescapeEsc(s: string)
    ensures Unescape(Esc(s)) == s
  {
    EscIsEscapeEach(s);
    UnescapeEscapeEach(s);
  }

  lemma {:induction false} UnescapeEscapeEach(s: string)
    ensures Unescape(EscapeEach(s)) == s
  {
    if s != [] {
      UnescapeStep(s[0], EscapeEach(s[1..]));
      UnescapeEscapeEach(s[1..]);
      assert [s[0]] + s[1..] == s;
    }
  }

  // ---------------------------------------------------------------------------
  // The clipboard payload
  // ---------------------------------------------------------------------------

  /** `lines.join('\n')` */
  function Join(lines: seq<string>): string {
    if lines == [] then []
    else if |lines| == 1 then lines[0]
    else lines[0] + "\n" + Join(lines[1..])
  }

  /** `text.split('\n')`: the pieces between newlines; always at least one piece. */
  function Split(t: string): (r: seq<string>)
    ensures |r| >= 1
  {
    if t == [] then [[]]
    else
      var rest := Split(t[1..]);
      if t[0] == '\n' then [[]] + rest else [[t[0]] + rest[0]] + rest[1..]
  }

  predicate OneLine(s: string) {
    '\n' !in s
  }

  lemma {:induction false} SplitAfterLine(a: string, t: string)
    requires OneLine(a)
    ensures Split(a + t) == [a + Split(t)[0]] + Split(t)[1..]
  {
    if a == [] {
      assert a + t == t;
      assert a + Split(t)[0] == Split(t)[0];
      assert Split(t) == [Split(t)[0]] + Split(t)[1..];
    } else {
      assert (a + t)[0] == a[0];
      assert (a + t)[1..] == a[1..] + t;
      SplitAfterLine(a[1..], t);
      assert [a[0]] + (a[1..] + Split(t)[0]) == a + Split(t)[0];
    }
  }

  /** Splitting the copied text at newlines gives back the list, when no entry holds a newline. */
  lemma {:induction false} SplitJoin(lines: seq<string>)
    requires lines != []
    requires forall i :: 0 <= i < |lines| ==> OneLine(lines[i])
    ensures Split(Join(lines)) == lines
  {
    if |lines| == 1 {
      SplitAfterLine(lines[0], []);
      assert lines[0] + [] == lines[0];
    } else {
      var rest := Join(lines[1..]);
      var tail := "\n" + rest;
      assert Join(lines) == lines[0] + tail;
      SplitAfterLine(lines[0], tail);
      assert tail[0] == '\n' && tail[1..] == rest;
      assert Split(tail) == [[]] + Split(rest);
      SplitJoin(lines[1..]);
      assert Split(tail)[0] == [] && Split(tail)[1..] == lines[1..];
      assert lines[0] + [] == lines[0];
      assert lines == [lines[0]] + lines[1..];
    }
  }

  /** Text written to the clipboard by Copy All; nothing when the list is empty. */
  function CopyPayload(urls: seq<string>): (r: Option<string>)
    ensures r.None? <==> urls == []
  {
    if urls == [] then None else Some(Join(urls))
  }

  /** The copied text carries every stored URL, in order, one per line. */
  lemma CopyPayloadLines(urls: seq<string>)
    requires forall i :: 0 <= i < |urls| ==> OneLine(urls[i])
    ensures CopyPayload(urls).Some? ==> Split(CopyPayload(urls).value) == urls
  {
    if urls != [] {
      SplitJoin(urls);
    }
  }

  // ---------------------------------------------------------------------------
  // Numbers and labels
  // ---------------------------------------------------------------------------

  predicate IsDigit(c: char) {
    '0' <= c <= '9'
  }

  function DigitChar(d: nat): (c: char)
    requires d < 10
    ensures IsDigit(c)
  {
    ('0' as int + d) as char
  }

  /** The decimal numeral JavaScript prints for a non-negative integer. */
  function Decimal(n: nat): (r: string)
    ensures r != []
    ensures forall i :: 0 <= i < |r| ==> IsDigit(r[i])
  {
    if n < 10 then [DigitChar(n)] else Decimal(n / 10) + [DigitChar(n % 10)]
  }

  function DigitValue(c: char): (d: nat)
    requires IsDigit(c)
    ensures d < 10 && DigitChar(d) == c
  {
    c as int - '0' as int
  }

  /** The number a string of digits denotes. */
  function Value(s: string): nat
    requires forall i :: 0 <= i < |s| ==> IsDigit(s[i])
  {
    if s == [] then 0 else 10 * Value(s[..|s| - 1]) + DigitValue(s[|s| - 1])
  }

  lemma {:induction false} ValueOfDecimal(n: nat)
    ensures Value(Decimal(n)) == n
  {
    var r := Decimal(n);
    if n >= 10 {
      assert r[..|r| - 1] == Decimal(n / 10);
      ValueOfDecimal(n / 10);
    }
  }

  /** The digits at the start of a string. */
  function LeadingDigits(s: string): (r: string)
    ensures r <= s
    ensures forall i :: 0 <= i < |r| ==> IsDigit(r[i])
  {
    if s == [] || !IsDigit(s[0]) then [] else [s[0]] + LeadingDigits(s[1..])
  }

  /** `parseInt(s, 10)` on strings that start with a digit or with no number at all. */
  function ParseInt(s: string): Option<nat> {
    var d := LeadingDigits(s);
    if d == [] then None else Some(Value(d))
  }

  lemma {:induction false} LeadingDigitsBeforeText(a: string, t: string)
    requires forall i :: 0 <= i < |a| ==> IsDigit(a[i])
    requires t != [] ==> !IsDigit(t[0])
    ensures LeadingDigits(a + t) == a
  {
    if a == [] {
      assert a + t == t;
    } else {
      assert (a + t)[0] == a[0];
      assert (a + t)[1..] == a[1..] + t;
      LeadingDigitsBeforeText(a[1..], t);
      assert [a[0]] + a[1..] == a;
    }
  }

  /** A row's `data-index` attribute, read back by the remove handler, names that row. */
  lemma ParseIntOfDecimal(n: nat)
    ensures ParseInt(Decimal(n)) == Some(n)
  {
    LeadingDigitsBeforeText(Decimal(n), []);
    assert Decimal(n) + [] == Decimal(n);
    ValueOfDecimal(n);
  }

  /** The counter text and the copy toast's tail: "1 URL", otherwise "n URLs". */
  function CountLabel(n: nat): string {
    Decimal(n) + " URL" + (if n != 1 then "s" else "")
  }

  /** The label states the count and is plural exactly when the count is not one. */
  lemma CountLabelMeaning(n: nat)
    ensures ParseInt(CountLabel(n)) == Some(n)
    ensures EndsWith(CountLabel(n), "s") <==> n != 1
  {
    var tail := " URL" + (if n != 1 then "s" else "");
    assert CountLabel(n) == Decimal(n) + tail;
    LeadingDigitsBeforeText(Decimal(n), tail);
    ValueOfDecimal(n);
    EndsWithChar(Decimal(n), tail, 's');
  }

  /** The toast shown by Copy All. */
  function CopyToast(urls: seq<string>): (msg: string)
    ensures urls == [] <==> msg == "Nothing to copy"
  {
    if urls == [] then "Nothing to copy"
    else
      var msg := "Copied " + CountLabel(|urls|);
      assert msg[0] == 'C';
      msg
  }
}
