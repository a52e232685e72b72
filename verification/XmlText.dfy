/** TinyXML's character level in byte-wise mode. */
module XmlText {
  import opened Options

  // What it escapes when printing a value and what it reads back. A pointer into the text
  // is modelled by the text from there on, so the empty string is the terminating zero, and None is
  // the null pointer an error returns.

  predicate IsWhiteSpace(c: char) {
    c == ' ' || 9 <= c as int <= 13
  }

  predicate IsAlpha(c: char) {
    'a' <= c <= 'z' || 'A' <= c <= 'Z' || c as int >= 127
  }

  predicate IsAlphaNum(c: char) {
    IsAlpha(c) || '0' <= c <= '9'
  }

  predicate IsNameStart(c: char) {
    IsAlpha(c) || c == '_'
  }

  predicate IsNameChar(c: char) {
    IsAlphaNum(c) || c == '_' || c == '-' || c == '.' || c == ':'
  }

  function Drop(s: string, n: nat): string {
    if n <= |s| then s[n..] else ""
  }

  // ---------------------------------------------------------------------------------------------
  // Printing a value
  // ---------------------------------------------------------------------------------------------

  function HexDigit(d: nat): char
    requires d < 16
  {
    if d < 10 then '0' + d as char else 'A' + (d - 10) as char
  }

  function EscapeChar(c: char): (r: string)
    ensures r != ""
  {
    if c == '&' then "&amp;"
    else if c == '<' then "&lt;"
    else if c == '>' then "&gt;"
    else if c == '\"' then "&quot;"
    else if c == '\'' then "&apos;"
    else if c as int < 32 then ['&', '#', 'x', HexDigit(c as int / 16), HexDigit(c as int % 16), ';']
    else [c]
  }

  predicate StartsReference(v: string) {
    |v| > 2 && v[0] == '&' && v[1] == '#' && v[2] == 'x'
  }

  /** The value as printed: escaped, except that what looks like a hexadecimal character reference is
      passed through up to the next semicolon or the last character. */
  function Put(v: string): string
    decreases |v|, if |v| > 2 then 2 else 0
  {
    if v == "" then ""
    else if StartsReference(v) then Pass(v)
    else EscapeChar(v[0]) + Put(v[1..])
  }

  function Pass(v: string): string
    decreases |v|, 1
  {
    if |v| <= 1 then Put(v)
    else [v[0]] + if v[1] == ';' then Put(v[1..]) else Pass(v[1..])
  }

  /** Every character escaped by itself. */
  function EscapeAll(v: string): string {
    if v == "" then "" else EscapeChar(v[0]) + EscapeAll(v[1..])
  }

  ghost predicate HasReference(v: string) {
    exists i :: 0 <= i < |v| && StartsReference(v[i..])
  }

  lemma HasReferenceStep(v: string)
    requires v != ""
    ensures HasReference(v) <==> StartsReference(v) || HasReference(v[1..])
  {
    assert v[0..] == v;
    if HasReference(v[1..]) {
      var i :| 0 <= i < |v[1..]| && StartsReference(v[1..][i..]);
      assert v[1..][i..] == v[i + 1..];
    }
    if HasReference(v) {
      var i :| 0 <= i < |v| && StartsReference(v[i..]);
      if i > 0 {
        assert v[1..][i - 1..] == v[i..];
      }
    }
    if StartsReference(v) {
      assert StartsReference(v[0..]);
    }
  }

  lemma {:induction false} PutIsEscapeAll(v: string)
    requires !HasReference(v)
    ensures Put(v) == EscapeAll(v)
  {
    if v != "" {
      HasReferenceStep(v);
      PutIsEscapeAll(v[1..]);
    }
  }

  lemma {:induction false} EscapeAllConcat(a: string, b: string)
    ensures EscapeAll(a + b) == EscapeAll(a) + EscapeAll(b)
  {
    if a == "" {
      assert a + b == b;
    } else {
      assert (a + b)[1..] == a[1..] + b;
      EscapeAllConcat(a[1..], b);
    }
  }

  // ---------------------------------------------------------------------------------------------
  // Reading a character
  // ---------------------------------------------------------------------------------------------

  /** Where `c` first occurs at or after `from`. */
  function IndexFrom(s: string, from: nat, c: char): (r: Option<nat>)
    ensures r.Some? ==> from <= r.value < |s| && s[r.value] == c
    ensures r.Some? ==> forall i :: from <= i < r.value ==> s[i] != c
    ensures r.None? ==> forall i :: from <= i < |s| ==> s[i] != c
    decreases |s| - from
  {
    if from >= |s| then None
    else if s[from] == c then Some(from)
    else IndexFrom(s, from + 1, c)
  }

  lemma {:induction false} IndexFromIs(s: string, from: nat, c: char, q: nat)
    requires from <= q < |s| && s[q] == c && forall i :: from <= i < q ==> s[i] != c
    ensures IndexFrom(s, from, c) == Some(q)
    decreases q - from
  {
    if from < q {
      IndexFromIs(s, from + 1, c, q);
    }
  }

  function DigitValue(c: char, base: nat): (r: Option<nat>)
    ensures r.Some? ==> r.value < 16
  {
    if '0' <= c <= '9' then Some(c as int - '0' as int)
    else if base == 16 && 'a' <= c <= 'f' then Some(c as int - 'a' as int + 10)
    else if base == 16 && 'A' <= c <= 'F' then Some(c as int - 'A' as int + 10)
    else None
  }

  function Power(base: nat, k: nat): nat {
    if k == 0 then 1 else base * Power(base, k - 1)
  }

  /** The number the digits write, if they are all digits. */
  function Number(digits: string, base: nat): Option<nat> {
    if digits == "" then Some(0)
    else match Number(digits[1..], base)
      case None => None
      case Some(low) =>
        match DigitValue(digits[0], base)
        case None => None
        case Some(d) => Some(d * Power(base, |digits| - 1) + low)
  }

  /** What the reader scans backwards from position `q` to the nearest `mark`: the digits between. */
  function Backwards(s: string, q: nat, mark: char): (r: string)
    requires q <= |s| && exists i :: 0 <= i < q && s[i] == mark
    ensures |r| < q
    decreases q
  {
    if s[q - 1] == mark then "" else Backwards(s, q - 1, mark) + [s[q - 1]]
  }

  lemma {:induction false} BackwardsIs(s: string, m: nat, q: nat, mark: char)
    requires m < q <= |s| && s[m] == mark && forall i :: m < i < q ==> s[i] != mark
    ensures Backwards(s, q, mark) == s[m + 1..q]
    decreases q
  {
    if q - 1 > m {
      BackwardsIs(s, m, q - 1, mark);
      assert s[m + 1..q - 1] + [s[q - 1]] == s[m + 1..q];
    } else {
      assert s[m + 1..q] == "";
    }
  }

  lemma LastMark(s: string, from: nat, q: nat, mark: char) returns (m: nat)
    requires from <= q <= |s| && 0 < from && s[from - 1] == mark
    ensures from - 1 <= m < q && s[m] == mark && forall i :: m < i < q ==> s[i] != mark
  {
    m := from - 1;
    var i := from;
    while i < q
      invariant from <= i <= q && from - 1 <= m < i && s[m] == mark
      invariant forall j :: m < j < i ==> s[j] != mark
    {
      if s[i] == mark {
        m := i;
      }
      i := i + 1;
    }
  }

  datatype Step = Step(out: string, next: Option<string>)

  function Reference(s: string, from: nat, mark: char, base: nat): (r: Step)
    requires 0 < from <= |s| && s[from - 1] == mark
    ensures |r.out| <= 1 && (r.next.Some? ==> |r.next.value| < |s|)
  {
    match IndexFrom(s, from, ';')
    case None => Step("", None)
    case Some(q) =>
      match Number(Backwards(s, q, mark), base)
      case None => Step("", None)
      case Some(ucs) => Step([(ucs % 256) as char], Some(s[q + 1..]))
  }

  function GetEntity(s: string): (r: Step)
    requires s != ""
    ensures |r.out| <= 1 && (r.next.Some? ==> |r.next.value| < |s|)
  {
    if |s| >= 3 && s[1] == '#' then
      if s[2] == 'x' then
        if |s| == 3 then Step("", None) else Reference(s, 3, 'x', 16)
      else Reference(s, 2, '#', 10)
    else if "&amp;" <= s then Step("&", Some(s[5..]))
    else if "&lt;" <= s then Step("<", Some(s[4..]))
    else if "&gt;" <= s then Step(">", Some(s[4..]))
    else if "&quot;" <= s then Step("\"", Some(s[6..]))
    else if "&apos;" <= s then Step("\'", Some(s[6..]))
    else Step("", Some(s[1..]))
  }

  function GetChar(s: string): (r: Step)
    requires s != ""
    ensures |r.out| <= 1 && (r.next.Some? ==> |r.next.value| < |s|)
  {
    if s[0] == '&' then GetEntity(s) else Step([s[0]], Some(s[1..]))
  }

  /** An escaped character reads back as itself, whatever follows it. */
  lemma ReadEscaped(c: char, t: string)
    ensures var s := EscapeChar(c) + t; GetChar(s) == Step([c], Some(t))
    ensures EscapeChar(c)[0] != '<' && EscapeChar(c)[0] != '\"' && EscapeChar(c)[0] != '\''
    ensures IsWhiteSpace(EscapeChar(c)[0]) <==> c == ' '
  {
    var e := EscapeChar(c);
    var s := e + t;
    assert s[|e|..] == t;
    if c == '&' || c == '<' || c == '>' || c == '\"' || c == '\'' {
      assert s[0] == e[0] && s[1] == e[1] && s[2] == e[2];
      NamedEntity(s, c);
    } else if c as int < 32 {
      ReadHexEscape(c, t);
    }
  }

  lemma NamedEntity(s: string, c: char)
    requires c == '&' || c == '<' || c == '>' || c == '\"' || c == '\''
    requires EscapeChar(c) <= s && s != ""
    ensures GetEntity(s) == Step([c], Some(s[|EscapeChar(c)|..]))
  {
    var e := EscapeChar(c);
    assert s[0] == e[0] && s[1] == e[1] && s[2] == e[2];
    assert "&amp;" <= s ==> s[1] == "&amp;"[1] && s[2] == "&amp;"[2];
    assert "&lt;" <= s ==> s[1] == "&lt;"[1];
    assert "&gt;" <= s ==> s[1] == "&gt;"[1];
    assert "&quot;" <= s ==> s[1] == "&quot;"[1];
    assert "&apos;" <= s ==> s[1] == "&apos;"[1] && s[2] == "&apos;"[2];
  }

  lemma ReadHexEscape(c: char, t: string)
    requires c as int < 32
    ensures GetEntity(EscapeChar(c) + t) == Step([c], Some(t))
  {
    var s := EscapeChar(c) + t;
    var high, low := HexDigit(c as int / 16), HexDigit(c as int % 16);
    assert s[0] == '&' && s[1] == '#' && s[2] == 'x' && s[3] == high && s[4] == low && s[5] == ';';
    HexDigitValue(c as int / 16);
    HexDigitValue(c as int % 16);
    IndexFromIs(s, 3, ';', 5);
    assert Backwards(s, 3, 'x') == "";
    assert Backwards(s, 4, 'x') == [high];
    assert Backwards(s, 5, 'x') == [high, low];
    TwoDigits(high, low);
    assert s[6..] == t;
  }

  lemma HexDigitValue(d: nat)
    requires d < 16
    ensures DigitValue(HexDigit(d), 16) == Some(d) && HexDigit(d) != ';' && HexDigit(d) != 'x'
  {
  }

  lemma TwoDigits(high: char, low: char)
    requires DigitValue(high, 16).Some? && DigitValue(low, 16).Some?
    ensures Number([high, low], 16) == Some(DigitValue(high, 16).value * 16 + DigitValue(low, 16).value)
  {
    var digits := [high, low];
    assert digits[1..] == [low];
    OneDigit(low);
    assert Power(16, 1) == 16 * Power(16, 0);
  }

  lemma OneDigit(c: char)
    requires DigitValue(c, 16).Some?
    ensures Number([c], 16) == Some(DigitValue(c, 16).value)
  {
    assert [c][1..] == "";
  }

  // ---------------------------------------------------------------------------------------------
  // Reading an attribute value: white space is kept
  // ---------------------------------------------------------------------------------------------

  /** The text up to `endTag`, and where reading stops: at the tag, at the end of the text, or
      nowhere if a reference is malformed. */
  function ReadRaw(s: string, endTag: string): (r: Step)
    ensures r.next.Some? ==> |r.next.value| <= |s|
    decreases |s|
  {
    if s == "" || endTag <= s then Step("", Some(s))
    else
      var step := GetChar(s);
      match step.next
      case None => step
      case Some(t) => var rest := ReadRaw(t, endTag); Step(step.out + rest.out, rest.next)
  }

  predicate IsQuote(endTag: string) {
    endTag == "\"" || endTag == "\'"
  }

  /** A quoted value reads back unless it contains a reference that was passed through. */
  lemma {:induction false} RawReadsEscaped(v: string, quote: string, t: string)
    requires IsQuote(quote)
    ensures ReadRaw(EscapeAll(v) + quote + t, quote) == Step(v, Some(quote + t))
  {
    var s := EscapeAll(v) + quote + t;
    if v == "" {
      assert s == quote + t;
    } else {
      var rest := EscapeAll(v[1..]) + quote + t;
      assert s == EscapeChar(v[0]) + rest;
      ReadEscaped(v[0], rest);
      assert s[0] == EscapeChar(v[0])[0];
      RawReadsEscaped(v[1..], quote, t);
      assert [v[0]] + v[1..] == v;
    }
  }

  /** Where passing through stops: just before the next semicolon, or at the last character. */
  function PassLength(v: string): (k: nat)
    requires v != ""
    ensures k < |v| && (|v| > 1 ==> k > 0)
    ensures forall i :: 0 < i < k ==> v[i] != ';'
    ensures 0 < k ==> v[k] == ';' || k == |v| - 1
  {
    if |v| == 1 then 0 else if v[1] == ';' then 1 else 1 + PassLength(v[1..])
  }

  lemma {:induction false} PassIs(v: string)
    requires v != ""
    ensures Pass(v) == v[..PassLength(v)] + Put(v[PassLength(v)..])
  {
    var k := PassLength(v);
    if |v| == 1 {
      assert v[..0] == "" && v[0..] == v;
    } else if v[1] == ';' {
      assert v[..1] == [v[0]];
    } else {
      PassIs(v[1..]);
      PassJoin(v, PassLength(v[1..]));
    }
  }

  lemma PassJoin(v: string, k: nat)
    requires 0 < |v| && k < |v[1..]|
    ensures [v[0]] + (v[1..][..k] + Put(v[1..][k..])) == v[..k + 1] + Put(v[k + 1..])
  {
    assert v[1..][k..] == v[k + 1..];
    assert [v[0]] + v[1..][..k] == v[..k + 1];
  }

  /** Reading back never yields more characters than the value had, and fewer if it passed a
      reference through: each reference takes at least three characters and yields at most one. */
  lemma {:induction false} RawReadLength(v: string, quote: string)
    requires IsQuote(quote)
    ensures |ReadRaw(Put(v) + quote, quote).out| <= |v|
    ensures HasReference(v) ==> |ReadRaw(Put(v) + quote, quote).out| < |v|
    decreases |v|
  {
    var s := Put(v) + quote;
    if v == "" {
    } else if StartsReference(v) {
      var k := PassLength(v);
      if v[k] == ';' {
        RawReadLength(v[k + 1..], quote);
        ReferenceEnds(v, quote);
      } else {
        ReferenceRunsOut(v, quote);
      }
    } else {
      HasReferenceStep(v);
      var rest := Put(v[1..]) + quote;
      assert s == EscapeChar(v[0]) + rest;
      ReadEscaped(v[0], rest);
      assert s[0] == EscapeChar(v[0])[0];
      RawReadLength(v[1..], quote);
    }
  }

  predicate LooksLikeReference(s: string) {
    |s| > 3 && s[0] == '&' && s[1] == '#' && s[2] == 'x'
  }

  /** A reference up to its semicolon reads as at most one character, one without as none. */
  lemma ReferenceReads(s: string, quote: string)
    requires IsQuote(quote) && LooksLikeReference(s)
    ensures IndexFrom(s, 3, ';').None? ==> ReadRaw(s, quote).out == ""
    ensures IndexFrom(s, 3, ';').Some? ==>
      |ReadRaw(s, quote).out| <= 1 + |ReadRaw(s[IndexFrom(s, 3, ';').value + 1..], quote).out|
  {
    assert !(quote <= s);
    assert GetChar(s) == Reference(s, 3, 'x', 16);
  }

  /** A passed-through reference that ends at a semicolon reads as at most one character. */
  lemma ReferenceEnds(v: string, quote: string)
    requires IsQuote(quote) && StartsReference(v) && v[PassLength(v)] == ';'
    ensures var rest := ReadRaw(Put(v[PassLength(v) + 1..]) + quote, quote);
      |ReadRaw(Put(v) + quote, quote).out| <= 1 + |rest.out|
  {
    var k := PassLength(v);
    var after := Put(v[k + 1..]) + quote;
    PutEnds(v, quote);
    EndsLayout(v, k, after);
    ReferenceReads(v[..k] + [';'] + after, quote);
  }

  lemma PutEnds(v: string, quote: string)
    requires StartsReference(v) && v[PassLength(v)] == ';'
    ensures Put(v) + quote == v[..PassLength(v)] + [';'] + (Put(v[PassLength(v) + 1..]) + quote)
  {
    var k := PassLength(v);
    PassIs(v);
    PutSemicolon(v[k..]);
    assert v[k..][1..] == v[k + 1..];
    Regroup(v[..k], [';'], Put(v[k + 1..]), quote);
  }

  lemma Regroup(a: string, b: string, c: string, d: string)
    ensures (a + (b + c)) + d == a + b + (c + d)
  {
  }

  lemma PutSemicolon(v: string)
    requires v != "" && v[0] == ';'
    ensures Put(v) == [';'] + Put(v[1..])
  {
  }

  lemma EndsLayout(v: string, k: nat, after: string)
    requires StartsReference(v) && k == PassLength(v) && v[k] == ';'
    ensures var s := v[..k] + [';'] + after;
      LooksLikeReference(s) && IndexFrom(s, 3, ';') == Some(k) && s[k + 1..] == after
  {
    var s := v[..k] + [';'] + after;
    assert v[1] != ';' && v[2] != ';';
    assert s[1] == v[1] && s[2] == v[2];
    assert forall i :: 3 <= i < k ==> s[i] == v[i];
    IndexFromIs(s, 3, ';', k);
  }

  lemma EscapeSemicolon(c: char)
    requires c != ';'
    ensures var e := EscapeChar(c);
      || (|e| == 1 && e[0] != ';')
      || (|e| > 1 && e[|e| - 1] == ';' && forall i :: 0 <= i < |e| - 1 ==> e[i] != ';')
  {
    if c as int < 32 {
      HexDigitValue(c as int / 16);
      HexDigitValue(c as int % 16);
    }
  }

  /** One that runs to the end of the value swallows all of it. */
  lemma ReferenceRunsOut(v: string, quote: string)
    requires IsQuote(quote) && StartsReference(v) && v[PassLength(v)] != ';'
    ensures |ReadRaw(Put(v) + quote, quote).out| <= 1
  {
    var k := PassLength(v);
    PassIs(v);
    assert v[k..] == [v[k]];
    PutOne(v[k]);
    RunsOutLayout(v, quote);
    LastReference(v[..k] + EscapeChar(v[k]) + quote, quote);
  }

  lemma PutOne(c: char)
    ensures Put([c]) == EscapeChar(c)
  {
    assert [c][1..] == "" && EscapeChar(c) + "" == EscapeChar(c);
  }

  lemma LastReference(s: string, quote: string)
    requires IsQuote(quote) && LooksLikeReference(s)
    requires IndexFrom(s, 3, ';').Some? ==> IndexFrom(s, 3, ';').value == |s| - 2 && s[|s| - 1..] == quote
    ensures |ReadRaw(s, quote).out| <= 1
  {
    ReferenceReads(s, quote);
    assert ReadRaw(quote, quote).out == "";
  }

  lemma RunsOutLayout(v: string, quote: string)
    requires IsQuote(quote) && StartsReference(v) && v[PassLength(v)] != ';'
    ensures var s := v[..PassLength(v)] + EscapeChar(v[PassLength(v)]) + quote;
      && LooksLikeReference(s)
      && (IndexFrom(s, 3, ';').Some? ==> IndexFrom(s, 3, ';').value == |s| - 2 && s[|s| - 1..] == quote)
  {
    var k := PassLength(v);
    var e := EscapeChar(v[k]);
    var s := v[..k] + e + quote;
    assert v[1] == '#' && v[2] == 'x';
    EscapeSemicolon(v[k]);
    SingleEscape(v[k]);
    assert forall i :: 3 <= i < k ==> s[i] == v[i];
    assert forall i :: k <= i < |s| - 1 ==> s[i] == e[i - k];
    if |e| > 1 {
      assert s[|s| - 2] == e[|e| - 1];
      IndexFromIs(s, 3, ';', |s| - 2);
    } else {
      assert forall i :: 3 <= i < |s| ==> s[i] != ';';
    }
  }

  lemma SingleEscape(c: char)
    requires c != ';'
    ensures c == 'x' ==> EscapeChar(c) == [c]
  {
  }

  // ---------------------------------------------------------------------------------------------
  // Values whose references end inside them
  // ---------------------------------------------------------------------------------------------

  /** Every reference passed through ends at a semicolon of the value, with no zero on the way. */
  predicate Closed(v: string) {
    if v == "" then true
    else if StartsReference(v) then
      var k := PassLength(v);
      v[k] == ';' && '\0' !in v[..k] && Closed(v[k + 1..])
    else Closed(v[1..])
  }

  lemma {:induction false} NoReferenceIsClosed(v: string)
    requires !HasReference(v)
    ensures Closed(v)
  {
    if v != "" {
      HasReferenceStep(v);
      NoReferenceIsClosed(v[1..]);
    }
  }

  lemma NoZeroInEscape(c: char)
    ensures '\0' !in EscapeChar(c)
  {
    if c as int < 32 {
      var high, low := HexDigit(c as int / 16), HexDigit(c as int % 16);
      assert EscapeChar(c) == ['&', '#', 'x', high, low, ';'];
      assert high != '\0' && low != '\0';
    }
  }

  lemma {:induction false} NoZeroPut(v: string)
    requires Closed(v)
    ensures '\0' !in Put(v)
    decreases |v|
  {
    if v == "" {
    } else if StartsReference(v) {
      var k := PassLength(v);
      NoZeroPut(v[k + 1..]);
      PutEnds(v, "");
      assert Put(v) + "" == Put(v) && Put(v[k + 1..]) + "" == Put(v[k + 1..]);
    } else {
      NoZeroInEscape(v[0]);
      NoZeroPut(v[1..]);
    }
  }

  /** Reading such a reference fails, or gives one character and stops behind the semicolon. */
  lemma ClosedReference(v: string, after: string)
    requires StartsReference(v) && v[PassLength(v)] == ';'
    ensures var s := v[..PassLength(v)] + [';'] + after;
      && s != "" && s[0] == '&'
      && (GetChar(s).next == None || (GetChar(s).next == Some(after) && |GetChar(s).out| <= 1))
    ensures PassLength(v) >= 3
  {
    var k := PassLength(v);
    assert v[1] != ';' && v[2] != ';';
    EndsLayout(v, k, after);
    var s := v[..k] + [';'] + after;
    assert GetChar(s) == Reference(s, 3, 'x', 16);
  }

  /** What reading the closed value `v` in front of `t` comes to: it fails, or it stops at `t`, with fewer
      characters than the value had if it had a reference. */
  ghost predicate InStep(step: Step, v: string, t: string) {
    || step.next == None
    || (step.next == Some(t) && |step.out| <= |v| && (HasReference(v) ==> |step.out| < |v|))
  }

  lemma RawStep(s: string, quote: string)
    requires IsQuote(quote) && s != "" && s[0] != quote[0]
    ensures var step := GetChar(s);
      ReadRaw(s, quote) ==
        if step.next == None then step
        else Step(step.out + ReadRaw(step.next.value, quote).out, ReadRaw(step.next.value, quote).next)
  {
  }

  /** Reading stays in step with a closed value. */
  lemma {:induction false} RawReadsClosed(v: string, quote: string, t: string)
    requires IsQuote(quote) && Closed(v)
    ensures InStep(ReadRaw(Put(v) + (quote + t), quote), v, quote + t)
    decreases |v|
  {
    if v == "" {
      assert Put(v) + (quote + t) == quote + t;
    } else if StartsReference(v) {
      RawReadsClosed(v[PassLength(v) + 1..], quote, t);
      RawReadsReference(v, quote, quote + t);
    } else {
      RawReadsClosed(v[1..], quote, t);
      RawReadsFirst(v, quote, quote + t);
    }
  }

  lemma RawReadsReference(v: string, quote: string, z: string)
    requires IsQuote(quote) && StartsReference(v) && v[PassLength(v)] == ';'
    requires InStep(ReadRaw(Put(v[PassLength(v) + 1..]) + z, quote), v[PassLength(v) + 1..], z)
    ensures InStep(ReadRaw(Put(v) + z, quote), v, z)
  {
    var k := PassLength(v);
    var after := Put(v[k + 1..]) + z;
    PutEnds(v, z);
    ClosedReference(v, after);
    RawStep(v[..k] + [';'] + after, quote);
  }

  lemma RawReadsFirst(v: string, quote: string, z: string)
    requires IsQuote(quote) && v != "" && !StartsReference(v)
    requires InStep(ReadRaw(Put(v[1..]) + z, quote), v[1..], z)
    ensures InStep(ReadRaw(Put(v) + z, quote), v, z)
  {
    var rest := Put(v[1..]) + z;
    HasReferenceStep(v);
    FirstPut(v, z);
    ReadEscaped(v[0], rest);
    RawStep(EscapeChar(v[0]) + rest, quote);
  }

  lemma FirstPut(v: string, z: string)
    requires v != "" && !StartsReference(v)
    ensures Put(v) + z == EscapeChar(v[0]) + (Put(v[1..]) + z)
  {
    assert (EscapeChar(v[0]) + Put(v[1..])) + z == EscapeChar(v[0]) + (Put(v[1..]) + z);
  }

  /** A printed attribute value, between quotes of either kind, reads back as itself exactly when it
      contains nothing that looks like a hexadecimal character reference. */
  lemma ValueRoundTrip(v: string, quote: string)
    requires IsQuote(quote)
    ensures ReadRaw(Put(v) + quote, quote) == Step(v, Some(quote)) <==> !HasReference(v)
  {
    if HasReference(v) {
      RawReadLength(v, quote);
    } else {
      PutIsEscapeAll(v);
      RawReadsEscaped(v, quote, "");
      assert EscapeAll(v) + quote + "" == EscapeAll(v) + quote;
      assert quote + "" == quote;
    }
  }
}
