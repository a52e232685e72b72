/** What TinyXML accepts: whatever text an element was parsed from, it was one, tags closed and all. */
module XmlAccepted {
  import opened Options
  import opened XmlText
  import opened Xml
  import opened XmlRoundTrip

  predicate Suffix(t: string, s: string) {
    |t| <= |s| && s[|s| - |t|..] == t
  }

  lemma SuffixTrans(a: string, b: string, c: string)
    requires Suffix(a, b) && Suffix(b, c)
    ensures Suffix(a, c)
  {
    assert c[|c| - |b|..][|b| - |a|..] == c[|c| - |a|..];
  }

  lemma DropSuffix(s: string, k: nat)
    requires k <= |s|
    ensures Suffix(s[k..], s)
  {
  }

  /** What was read of `s` when `rest` is left. */
  function Consumed(s: string, rest: string): string
    requires Suffix(rest, s)
  {
    s[..|s| - |rest|]
  }

  predicate EndsWith(s: string, end: string) {
    |end| <= |s| && s[|s| - |end|..] == end
  }

  lemma {:induction false} SkipSuffix(s: string)
    ensures Suffix(Skip(s), s) && AllSpace(Consumed(s, Skip(s)))
  {
    if s != "" && IsWhiteSpace(s[0]) {
      SkipSuffix(s[1..]);
      DropSuffix(s, 1);
      SuffixTrans(Skip(s), s[1..], s);
      assert Consumed(s, Skip(s)) == [s[0]] + Consumed(s[1..], Skip(s));
    }
  }

  lemma {:induction false} NameSpanIs(s: string)
    ensures forall i :: 0 <= i < NameSpan(s) ==> IsNameChar(s[i])
  {
    if s != "" && IsNameChar(s[0]) {
      NameSpanIs(s[1..]);
      forall i | 0 <= i < NameSpan(s) ensures IsNameChar(s[i]) {
        assert i > 0 ==> s[i] == s[1..][i - 1];
      }
    }
  }

  /** A name read is what stands there. */
  lemma NameRead(s: string)
    requires ReadName(s).Done?
    ensures ReadableName(ReadName(s).value) && s == ReadName(s).value + ReadName(s).rest && Suffix(ReadName(s).rest, s)
  {
    NameSpanIs(s);
    var k := NameSpan(s);
    assert s == s[..k] + s[k..];
    forall c | c in s[..k] ensures IsNameChar(c) {
      var i :| 0 <= i < k && s[..k][i] == c;
      assert c == s[i];
    }
    assert k > 0 && s[..k][0] == s[0];
  }

  lemma GetCharSuffix(s: string)
    requires s != "" && GetChar(s).next.Some?
    ensures Suffix(GetChar(s).next.value, s)
  {
    var t := GetChar(s).next.value;
    if s[0] == '&' {
      EntitySuffix(s);
    }
  }

  lemma EntitySuffix(s: string)
    requires s != "" && GetEntity(s).next.Some?
    ensures Suffix(GetEntity(s).next.value, s)
  {
  }

  lemma {:induction false} RawSuffix(s: string, end: string)
    requires ReadRaw(s, end).next.Some?
    ensures Suffix(ReadRaw(s, end).next.value, s)
    ensures ReadRaw(s, end).next.value == "" || end <= ReadRaw(s, end).next.value
    decreases |s|
  {
    if s != "" && !(end <= s) {
      GetCharSuffix(s);
      var t := GetChar(s).next.value;
      RawSuffix(t, end);
      SuffixTrans(ReadRaw(t, end).next.value, t, s);
    }
  }

  lemma {:induction false} BareSuffix(s: string)
    requires ReadBare(s).Done?
    ensures Suffix(ReadBare(s).rest, s)
  {
    if s != "" && !(IsWhiteSpace(s[0]) || s[0] == '/' || s[0] == '>') {
      BareSuffix(s[1..]);
      DropSuffix(s, 1);
      SuffixTrans(ReadBare(s).rest, s[1..], s);
    }
  }

  /** A quoted value that is read, in text that goes on behind it, ends at its own quote. */
  lemma QuotedEnds(s: string, quote: string)
    requires IsQuote(quote) && ReadQuoted(s, quote).Done?
    ensures var rest := ReadQuoted(s, quote).rest;
      Suffix(rest, s) && (rest != "" ==> EndsWith(Consumed(s, rest), quote))
  {
    var at := ReadRaw(s, quote).next.value;
    RawSuffix(s, quote);
    if quote <= at {
      DropSuffix(at, 1);
      SuffixTrans(at[1..], at, s);
      assert s[|s| - |at|..][0] == quote[0];
      assert Consumed(s, at[1..]) == s[..|s| - |at|] + quote;
    }
  }

  /** A value is read up to the quote it began with, or up to white space or the end of the tag. */
  predicate ValueTaken(text: string) {
    || (|text| >= 2 && (text[0] == '\"' || text[0] == '\'') && text[|text| - 1] == text[0])
    || (text == "" || (text[0] != '\"' && text[0] != '\''))
  }

  lemma ValueRead(s: string)
    requires ReadAttributeValue(s).Done?
    ensures var rest := ReadAttributeValue(s).rest; Suffix(rest, s) && (rest != "" ==> ValueTaken(Consumed(s, rest)))
  {
    var rest := ReadAttributeValue(s).rest;
    if s[0] == '\'' || s[0] == '\"' {
      var quote := if s[0] == '\'' then "\'" else "\"";
      QuotedEnds(s[1..], quote);
      DropSuffix(s, 1);
      SuffixTrans(rest, s[1..], s);
      assert Consumed(s, rest) == [s[0]] + Consumed(s[1..], rest);
    } else {
      BareSuffix(s);
    }
  }

  /** An attribute read is a name, an equals sign and a value, with nothing but white space between. */
  lemma AttributeRead(s: string) returns (gap0: string, gap1: string, gap2: string, text: string)
    requires ParseAttribute(s).Done? && ParseAttribute(s).rest != ""
    ensures AllSpace(gap0) && AllSpace(gap1) && AllSpace(gap2) && ReadableName(ParseAttribute(s).value.name) && ValueTaken(text)
    ensures s == gap0 + (ParseAttribute(s).value.name + (gap1 + ("=" + (gap2 + (text + ParseAttribute(s).rest)))))
  {
    var name := ReadName(Skip(s));
    gap0 := SpaceRead(s);
    NameRead(Skip(s));
    gap1 := SpaceRead(name.rest);
    var p := Skip(name.rest);
    gap2 := SpaceRead(p[1..]);
    var v := Skip(p[1..]);
    ValueRead(v);
    text := Consumed(v, ParseAttribute(s).rest);
    assert v == text + ParseAttribute(s).rest;
    assert p == "=" + p[1..];
  }

  lemma SpaceRead(s: string) returns (gap: string)
    ensures AllSpace(gap) && s == gap + Skip(s)
  {
    SkipSuffix(s);
    gap := Consumed(s, Skip(s));
  }

  lemma AttributeSuffix(s: string)
    requires ParseAttribute(s).Done?
    ensures Suffix(ParseAttribute(s).rest, s)
  {
    var name := ReadName(Skip(s));
    var p := Skip(name.rest);
    SkipSuffix(s);
    NameRead(Skip(s));
    SkipSuffix(name.rest);
    SkipSuffix(p[1..]);
    ValueRead(Skip(p[1..]));
    DropSuffix(p, 1);
    var rest := ParseAttribute(s).rest;
    SuffixTrans(rest, Skip(p[1..]), p[1..]);
    SuffixTrans(rest, p[1..], p);
    SuffixTrans(rest, p, name.rest);
    SuffixTrans(rest, name.rest, Skip(s));
    SuffixTrans(rest, Skip(s), s);
  }

  lemma {:induction false} CollapseSuffix(s: string, pending: bool)
    requires Collapse(s, pending).next.Some?
    ensures Suffix(Collapse(s, pending).next.value, s)
    decreases |s|
  {
    if s != "" && s[0] != '<' {
      var rest := Collapse(s, pending).next.value;
      if IsWhiteSpace(s[0]) {
        CollapseSuffix(s[1..], true);
        DropSuffix(s, 1);
        SuffixTrans(rest, s[1..], s);
      } else {
        GetCharSuffix(s);
        CollapseSuffix(GetChar(s).next.value, false);
        SuffixTrans(rest, GetChar(s).next.value, s);
      }
    }
  }

  // ---------------------------------------------------------------------------------------------
  // Elements
  // ---------------------------------------------------------------------------------------------

  /** How the text an element was read from ends. */
  ghost predicate Ends(s: string, name: string, rest: string) {
    && Suffix(rest, s)
    && (EndsWith(Consumed(s, rest), "/>") || EndsWith(Consumed(s, rest), EndTag(name)))
  }

  lemma EndsFurther(s: string, p: string, name: string, rest: string)
    requires Suffix(p, s) && Ends(p, name, rest)
    ensures Ends(s, name, rest)
  {
    SuffixTrans(rest, p, s);
    assert Consumed(s, rest) == s[..|s| - |p|] + Consumed(p, rest);
  }

  /** After the name: what is read ends with the end of an empty tag or with the end tag of the same name. */
  lemma {:induction false} AttributesEnd(s: string, name: string, read: seq<Attribute>)
    requires s != "" && ParseAttributes(s, name, read).Done? && UniqueNames(read)
    ensures var r := ParseAttributes(s, name, read);
      r.value.Element? && r.value.name == name && Ends(s, name, r.rest) && UniqueNames(r.value.attributes)
    decreases |s|, 0
  {
    var p := Skip(s);
    var r := ParseAttributes(s, name, read);
    SkipSuffix(s);
    if p[0] == '/' {
      DropSuffix(p, 2);
      assert Consumed(p, p[2..]) == p[..2] == "/>";
      EndsFurther(s, p, name, r.rest);
    } else if p[0] == '>' {
      ContentSuffix(p[1..], []);
      var q := ParseContent(p[1..], []).rest;
      DropSuffix(p, 1);
      SuffixTrans(q, p[1..], p);
      EndTagRead(p, q, name);
      EndsFurther(s, p, name, r.rest);
    } else {
      var a := ParseAttribute(p);
      AttributeSuffix(p);
      OneMoreName(read, a.value);
      AttributesEnd(a.rest, name, read + [a.value]);
      SuffixTrans(a.rest, p, s);
      EndsFurther(s, a.rest, name, r.rest);
    }
  }

  lemma EndTagRead(p: string, q: string, name: string)
    requires Suffix(q, p) && EndTag(name) <= q
    ensures Drop(q, |name| + 3) == q[|name| + 3..] && Ends(p, name, q[|name| + 3..])
  {
    var rest := q[|EndTag(name)|..];
    DropSuffix(q, |EndTag(name)|);
    SuffixTrans(rest, q, p);
    assert q == EndTag(name) + rest;
    assert Consumed(p, rest) == p[..|p| - |q|] + EndTag(name);
  }

  lemma OneMoreName(read: seq<Attribute>, a: Attribute)
    requires UniqueNames(read) && !HasName(read, a.name)
    ensures UniqueNames(read + [a])
  {
  }

  lemma {:induction false} ContentSuffix(s: string, read: seq<Node>)
    requires ParseContent(s, read).Done?
    ensures Suffix(ParseContent(s, read).rest, s)
    decreases |s|, 3
  {
    var p := Skip(s);
    var rest := ParseContent(s, read).rest;
    SkipSuffix(s);
    if p[0] != '<' {
      var step := Collapse(p, false);
      CollapseSuffix(p, false);
      ContentSuffix(step.next.value, if Blank(step.out) then read else read + [Text(step.out)]);
      SuffixTrans(rest, step.next.value, p);
    } else if !("</" <= p) {
      MarkupSuffix(p);
      ContentSuffix(ParseMarkup(p).rest, read + [ParseMarkup(p).value]);
      SuffixTrans(rest, ParseMarkup(p).rest, p);
    }
    SuffixTrans(rest, p, s);
  }

  lemma {:induction false} MarkupSuffix(s: string)
    requires s != "" && s[0] == '<' && ParseMarkup(s).Done?
    ensures Suffix(ParseMarkup(s).rest, s)
    decreases |s|, 2
  {
    if "<![CDATA[" <= s {
      var body := s[9..];
      var k := UntilCDataEnd(body);
      DropSuffix(s, 9);
      DropSuffix(body, k);
      SuffixTrans(body[k..], body, s);
      if |body[k..]| >= 3 {
        DropSuffix(body[k..], 3);
        SuffixTrans(Drop(body[k..], 3), body[k..], s);
      }
    } else {
      ElementAccepted(s);
    }
  }

  /** Any element that is accepted was a `<`, its name, what `ParseAttributes` reads, and an end: that of an
      empty tag or an end tag of its own name. Its attributes have different names. */
  lemma {:induction false} ElementAccepted(s: string)
    requires ParseElement(s).Done?
    ensures var r := ParseElement(s);
      && r.value.Element? && ReadableName(r.value.name) && UniqueNames(r.value.attributes)
      && Ends(s, r.value.name, r.rest)
      && Skip(s) != "" && Skip(s)[0] == '<' && r.value.name <= Skip(Skip(s)[1..])
    decreases |s|, 1
  {
    var tag := TagRead(s);
    var name := ReadName(tag);
    AttributesEnd(name.rest, name.value, []);
    EndsFurther(s, name.rest, name.value, ParseElement(s).rest);
  }

  lemma TagRead(s: string) returns (tag: string)
    requires ParseElement(s).Done?
    ensures Skip(s) != "" && Skip(s)[0] == '<' && tag == Skip(Skip(s)[1..])
    ensures ReadName(tag).Done? && ReadName(tag).rest != "" && ReadableName(ReadName(tag).value) && ReadName(tag).value <= tag
    ensures Suffix(ReadName(tag).rest, s) && |ReadName(tag).rest| < |s|
    ensures ParseElement(s) == ParseAttributes(ReadName(tag).rest, ReadName(tag).value, [])
  {
    var p := Skip(s);
    tag := Skip(p[1..]);
    NameRead(tag);
    SkipSuffix(s);
    SkipSuffix(p[1..]);
    DropSuffix(p, 1);
    SuffixTrans(tag, p[1..], p);
    SuffixTrans(tag, p, s);
    SuffixTrans(ReadName(tag).rest, tag, s);
  }
}
