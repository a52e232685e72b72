/** Exactly which trees come back from print and parse. */
module XmlExact {
  import opened Options
  import opened XmlText
  import opened Xml
  import opened XmlRoundTrip

  /** Trees of names the parser reads, whose references end inside their values. Attribute names may
      clash, CDATA may hold its own end mark, and texts may be spaced and split in any way. */
  predicate Regular(n: Node) {
    match n
    case Text(v) => Closed(v)
    case CData(_) => true
    case Element(name, attributes, children) =>
      && ReadableName(name)
      && (forall a :: a in attributes ==> RegularAttribute(a))
      && (forall child :: child in children ==> Regular(child))
  }

  predicate RegularAttribute(a: Attribute) {
    ReadableName(a.name) && Closed(a.value)
  }

  // ---------------------------------------------------------------------------------------------
  // Parsing only adds to what was read
  // ---------------------------------------------------------------------------------------------

  lemma {:induction false} AttributesGrow(s: string, name: string, read: seq<Attribute>)
    requires ParseAttributes(s, name, read).Done?
    ensures var n := ParseAttributes(s, name, read).value; n.Element? && n.name == name && read <= n.attributes
    decreases |s|
  {
    var p := Skip(s);
    if s != "" && p != "" && p[0] != '/' && p[0] != '>' {
      var a := ParseAttribute(p);
      AttributesGrow(a.rest, name, read + [a.value]);
    }
  }

  lemma MarkupIsNoText(s: string)
    requires s != "" && s[0] == '<' && ParseMarkup(s).Done?
    ensures !ParseMarkup(s).value.Text?
  {
    if !("<![CDATA[" <= s) {
      var name := ReadName(Skip(Skip(s)[1..]));
      AttributesGrow(name.rest, name.value, []);
    }
  }

  lemma {:induction false} ContentGrows(s: string, read: seq<Node>)
    requires ParseContent(s, read).Done?
    ensures read <= ParseContent(s, read).value
    decreases |s|
  {
    var p := Skip(s);
    if p[0] != '<' {
      var step := Collapse(p, false);
      ContentGrows(step.next.value, if Blank(step.out) then read else read + [Text(step.out)]);
    } else if !("</" <= p) {
      var node := ParseMarkup(p);
      ContentGrows(node.rest, read + [node.value]);
    }
  }

  /** At a tag the next child is no text. */
  lemma NoTextAtTag(s: string, read: seq<Node>)
    requires ParseContent(s, read).Done? && (s == "" || s[0] == '<')
    ensures var all := ParseContent(s, read).value; |all| > |read| ==> !all[|read|].Text?
  {
    if s != "" {
      StartsHere(s);
      if !("</" <= s) {
        var node := ParseMarkup(s);
        MarkupIsNoText(s);
        ContentGrows(node.rest, read + [node.value]);
      }
    }
  }

  lemma {:induction false} CollapseStops(s: string, pending: bool)
    ensures var step := Collapse(s, pending); step.next.Some? ==> step.next.value == "" || step.next.value[0] == '<'
    decreases |s|
  {
    if s != "" && s[0] != '<' {
      if IsWhiteSpace(s[0]) {
        CollapseStops(s[1..], true);
      } else if GetChar(s).next.Some? {
        CollapseStops(GetChar(s).next.value, false);
      }
    }
  }

  /** Where a text was read it is the text up to the next tag, and what comes next is no text. */
  lemma TextWasRead(s: string, read: seq<Node>)
    requires ParseContent(s, read).Done?
    requires var all := ParseContent(s, read).value; |all| > |read| && all[|read|].Text?
    ensures var all, p := ParseContent(s, read).value, Skip(s);
      && p != "" && p[0] != '<'
      && Collapse(p, false).out == all[|read|].value && Collapse(p, false).next.Some?
      && ParseContent(Collapse(p, false).next.value, read + [all[|read|]]) == ParseContent(s, read)
      && (|all| > |read| + 1 ==> !all[|read| + 1].Text?)
  {
    var p := Skip(s);
    StartsHere(p);
    ContentSkips(s, p, read);
    if p[0] == '<' {
      NoTextAtTag(p, read);
    } else {
      var step := Collapse(p, false);
      var next := if Blank(step.out) then read else read + [Text(step.out)];
      CollapseStops(p, false);
      NoTextAtTag(step.next.value, next);
      ContentGrows(step.next.value, next);
    }
  }

  // ---------------------------------------------------------------------------------------------
  // Values
  // ---------------------------------------------------------------------------------------------

  lemma {:induction false} ClosedPrints(v: string)
    requires Closed(v)
    ensures CString(Put(v)) == Put(v)
  {
    NoZeroPut(v);
    CStringExactly(Put(v));
  }

  /** A printed attribute with a reference in it does not read back. */
  lemma AttributeLoses(a: Attribute, t: string)
    requires RegularAttribute(a) && HasReference(a.value)
    ensures ParseAttribute(PrintAttribute(a) + t).Done? ==> ParseAttribute(PrintAttribute(a) + t).value != a
    ensures IsNameStart((PrintAttribute(a) + t)[0])
  {
    var quote := if '\"' in a.value then "\'" else "\"";
    var value := quote + (Put(a.value) + (quote + t));
    NamePrints(a.name);
    ClosedPrints(a.value);
    RegroupQuoted(a.name, quote, Put(a.value), t);
    assert value[1..] == Put(a.value) + (quote + t);
    RawReadsClosed(a.value, quote, t);
    NameThenValue(a.name, value);
  }

  lemma RegroupQuoted(name: string, quote: string, value: string, t: string)
    ensures (name + "=" + quote + value + quote) + t == name + ("=" + (quote + (value + (quote + t))))
  {
  }

  lemma NameThenValue(name: string, value: string)
    requires ReadableName(name) && value != "" && !IsWhiteSpace(value[0])
    ensures var s := name + ("=" + value);
      && IsNameStart(s[0])
      && (ParseAttribute(s).Done? ==>
        ReadAttributeValue(value).Done? && ParseAttribute(s).value == Attribute(name, ReadAttributeValue(value).value))
  {
    var s := name + ("=" + value);
    NameStartIsNotSpace(name[0]);
    StartsHere(s);
    NameParses(name, "=" + value);
    StartsHere("=" + value);
    assert ("=" + value)[1..] == value;
    StartsHere(value);
  }

  /** The same with the white space before a tag: as much as was there, and one more for a pending space. */
  ghost predicate InStepFrom(pending: bool, step: Step, v: string, t: string) {
    var most := |v| + if pending then 1 else 0;
    || step.next == None
    || (step.next == Some(t) && |step.out| <= most && (HasReference(v) ==> |step.out| < most))
  }

  lemma {:induction false} CollapseClosed(v: string, ws: string, t: string, pending: bool)
    requires Closed(v) && AllSpace(ws) && t != "" && t[0] == '<'
    ensures InStepFrom(pending, Collapse(Put(v) + (ws + t), pending), v, t)
    decreases |v|
  {
    if v == "" {
      assert Put(v) + (ws + t) == ws + t;
      CollapseSpace(ws, t, pending);
    } else if StartsReference(v) {
      CollapseClosed(v[PassLength(v) + 1..], ws, t, false);
      CollapseReference(v, ws + t, t, pending);
    } else {
      CollapseClosed(v[1..], ws, t, v[0] == ' ');
      CollapseFirst(v, ws + t, t, pending);
    }
  }

  lemma CollapseReference(v: string, z: string, t: string, pending: bool)
    requires StartsReference(v) && v[PassLength(v)] == ';'
    requires InStepFrom(false, Collapse(Put(v[PassLength(v) + 1..]) + z, false), v[PassLength(v) + 1..], t)
    ensures InStepFrom(pending, Collapse(Put(v) + z, pending), v, t)
  {
    var k := PassLength(v);
    var after := Put(v[k + 1..]) + z;
    PutEnds(v, z);
    ClosedReference(v, after);
    CollapseStep(v[..k] + [';'] + after, pending);
  }

  lemma CollapseStep(s: string, pending: bool)
    requires s != "" && s[0] != '<' && !IsWhiteSpace(s[0])
    ensures var step, before := GetChar(s), if pending then " " else "";
      Collapse(s, pending) ==
        if step.next == None then Step(before + step.out, None)
        else Step((before + step.out) + Collapse(step.next.value, false).out, Collapse(step.next.value, false).next)
  {
  }

  lemma CollapseFirst(v: string, z: string, t: string, pending: bool)
    requires v != "" && !StartsReference(v)
    requires InStepFrom(v[0] == ' ', Collapse(Put(v[1..]) + z, v[0] == ' '), v[1..], t)
    ensures InStepFrom(pending, Collapse(Put(v) + z, pending), v, t)
  {
    var rest := Put(v[1..]) + z;
    var s := EscapeChar(v[0]) + rest;
    HasReferenceStep(v);
    FirstPut(v, z);
    ReadEscaped(v[0], rest);
    if v[0] == ' ' {
      assert s[1..] == rest;
    } else {
      CollapseStep(s, pending);
    }
  }

  /** The white space in front of a value. */
  lemma {:induction false} SkipClosed(v: string, z: string)
    requires Closed(v)
    ensures DropSpaces(v) == "" ==> Skip(Put(v) + z) == Skip(z)
    ensures DropSpaces(v) != "" ==> Skip(Put(v) + z) == Put(DropSpaces(v)) + z
    ensures Closed(DropSpaces(v)) && |DropSpaces(v)| <= |v|
    ensures DropSpaces(v) == v || |DropSpaces(v)| < |v|
  {
    if v == "" {
      assert Put(v) + z == z;
    } else if v[0] == ' ' {
      FirstPut(v, z);
      assert (EscapeChar(v[0]) + (Put(v[1..]) + z))[1..] == Put(v[1..]) + z;
      SkipClosed(v[1..], z);
    } else {
      StartsDark(v, z);
    }
  }

  lemma StartsDark(v: string, z: string)
    requires v != "" && v[0] != ' '
    ensures Skip(Put(v) + z) == Put(v) + z
  {
    if StartsReference(v) {
      PassIs(v);
    } else {
      FirstPut(v, z);
      ReadEscaped(v[0], Put(v[1..]) + z);
    }
  }

  // ---------------------------------------------------------------------------------------------
  // Elements
  // ---------------------------------------------------------------------------------------------

  /** Whatever comes of the rest, attributes that read back hold no references and have different names. */
  lemma {:induction false} AttributesOnly(attributes: seq<Attribute>, t: string, name: string, read: seq<Attribute>)
    requires (forall a :: a in attributes ==> RegularAttribute(a)) && UniqueNames(read) && t != ""
    requires var r := ParseAttributes(PrintAttributes(attributes) + t, name, read);
      r.Done? && r.value.Element? && r.value.attributes == read + attributes
    ensures UniqueNames(read + attributes) && forall a :: a in attributes ==> PrintableAttribute(a)
    decreases attributes
  {
    if attributes == [] {
      assert read + attributes == read;
    } else {
      FirstAttributeOnly(attributes, t, name, read);
      MoveFirst(read, attributes);
      AttributesOnly(attributes[1..], t, name, read + [attributes[0]]);
    }
  }

  lemma FirstAttributeOnly(attributes: seq<Attribute>, t: string, name: string, read: seq<Attribute>)
    requires attributes != [] && RegularAttribute(attributes[0]) && UniqueNames(read) && t != ""
    requires var r := ParseAttributes(PrintAttributes(attributes) + t, name, read);
      r.Done? && r.value.Element? && r.value.attributes == read + attributes
    ensures PrintableAttribute(attributes[0]) && UniqueNames(read + [attributes[0]])
    ensures ParseAttributes(PrintAttributes(attributes) + t, name, read) ==
      ParseAttributes(PrintAttributes(attributes[1..]) + t, name, read + [attributes[0]])
  {
    var a, rest := attributes[0], PrintAttributes(attributes[1..]) + t;
    var p := PrintAttribute(a) + rest;
    RegroupAttributes(PrintAttribute(a), PrintAttributes(attributes[1..]), t);
    if HasReference(a.value) {
      AttributeLoses(a, rest);
    } else {
      AttributeParses(a, rest);
    }
    AttributeAdds(p, name, read);
    assert (read + attributes)[|read|] == a;
  }

  /** A tag that goes on with an attribute. */
  lemma AttributeAdds(p: string, name: string, read: seq<Attribute>)
    requires p != "" && IsNameStart(p[0]) && ParseAttributes(" " + p, name, read).Done?
    ensures var a := ParseAttribute(p);
      && a.Done? && !HasName(read, a.value.name)
      && ParseAttributes(" " + p, name, read) == ParseAttributes(a.rest, name, read + [a.value])
      && ParseAttributes(a.rest, name, read + [a.value]).value.Element?
      && read + [a.value] <= ParseAttributes(a.rest, name, read + [a.value]).value.attributes
  {
    NameStartIsNotSpace(p[0]);
    assert (" " + p)[1..] == p;
    StartsHere(p);
    AttributesGrow(ParseAttribute(p).rest, name, read + [ParseAttribute(p).value]);
  }

  /** The white space before a tag. */
  ghost predicate BeforeTag(more: string, ws: string, t: string) {
    more == ws + t && AllSpace(ws) && t != "" && t[0] == '<'
  }

  /** A text in front of a tag that reads back holds no reference and has no text after it. */
  lemma TextOnly(v: string, more: string, ws: string, t: string, read: seq<Node>)
    requires Closed(v) && BeforeTag(more, ws, t)
    requires var r := ParseContent(Put(v) + more, read); r.Done? && read + [Text(v)] <= r.value
    ensures !HasReference(v)
    ensures ParseContent(Put(v) + more, read) == ParseContent(more, read + [Text(v)])
  {
    var s := Put(v) + more;
    var all := ParseContent(s, read).value;
    assert all[|read|] == Text(v);
    TextWasRead(s, read);
    SkipClosed(v, more);
    SkipSpace(ws, t);
    StartsHere(t);
    CollapseClosed(DropSpaces(v), ws, t, false);
    ContentSkips(more, t, read + [Text(v)]);
  }

  /** Printed children that do not start with a text start with white space and a tag. */
  lemma NoTextStart(children: seq<Node>, depth: nat, ws: string, t: string) returns (ws': string, t': string)
    requires AllSpace(ws) && "</" <= t && (children == [] || !children[0].Text?)
    ensures BeforeTag(PrintChildren(children, depth) + (ws + t), ws', t')
  {
    if children == [] {
      ws', t' := ws, t;
      assert PrintChildren(children, depth) + (ws + t) == ws + t;
    } else {
      var more := PrintChildren(children[1..], depth) + (ws + t);
      ws' := "\n" + Indent(depth);
      IndentIsSpace(depth);
      ChildrenLayout("", children, depth, ws + t);
      EscapeNothing(PrintChildren(children, depth) + (ws + t));
      EscapeNothing(if children[0].Element? then ws' + (Print(children[0], depth) + more) else Print(children[0], depth) + more);
      if children[0].Element? {
        t' := Print(children[0], depth) + more;
      } else {
        t' := "<![CDATA[" + CString(children[0].value) + "]]>" + ("\n" + more);
        CDataAnyLayout(children[0].value, depth, more);
      }
    }
  }

  lemma EscapeNothing(s: string)
    ensures EscapeAll("") + s == s
  {
  }

  lemma CDataAnyLayout(v: string, depth: nat, more: string)
    ensures Print(CData(v), depth) + more == ("\n" + Indent(depth)) + ("<![CDATA[" + CString(v) + "]]>" + ("\n" + more))
  {
  }

  lemma {:induction false} CDataCut(w: string, i: nat, tail: string)
    requires i <= |w| && "]]>" <= w[i..]
    ensures UntilCDataEnd(w + tail) <= i
    decreases i
  {
    if i == 0 {
      assert (w + tail)[..3] == w[..3];
    } else {
      assert (w + tail)[1..] == w[1..] + tail && w[1..][i - 1..] == w[i..];
      CDataCut(w[1..], i - 1, tail);
    }
  }

  /** A CDATA section that is read as `v` holds no end mark. */
  lemma CDataWhole(w: string, t: string, v: string)
    requires |w| <= |v|
    requires var p := "<![CDATA[" + w + "]]>" + t; "<![CDATA[" <= p && ParseCData(p).value == CData(v)
    ensures w == v && !HasCDataEnd(v)
  {
    var p, body := "<![CDATA[" + w + "]]>" + t, w + ("]]>" + t);
    assert p[9..] == body;
    assert |v| == UntilCDataEnd(body) && body[..|v|] == v;
    if HasCDataEnd(w) {
      var i :| 0 <= i <= |w| && "]]>" <= w[i..];
      CDataCut(w, i, "]]>" + t);
    } else {
      CDataSpan(w, t);
      assert w + "]]>" + t == body && body[..|w|] == w;
    }
  }

  /** A CDATA section reads back only without its end mark and without a zero. */
  lemma CDataOnly(v: string, depth: nat, more: string, read: seq<Node>)
    requires var r := ParseContent(Print(CData(v), depth) + more, read); r.Done? && read + [CData(v)] <= r.value
    ensures Printable(CData(v))
  {
    var p := "<![CDATA[" + CString(v) + "]]>" + ("\n" + more);
    CDataAnyLayout(v, depth, more);
    CDataMarkup(p, CString(v), "\n" + more);
    IndentIsSpace(depth);
    SkipSpace("\n" + Indent(depth), p);
    ContentSkips(("\n" + Indent(depth)) + p, p, read);
    MarkupOnly(p, CData(v), read);
    CStringExactly(v);
    CDataWhole(CString(v), "\n" + more, v);
  }

  lemma CDataMarkup(p: string, w: string, t: string)
    requires p == "<![CDATA[" + w + "]]>" + t
    ensures "<![CDATA[" <= p && p[0] == '<' && !("</" <= p) && ParseMarkup(p) == ParseCData(p)
  {
    assert p[..9] == "<![CDATA[" && p[1] == '!';
  }

  /** A child that is no text is what its markup is parsed as. */
  lemma MarkupOnly(p: string, n: Node, read: seq<Node>)
    requires p != "" && p[0] == '<' && !("</" <= p)
    requires ParseContent(p, read).Done? && read + [n] <= ParseContent(p, read).value
    ensures ParseMarkup(p).Done? && ParseMarkup(p).value == n
    ensures ParseContent(p, read) == ParseContent(ParseMarkup(p).rest, read + [n])
  {
    StartsHere(p);
    ContentGrows(ParseMarkup(p).rest, read + [ParseMarkup(p).value]);
    assert ParseContent(p, read).value[|read|] == n;
  }

  /** An element among the children is what its own text is parsed as. */
  lemma ElementOnly(n: Node, depth: nat, more: string, read: seq<Node>)
    requires n.Element? && Regular(n)
    requires var r := ParseContent(("\n" + Indent(depth)) + (Print(n, depth) + more), read);
      r.Done? && read + [n] <= r.value
    ensures var r := ParseElement(Print(n, depth) + more); r.Done? && r.value == n
    ensures ParseContent(("\n" + Indent(depth)) + (Print(n, depth) + more), read) ==
      ParseContent(ParseElement(Print(n, depth) + more).rest, read + [n])
  {
    var p := Print(n, depth) + more;
    NamePrints(n.name);
    assert p[0] == '<' && p[1] == n.name[0];
    NameStartIsNotSpace(p[1]);
    IndentIsSpace(depth);
    SkipSpace("\n" + Indent(depth), p);
    ContentSkips(("\n" + Indent(depth)) + p, p, read);
    MarkupOnly(p, n, read);
    assert !("<![CDATA[" <= p);
  }

  lemma ContentOnly(name: string, attributes: seq<Attribute>, body: string)
    requires ParseAttributes(">" + body, name, attributes).Done?
    ensures var r := ParseContent(body, []);
      r.Done? && ParseAttributes(">" + body, name, attributes).value == Element(name, attributes, r.value)
  {
    StartsHere(">" + body);
    assert (">" + body)[1..] == body;
  }

  /** Children that read back are printable. */
  lemma ChildrenOnly(children: seq<Node>, depth: nat, ws: string, t: string, read: seq<Node>)
    requires AllSpace(ws) && "</" <= t && forall child :: child in children ==> Regular(child)
    requires var r := ParseContent(PrintChildren(children, depth) + (ws + t), read); r.Done? && r.value == read + children
    ensures forall child :: child in children ==> Printable(child)
    decreases children, 1
  {
    if children != [] {
      var first, rest := children[0], children[1..];
      assert first in children;
      FirstChildOnly(children, depth, ws, t, read);
      assert read + children == (read + [first]) + rest;
      ChildrenOnly(rest, depth, ws, t, read + [first]);
    }
  }

  lemma FirstChildOnly(children: seq<Node>, depth: nat, ws: string, t: string, read: seq<Node>)
    requires children != [] && AllSpace(ws) && "</" <= t && Regular(children[0])
    requires var r := ParseContent(PrintChildren(children, depth) + (ws + t), read); r.Done? && r.value == read + children
    ensures Printable(children[0])
    ensures ParseContent(PrintChildren(children, depth) + (ws + t), read) ==
      ParseContent(PrintChildren(children[1..], depth) + (ws + t), read + [children[0]])
    decreases children, 0
  {
    var first, rest := children[0], children[1..];
    var more := PrintChildren(rest, depth) + (ws + t);
    ChildrenLayout("", children, depth, ws + t);
    EscapeNothing(PrintChildren(children, depth) + (ws + t));
    EscapeNothing(if first.Element? then ("\n" + Indent(depth)) + (Print(first, depth) + more) else Print(first, depth) + more);
    assert (read + children)[|read|] == first && read + [first] <= read + children;
    match first
    case Text(v) =>
      ClosedPrints(v);
      TextWasRead(Put(v) + more, read);
      assert rest != [] ==> (read + children)[|read| + 1] == rest[0];
      var ws', t' := NoTextStart(rest, depth, ws, t);
      TextOnly(v, more, ws', t', read);
    case CData(v) =>
      CDataOnly(v, depth, more, read);
      CDataStep("", v, depth, more, read);
      assert EscapeAll("") + (Print(first, depth) + more) == Print(first, depth) + more && read + Flush("") == read;
    case Element(_, _, _) =>
      ElementOnly(first, depth, more, read);
      OnlyPrintable(first, depth, more);
      PrintThenParse(first, depth, more);
  }

  /** An element that reads back, whatever follows it, is printable. */
  lemma OnlyPrintable(n: Node, depth: nat, t: string)
    requires n.Element? && Regular(n)
    requires var r := ParseElement(Print(n, depth) + t); r.Done? && r.value == n
    ensures Printable(n)
    decreases n, 0
  {
    var rest := TagParses(n, depth, t);
    assert [] + n.attributes == n.attributes;
    AttributesOnly(n.attributes, rest, n.name, []);
    AttributesParse(n.attributes, rest, n.name, []);
    BodyOnly(n, depth, t, rest);
  }

  lemma BodyOnly(n: Node, depth: nat, t: string, rest: string)
    requires n.Element? && Regular(n) && rest == PrintContent(n.name, n.children, depth) + t
    requires var r := ParseAttributes(rest, n.name, n.attributes); r.Done? && r.value == n
    ensures forall child :: child in n.children ==> Printable(child)
    decreases n.children, 2
  {
    if n.children != [] {
      var ws := BodyText(n, depth, t);
      var end := EndTag(n.name) + t;
      ContentOnly(n.name, n.attributes, PrintChildren(n.children, depth + 1) + (ws + end));
      assert [] + n.children == n.children;
      ChildrenOnly(n.children, depth + 1, ws, end, []);
    }
  }

  lemma BodyText(n: Node, depth: nat, t: string) returns (ws: string)
    requires n.Element? && ReadableName(n.name) && n.children != []
    ensures AllSpace(ws) && "</" <= EndTag(n.name) + t
    ensures PrintContent(n.name, n.children, depth) + t ==
      ">" + (PrintChildren(n.children, depth + 1) + (ws + (EndTag(n.name) + t)))
  {
    NamePrints(n.name);
    ws := ContentShape(n.name, n.children, depth);
    RegroupBody(PrintChildren(n.children, depth + 1), ws, EndTag(n.name), t);
  }

  /** A printed element, whatever follows it, parses back as itself and no further exactly when its
      values hold no references, its attributes have different names, its CDATA neither its end mark
      nor a zero, and its texts are well spaced, not blank and not next to one another. */
  lemma RoundTripExactly(n: Node, depth: nat, t: string)
    requires n.Element? && Regular(n)
    ensures ParseElement(Print(n, depth) + t) == Done(n, t) <==> Printable(n) && IsNormal(n)
  {
    if ParseElement(Print(n, depth) + t) == Done(n, t) {
      OnlyPrintable(n, depth, t);
    }
    if Printable(n) {
      RoundTrip(n, depth, t);
    }
  }

  /** Trees of the round trip law are among those this is about. */
  lemma {:induction false} PrintableIsRegular(n: Node)
    requires Printable(n)
    ensures Regular(n)
  {
    match n
    case Text(v) => NoReferenceIsClosed(v);
    case CData(_) =>
    case Element(_, attributes, children) =>
      forall a | a in attributes ensures RegularAttribute(a) {
        NoReferenceIsClosed(a.value);
      }
      forall child | child in children ensures Regular(child) {
        PrintableIsRegular(child);
      }
  }

  lemma ReadsAmpersand(s: string, t: string)
    requires s == "&#x\" b=\"x26;#x\"" + t
    ensures GetChar(s) == Step("&", Some("#x\"" + t))
  {
    var open := "&#x\" b=\"x26;#x\"";
    assert |open| == 15 && forall i :: 0 <= i < 15 ==> s[i] == open[i];
    IndexFromIs(s, 3, ';', 11);
    assert s[8] == 'x';
    assert Backwards(s, 9, 'x') == "";
    assert Backwards(s, 10, 'x') == "2";
    assert Backwards(s, 11, 'x') == "26";
    TwoDigits('2', '6');
    assert s[12..] == open[12..] + t;
  }

  lemma ReadsOpen(s: string, t: string)
    requires s == "&#x\" b=\"x26;#x\"" + t
    ensures ReadRaw(s, "\"") == Step("&#x", Some("\"" + t))
  {
    var s1, s2, s3 := "#x\"" + t, "x\"" + t, "\"" + t;
    ReadsAmpersand(s, t);
    assert s1[1..] == s2 && s2[1..] == s3;
    RawStep(s2, "\"");
    RawStep(s1, "\"");
    RawStep(s, "\"");
  }

  lemma {:induction false} PlainPrints(v: string)
    requires forall c :: c in v ==> c != '&' && EscapeChar(c) == [c]
    ensures Put(v) == v
  {
    if v != "" {
      assert v[0] in v && v == [v[0]] + v[1..];
      forall c | c in v[1..] ensures c != '&' && EscapeChar(c) == [c] {
        assert c in v;
      }
      PlainPrints(v[1..]);
      assert !StartsReference(v);
    }
  }

  lemma OpenPrints()
    ensures HasReference("&#x") && Put("&#x") == "&#x"
  {
    var v := "&#x";
    assert v[0..] == v && StartsReference(v[0..]);
    assert v[1..] == "#x" && v[2..] == "x";
    PutOne('x');
    assert Pass(v[2..]) == "x" && Pass(v[1..]) == "#x";
  }

  /** A reference that does not end inside its value may read back all the same, out of the markup
      behind it: of the attributes `a`, holding `&#x`, and `b`, holding `x26;#x`, printed one after
      the other, the first one's value does, and the second attribute is swallowed. */
  lemma OpenReferenceReadsOn(t: string)
    ensures HasReference("&#x") && Put("&#x") == "&#x" && Put("x26;#x") == "x26;#x"
    ensures ReadQuoted("&#x\" b=\"x26;#x\"" + t, "\"") == Done("&#x", t)
  {
    OpenPrints();
    PlainPrints("x26;#x");
    ReadsOpen("&#x\" b=\"x26;#x\"" + t, t);
    assert Drop("\"" + t, 1) == t;
  }
}
