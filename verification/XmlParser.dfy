/** TinyXML's printing and parsing loops. */
module XmlParser {
  import opened Options
  import opened XmlText
  import opened Xml

  // Each is proved to compute what the Xml modules define. A pointer is the text from there on;
  // advancing it drops characters.

  // ---------------------------------------------------------------------------------------------
  // Characters
  // ---------------------------------------------------------------------------------------------

  method PutString(str: string) returns (outString: string)
    ensures outString == Put(str)
  {
    outString := "";
    var i := 0;
    while i < |str|
      invariant 0 <= i <= |str|
      invariant Put(str) == outString + Put(str[i..])
    {
      var c, out := str[i], "";
      ghost var v := str[i..];
      if c == '&' && i < |str| - 2 && str[i + 1] == '#' && str[i + 2] == 'x' {
        assert StartsReference(v);
        out, i := PassReference(str, i);
      } else {
        assert v[1..] == str[i + 1..];
        out, i := EscapeChar(c), i + 1;
      }
      Associate(outString, out, Put(str[i..]));
      outString := outString + out;
    }
  }

  /** The inner loop: a reference is copied up to its semicolon or the last character. */
  method PassReference(str: string, start: nat) returns (out: string, i: nat)
    requires start < |str| - 1
    ensures start < i < |str| && Pass(str[start..]) == out + Put(str[i..])
  {
    out, i := "", start;
    var stopped := false;
    while i < |str| - 1 && !stopped
      invariant start <= i < |str| && (stopped ==> i > start)
      invariant !stopped ==> Pass(str[start..]) == out + Pass(str[i..])
      invariant stopped ==> Pass(str[start..]) == out + Put(str[i..])
      decreases |str| - i, !stopped
    {
      ghost var v := str[i..];
      assert v[1..] == str[i + 1..];
      Associate(out, [str[i]], if str[i + 1] == ';' then Put(v[1..]) else Pass(v[1..]));
      out := out + [str[i]];
      i := i + 1;
      stopped := str[i] == ';';
    }
  }

  lemma Associate(a: string, b: string, c: string)
    ensures a + (b + c) == (a + b) + c
  {
  }

  method SkipWhiteSpace(s: string) returns (r: Option<string>)
    ensures r == if s == "" then None else Some(Skip(s))
  {
    if s == "" {
      return None;
    }
    var p := s;
    while p != "" && IsWhiteSpace(p[0])
      invariant Skip(p) == Skip(s)
      decreases |p|
    {
      p := p[1..];
    }
    return Some(p);
  }

  method ReadNameLoop(s: string) returns (name: string, r: Option<string>)
    ensures match Xml.ReadName(s)
            case Done(v, rest) => name == v && r == Some(rest)
            case _ => r == None
  {
    name := "";
    if s != "" && IsNameStart(s[0]) {
      var k := 0;
      while k < |s| && IsNameChar(s[k])
        invariant 0 <= k <= |s| && NameSpan(s) == k + NameSpan(s[k..])
      {
        assert s[k..][1..] == s[k + 1..];
        k := k + 1;
      }
      return s[..k], Some(s[k..]);
    }
    return name, None;
  }

  method StringEqual(p: string, tag: string) returns (equal: bool)
    ensures equal <==> tag <= p
  {
    var i := 0;
    while i < |p| && i < |tag| && p[i] == tag[i]
      invariant i <= |p| && i <= |tag| && p[..i] == tag[..i]
    {
      i := i + 1;
    }
    if i == |tag| {
      assert tag[..i] == tag;
      return true;
    }
    NotPrefix(p, tag, i);
    return false;
  }

  lemma NotPrefix(p: string, tag: string, i: nat)
    requires i < |tag| && (i >= |p| || p[i] != tag[i])
    ensures !(tag <= p)
  {
  }

  method StrChr(p: string, from: nat, c: char) returns (q: Option<nat>)
    requires from <= |p|
    ensures q == IndexFrom(p, from, c)
  {
    var i := from;
    while i < |p| && p[i] != c
      invariant from <= i <= |p| && IndexFrom(p, from, c) == IndexFrom(p, i, c)
    {
      i := i + 1;
    }
    return if i < |p| then Some(i) else None;
  }

  lemma NumberStep(s: string, j: nat, q: nat, base: nat)
    requires j < q <= |s|
    ensures Number(s[j + 1..q], base).None? ==> Number(s[j..q], base).None?
    ensures Number(s[j + 1..q], base).Some? && DigitValue(s[j], base).None? ==> Number(s[j..q], base).None?
    ensures Number(s[j + 1..q], base).Some? && DigitValue(s[j], base).Some? ==>
      Number(s[j..q], base)
      == Some(DigitValue(s[j], base).value * Power(base, q - j - 1) + Number(s[j + 1..q], base).value)
  {
    assert s[j..q][1..] == s[j + 1..q] && s[j..q][0] == s[j];
  }

  lemma {:induction false} NumberNone(s: string, m: nat, j: nat, q: nat, base: nat)
    requires m <= j <= q <= |s| && Number(s[j..q], base).None?
    ensures Number(s[m..q], base).None?
    decreases j - m
  {
    if m < j {
      NumberStep(s, j - 1, q, base);
      NumberNone(s, m, j - 1, q, base);
    }
  }

  /** The digits of a numeric reference, taken from the semicolon back to the mark. Only the low byte
      of the number is kept, so the width of the counters does not matter. */
  method ReadReference(p: string, from: nat, mark: char, base: nat) returns (out: string, next: Option<string>)
    requires 0 < from <= |p| && p[from - 1] == mark
    requires DigitValue(mark, base).None?
    ensures Reference(p, from, mark, base) == Step(out, next)
  {
    var end := StrChr(p, from, ';');
    if end.None? {
      return "", None;
    }
    ghost var m := LastMark(p, from, end.value, mark);
    BackwardsIs(p, m, end.value, mark);
    var ucs, mult := 0, 1;
    var q := end.value - 1;
    assert p[end.value..end.value] == "";
    while p[q] != mark
      invariant m <= q < end.value
      invariant mult == Power(base, end.value - 1 - q)
      invariant Number(p[q + 1..end.value], base) == Some(ucs)
      decreases q
    {
      NumberStep(p, q, end.value, base);
      var digit := DigitValue(p[q], base);
      if digit.None? {
        NumberNone(p, m + 1, q, end.value, base);
        return "", None;
      }
      ucs := ucs + digit.value * mult;
      mult := base * mult;
      q := q - 1;
    }
    return [(ucs % 256) as char], Some(p[end.value + 1..]);
  }

  const ENTITIES: seq<(string, char)> :=
    [("&amp;", '&'), ("&lt;", '<'), ("&gt;", '>'), ("&quot;", '\"'), ("&apos;", '\'')]

  method ReadEntity(p: string) returns (out: string, next: Option<string>)
    requires p != ""
    ensures GetEntity(p) == Step(out, next)
  {
    if |p| >= 3 && p[1] == '#' {
      if p[2] == 'x' {
        if |p| == 3 {
          return "", None;
        }
        out, next := ReadReference(p, 3, 'x', 16);
        return;
      }
      out, next := ReadReference(p, 2, '#', 10);
      return;
    }
    var i := 0;
    while i < |ENTITIES|
      invariant 0 <= i <= |ENTITIES|
      invariant forall j :: 0 <= j < i ==> !(ENTITIES[j].0 <= p)
    {
      var matches := StringEqual(p, ENTITIES[i].0);
      if matches {
        return [ENTITIES[i].1], Some(p[|ENTITIES[i].0|..]);
      }
      i := i + 1;
    }
    assert !(ENTITIES[0].0 <= p) && !(ENTITIES[1].0 <= p) && !(ENTITIES[2].0 <= p);
    assert !(ENTITIES[3].0 <= p) && !(ENTITIES[4].0 <= p);
    return "", Some(p[1..]);
  }

  method ReadChar(p: string) returns (out: string, next: Option<string>)
    requires p != ""
    ensures GetChar(p) == Step(out, next)
  {
    if p[0] == '&' {
      out, next := ReadEntity(p);
      return;
    }
    return [p[0]], Some(p[1..]);
  }

  /** A text already read, and what reading the rest yields. */
  function After(text: string, rest: Step): Step {
    Step(text + rest.out, rest.next)
  }

  lemma AfterAfter(a: string, b: string, rest: Step)
    ensures After(a, After(b, rest)) == After(a + b, rest)
  {
    Associate(a, b, rest.out);
  }

  function RawFrom(p: Option<string>, endTag: string): Step {
    if p.None? then Step("", None) else ReadRaw(p.value, endTag)
  }

  lemma RawStep(p: string, endTag: string)
    requires p != "" && !(endTag <= p)
    ensures ReadRaw(p, endTag) == After(GetChar(p).out, RawFrom(GetChar(p).next, endTag))
  {
  }

  /** Reading text with its white space kept, up to the end tag. */
  method ReadTextRaw(s: string, endTag: string) returns (text: string, p: Option<string>)
    ensures ReadRaw(s, endTag) == Step(text, p)
  {
    text, p := "", Some(s);
    var atEnd := s == "";
    if !atEnd {
      atEnd := StringEqual(s, endTag);
    }
    while p.Some? && !atEnd
      invariant ReadRaw(s, endTag) == After(text, RawFrom(p, endTag))
      invariant p.Some? ==> (atEnd <==> p.value == "" || endTag <= p.value)
      decreases p.Some?, if p.Some? then |p.value| else 0
    {
      RawStep(p.value, endTag);
      var out, next := ReadChar(p.value);
      AfterAfter(text, out, RawFrom(next, endTag));
      text, p := text + out, next;
      if p.Some? && p.value != "" {
        atEnd := StringEqual(p.value, endTag);
      } else {
        atEnd := true;
      }
    }
  }

  function CollapseAt(p: Option<string>, pending: bool): Step {
    if p.None? then Step("", None) else Collapse(p.value, pending)
  }

  lemma CollapseStep(p: string, pending: bool)
    requires p != "" && p[0] != '<' && !IsWhiteSpace(p[0])
    ensures Collapse(p, pending) ==
      After((if pending then " " else "") + GetChar(p).out, CollapseAt(GetChar(p).next, false))
  {
  }

  /** Reading text between tags: white space at either end is dropped and runs become one space. */
  method ReadTextCondensed(s: string) returns (text: string, p: Option<string>)
    requires s != ""
    ensures Collapse(Skip(s), false) == Step(text, p)
  {
    text := "";
    var whitespace := false;
    p := SkipWhiteSpace(s);
    while p.Some? && p.value != "" && p.value[0] != '<'
      invariant Collapse(Skip(s), false) == After(text, CollapseAt(p, whitespace))
      decreases p.Some?, if p.Some? then |p.value| else 0
    {
      if IsWhiteSpace(p.value[0]) {
        whitespace := true;
        p := Some(p.value[1..]);
      } else {
        CollapseStep(p.value, whitespace);
        var out := "";
        if whitespace {
          out := " ";
          whitespace := false;
        }
        var c, next := ReadChar(p.value);
        AfterAfter(text, out + c, CollapseAt(next, false));
        text, p := text + (out + c), next;
      }
    }
  }

  // ---------------------------------------------------------------------------------------------
  // Nodes
  // ---------------------------------------------------------------------------------------------

  method ReadUnquoted(s: string) returns (r: Outcome<string>)
    ensures r == ReadBare(s)
  {
    var k := 0;
    BareStart(s);
    while k < |s| && !IsWhiteSpace(s[k]) && s[k] != '/' && s[k] != '>'
      invariant 0 <= k <= |s|
      invariant ReadBare(s) == Prefixed(s[..k], ReadBare(s[k..]))
    {
      if s[k] == '\'' || s[k] == '\"' {
        return Failed;
      }
      BareStep(s, k);
      k := k + 1;
    }
    assert s[..k] + "" == s[..k];
    return Done(s[..k], s[k..]);
  }

  function Prefixed(text: string, r: Outcome<string>): Outcome<string> {
    if r.Done? then Done(text + r.value, r.rest) else Failed
  }

  lemma BareStart(s: string)
    ensures Prefixed(s[..0], ReadBare(s[0..])) == ReadBare(s)
  {
    assert s[0..] == s;
    if ReadBare(s).Done? {
      assert s[..0] + ReadBare(s).value == ReadBare(s).value;
    }
  }

  lemma BareStep(s: string, k: nat)
    requires k < |s| && !IsWhiteSpace(s[k]) && s[k] != '/' && s[k] != '>' && s[k] != '\'' && s[k] != '\"'
    ensures Prefixed(s[..k], ReadBare(s[k..])) == Prefixed(s[..k + 1], ReadBare(s[k + 1..]))
  {
    assert s[k..][1..] == s[k + 1..];
    if ReadBare(s[k + 1..]).Done? {
      assert s[..k] + ([s[k]] + ReadBare(s[k + 1..]).value) == s[..k + 1] + ReadBare(s[k + 1..]).value;
    }
  }

  /** The value of an attribute, from its opening quote or first character. */
  method ReadAttributeText(s: string) returns (r: Outcome<string>)
    ensures r == ReadAttributeValue(s)
  {
    if s == "" {
      return Failed;
    }
    if s[0] == '\'' || s[0] == '\"' {
      var end := [s[0]];
      var text, p := ReadTextRaw(s[1..], end);
      if p.None? {
        return Failed;
      }
      return Done(text, Drop(p.value, |end|));
    }
    r := ReadUnquoted(s);
  }

  method AttributeParse(s: string) returns (r: Outcome<Attribute>)
    ensures r == ParseAttribute(s)
  {
    var p := SkipWhiteSpace(s);
    if p.None? {
      return Failed;
    }
    var name, afterName := ReadNameLoop(p.value);
    if afterName.None? {
      return Failed;
    }
    p := SkipWhiteSpace(afterName.value);
    if p.None? || p.value == "" || p.value[0] != '=' {
      return Failed;
    }
    p := SkipWhiteSpace(p.value[1..]);
    if p.None? {
      return Failed;
    }
    var value := ReadAttributeText(p.value);
    return if value.Done? then Done(Attribute(name, value.value), value.rest) else Failed;
  }

  method FindAttribute(attributes: seq<Attribute>, name: string) returns (found: bool)
    ensures found == HasName(attributes, name)
  {
    var i := 0;
    while i < |attributes|
      invariant 0 <= i <= |attributes| && forall j :: 0 <= j < i ==> attributes[j].name != name
    {
      if attributes[i].name == name {
        return true;
      }
      i := i + 1;
    }
    return false;
  }

  method ElementParse(s: string) returns (r: Outcome<Node>)
    ensures r == ParseElement(s)
    decreases |s|, 1
  {
    var start := SkipWhiteSpace(s);
    if start.None? || start.value == "" || start.value[0] != '<' {
      return Failed;
    }
    start := SkipWhiteSpace(start.value[1..]);
    if start.None? {
      return Failed;
    }
    var name, p := ReadNameLoop(start.value);
    if p.None? || p.value == "" {
      return Failed;
    }
    var attributes: seq<Attribute> := [];
    var rest := p.value;
    while rest != ""
      invariant |rest| < |s| && ParseElement(s) == ParseAttributes(rest, name, attributes)
      decreases |rest|
    {
      var next := SkipWhiteSpace(rest);
      var q := next.value;
      if q == "" {
        return Failed;
      }
      if q[0] == '/' {
        return if |q| > 1 && q[1] == '>' then Done(Element(name, attributes, []), q[2..]) else Failed;
      } else if q[0] == '>' {
        r := CloseElement(q[1..], name, attributes);
        return;
      } else {
        var a := AttributeParse(q);
        if !a.Done? || a.rest == "" {
          return Failed;
        }
        var duplicate := FindAttribute(attributes, a.value.name);
        if duplicate {
          return Failed;
        }
        attributes := attributes + [a.value];
        rest := a.rest;
      }
    }
    return Done(Element(name, attributes, []), rest);
  }

  /** The content and the end tag of an element whose start tag has been read. */
  method CloseElement(s: string, name: string, attributes: seq<Attribute>) returns (r: Outcome<Node>)
    ensures r == ParseAttributes(">" + s, name, attributes)
    decreases |s|, 4
  {
    assert (">" + s)[1..] == s && Skip(">" + s) == ">" + s;
    var content := ContentParse(s);
    match content
    case Failed => return Failed;
    case OtherMarkup => return OtherMarkup;
    case Done(children, q) =>
      if q == "" {
        return Failed;
      }
      var closed := StringEqual(q, EndTag(name));
      return if closed then Done(Element(name, attributes, children), q[|EndTag(name)|..]) else Failed;
  }

  method ContentParse(s: string) returns (r: Outcome<seq<Node>>)
    ensures r == ParseContent(s, [])
    decreases |s|, 3
  {
    var children: seq<Node> := [];
    var p := SkipWhiteSpace(s);
    while p.Some? && p.value != ""
      invariant p.Some? ==> |p.value| <= |s| && Skip(p.value) == p.value
      invariant ParseContent(s, []) == if p.None? then Failed else ParseContent(p.value, children)
      decreases p.Some?, if p.Some? then |p.value| else 0
    {
      var q := p.value;
      if q[0] != '<' {
        var text, next := ReadTextCondensed(q);
        if next.None? {
          return Failed;
        }
        if !Blank(text) {
          children := children + [Text(text)];
        }
        ContentFrom(next.value, children);
        p := SkipWhiteSpace(next.value);
      } else {
        var closing := StringEqual(q, "</");
        if closing {
          return Done(children, q);
        }
        var node := MarkupParse(q);
        match node
        case Failed => return Failed;
        case OtherMarkup => return OtherMarkup;
        case Done(n, next) =>
          children := children + [n];
          ContentFrom(next, children);
          p := SkipWhiteSpace(next);
      }
    }
    return Failed;
  }

  /** Skipping white space first changes nothing; at the end of the text there is nothing to read. */
  lemma ContentFrom(s: string, children: seq<Node>)
    ensures ParseContent(s, children) == if s == "" then Failed else ParseContent(Skip(s), children)
    ensures Skip(Skip(s)) == Skip(s)
  {
  }

  method CDataParse(s: string) returns (r: Outcome<Node>)
    requires "<![CDATA[" <= s
    ensures r == ParseCData(s)
  {
    var body := s[9..];
    var k := 0;
    while k < |body|
      invariant 0 <= k <= |body| && UntilCDataEnd(body) == k + UntilCDataEnd(body[k..])
    {
      var atEnd := StringEqual(body[k..], "]]>");
      if atEnd {
        break;
      }
      assert body[k..][1..] == body[k + 1..];
      k := k + 1;
    }
    return Done(CData(body[..k]), Drop(body[k..], 3));
  }

  method MarkupParse(s: string) returns (r: Outcome<Node>)
    requires s != "" && s[0] == '<'
    ensures r == ParseMarkup(s)
    decreases |s|, 2
  {
    var cdata := StringEqual(s, "<![CDATA[");
    if cdata {
      r := CDataParse(s);
    } else if |s| > 1 && IsNameStart(s[1]) {
      r := ElementParse(s);
    } else {
      r := OtherMarkup;
    }
  }

  method DocumentParse(s: string) returns (r: Outcome<seq<Node>>)
    ensures r == ParseDocument(s, [])
  {
    var roots: seq<Node> := [];
    var p := SkipWhiteSpace(s);
    while p.Some? && p.value != "" && p.value[0] == '<'
      invariant p.Some? ==> Skip(p.value) == p.value
      invariant ParseDocument(s, []) == ParseDocument(if p.None? then "" else p.value, roots)
      decreases p.Some?, if p.Some? then |p.value| else 0
    {
      var node := MarkupParse(p.value);
      match node
      case Failed => return Failed;
      case OtherMarkup => return OtherMarkup;
      case Done(n, next) =>
        roots := roots + [n];
        DocumentFrom(next, roots);
        p := SkipWhiteSpace(next);
    }
    return if roots == [] then Failed else Done(roots, if p.None? then "" else p.value);
  }

  lemma DocumentFrom(s: string, roots: seq<Node>)
    ensures ParseDocument(s, roots) == ParseDocument(Skip(s), roots) && Skip(Skip(s)) == Skip(s)
  {
  }

  // ---------------------------------------------------------------------------------------------
  // Printing
  // ---------------------------------------------------------------------------------------------

  method PrintIndent(depth: nat) returns (out: string)
    ensures out == Indent(depth)
  {
    out := "";
    for i := 0 to depth
      invariant out == Indent(i)
    {
      assert "    " + Indent(i) == Indent(i) + "    " by { IndentCommutes(i); }
      out := out + "    ";
    }
  }

  lemma {:induction false} IndentCommutes(i: nat)
    ensures "    " + Indent(i) == Indent(i) + "    "
  {
    if i > 0 {
      IndentCommutes(i - 1);
      Associate("    ", Indent(i - 1), "    ");
    } else {
      assert "    " + "" == "" + "    ";
    }
  }

  method AttributePrint(a: Attribute) returns (out: string)
    ensures out == PrintAttribute(a)
  {
    var n := PutString(a.name);
    var v := PutString(a.value);
    if '\"' !in a.value {
      out := CString(n) + "=" + "\"" + CString(v) + "\"";
    } else {
      out := CString(n) + "=" + "\'" + CString(v) + "\'";
    }
  }

  method AttributesPrint(attributes: seq<Attribute>) returns (out: string)
    ensures out == PrintAttributes(attributes)
  {
    out := "";
    var i := 0;
    assert attributes[0..] == attributes;
    while i < |attributes|
      invariant 0 <= i <= |attributes| && PrintAttributes(attributes) == out + PrintAttributes(attributes[i..])
    {
      assert attributes[i..][1..] == attributes[i + 1..];
      var a := AttributePrint(attributes[i]);
      Associate(out, " " + a, PrintAttributes(attributes[i + 1..]));
      out := out + (" " + a);
      i := i + 1;
    }
  }

  method NodePrint(n: Node, depth: nat) returns (out: string)
    ensures out == Print(n, depth)
    decreases n, 0
  {
    match n
    case Text(v) =>
      var buffer := PutString(v);
      out := CString(buffer);
    case CData(v) =>
      var indent := PrintIndent(depth);
      out := "\n" + indent + "<![CDATA[" + CString(v) + "]]>\n";
    case Element(name, attributes, children) =>
      var printed := AttributesPrint(attributes);
      var content := ContentPrint(name, children, depth);
      out := "<" + CString(name) + printed + content;
  }

  /** The three formats of an element: empty, a single text, or children on their own lines. */
  method ContentPrint(name: string, children: seq<Node>, depth: nat) returns (out: string)
    ensures out == PrintContent(name, children, depth)
    decreases children, 1
  {
    if children == [] {
      out := " />";
    } else if |children| == 1 && !children[0].Element? {
      var child := NodePrint(children[0], depth + 1);
      out := ">" + child + EndTag(CString(name));
    } else {
      var lines := ChildrenPrint(children, depth + 1);
      var indent := PrintIndent(depth);
      out := ">" + lines + "\n" + indent + EndTag(CString(name));
    }
  }

  method ChildrenPrint(children: seq<Node>, depth: nat) returns (out: string)
    ensures out == PrintChildren(children, depth)
    decreases children, 0
  {
    out := "";
    var i := 0;
    assert children[0..] == children;
    while i < |children|
      invariant 0 <= i <= |children|
      invariant PrintChildren(children, depth) == out + PrintChildren(children[i..], depth)
    {
      assert children[i..][1..] == children[i + 1..] && children[i] in children;
      var line := ChildPrint(children[i], depth);
      Associate(out, line, PrintChildren(children[i + 1..], depth));
      out := out + line;
      i := i + 1;
    }
  }

  /** A child on its own line, or a text where it stands. The indentation belongs to the element's own
      printing in the source. */
  method ChildPrint(child: Node, depth: nat) returns (out: string)
    ensures out == (if child.Element? then "\n" + Indent(depth) else "") + Print(child, depth)
    decreases child, 1
  {
    var before := "";
    if child.Element? {
      var indent := PrintIndent(depth);
      before := "\n" + indent;
    }
    var printed := NodePrint(child, depth);
    out := before + printed;
  }
}
