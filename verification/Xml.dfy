/** TinyXML's element trees. */
module Xml {
  import opened Options
  import opened XmlText

  // How they are printed and how they are parsed in byte-wise mode.

  datatype Attribute = Attribute(name: string, value: string)

  /** The node kinds of this model. Only element nodes have attributes and children. */
  datatype Node =
    | Element(name: string, attributes: seq<Attribute>, children: seq<Node>)
    | Text(value: string)
    | CData(value: string)

  // ---------------------------------------------------------------------------------------------
  // Printing
  // ---------------------------------------------------------------------------------------------

  /** A value handed on as a C string, as `%s` prints it: the characters before the first zero. */
  function CString(v: string): string {
    if v == "" || v[0] == '\0' then "" else [v[0]] + CString(v[1..])
  }

  lemma {:induction false} CStringExactly(v: string)
    ensures |CString(v)| <= |v| && '\0' !in CString(v)
    ensures CString(v) == v <==> '\0' !in v
  {
    if v != "" && v[0] != '\0' {
      CStringExactly(v[1..]);
      assert v == [v[0]] + v[1..];
    }
  }

  /** It is the longest start of the value without a zero. */
  lemma {:induction false} CStringIsStart(v: string)
    ensures CString(v) <= v && (|CString(v)| < |v| ==> v[|CString(v)|] == '\0')
  {
    if v != "" && v[0] != '\0' {
      CStringIsStart(v[1..]);
    }
  }

  function Indent(depth: nat): string {
    if depth == 0 then "" else "    " + Indent(depth - 1)
  }

  function PrintAttribute(a: Attribute): string {
    var quote := if '\"' in a.value then "\'" else "\"";
    CString(Put(a.name)) + "=" + quote + CString(Put(a.value)) + quote
  }

  function PrintAttributes(attributes: seq<Attribute>): string {
    if attributes == [] then "" else " " + PrintAttribute(attributes[0]) + PrintAttributes(attributes[1..])
  }

  /** A node as printed, less the indentation in front of an element. */
  function Print(n: Node, depth: nat): string
    decreases n, 0
  {
    match n
    case Text(v) => CString(Put(v))
    case CData(v) => "\n" + Indent(depth) + "<![CDATA[" + CString(v) + "]]>\n"
    case Element(name, attributes, children) =>
      "<" + CString(name) + PrintAttributes(attributes) + PrintContent(name, children, depth)
  }

  /** What follows an element's attributes: nothing but the end of an empty tag, a single text on the
      same line, or the children on their own lines. */
  function PrintContent(name: string, children: seq<Node>, depth: nat): string
    decreases children, 1
  {
    if children == [] then " />"
    else if |children| == 1 && !children[0].Element? then
      ">" + Print(children[0], depth + 1) + EndTag(CString(name))
    else
      ">" + PrintChildren(children, depth + 1) + "\n" + Indent(depth) + EndTag(CString(name))
  }

  function EndTag(name: string): string {
    "</" + name + ">"
  }

  function PrintChildren(children: seq<Node>, depth: nat): string
    decreases children, 0
  {
    if children == [] then ""
    else
      (if children[0].Element? then "\n" + Indent(depth) else "") +
      Print(children[0], depth) + PrintChildren(children[1..], depth)
  }

  function PrintDocument(roots: seq<Node>): string {
    if roots == [] then "" else Print(roots[0], 0) + "\n" + PrintDocument(roots[1..])
  }

  // ---------------------------------------------------------------------------------------------
  // Parsing
  // ---------------------------------------------------------------------------------------------

  /** What a parsing function leaves: a value and where it stopped, an error, or a comment, a
      declaration, a DTD or an unknown tag, none of which is part of this model. */
  datatype Outcome<T> = Done(value: T, rest: string) | Failed | OtherMarkup

  /** From the first character that is not white space. */
  function Skip(s: string): (r: string)
    ensures |r| <= |s| && (r == "" || !IsWhiteSpace(r[0]))
  {
    if s != "" && IsWhiteSpace(s[0]) then Skip(s[1..]) else s
  }

  /** The longest prefix of name characters. */
  function NameSpan(s: string): (k: nat)
    ensures k <= |s|
  {
    if s != "" && IsNameChar(s[0]) then 1 + NameSpan(s[1..]) else 0
  }

  function ReadName(s: string): (r: Outcome<string>)
    ensures r.Done? ==> |r.rest| < |s|
    ensures !r.OtherMarkup?
  {
    if s != "" && IsNameStart(s[0]) then Done(s[..NameSpan(s)], s[NameSpan(s)..]) else Failed
  }

  /** An attribute value without quotes: up to white space or the end of the tag. */
  function ReadBare(s: string): (r: Outcome<string>)
    ensures r.Done? ==> |r.rest| <= |s|
    ensures !r.OtherMarkup?
  {
    if s == "" || IsWhiteSpace(s[0]) || s[0] == '/' || s[0] == '>' then Done("", s)
    else if s[0] == '\'' || s[0] == '\"' then Failed
    else
      var rest := ReadBare(s[1..]);
      if rest.Done? then Done([s[0]] + rest.value, rest.rest) else Failed
  }

  function ReadQuoted(s: string, quote: string): (r: Outcome<string>)
    ensures r.Done? ==> |r.rest| <= |s|
    ensures !r.OtherMarkup?
  {
    var step := ReadRaw(s, quote);
    match step.next
    case None => Failed
    case Some(rest) => Done(step.out, Drop(rest, |quote|))
  }

  /** The value after an attribute's equals sign. */
  function ReadAttributeValue(s: string): (r: Outcome<string>)
    ensures r.Done? ==> |r.rest| <= |s|
    ensures !r.OtherMarkup?
  {
    if s == "" then Failed
    else if s[0] == '\'' then ReadQuoted(s[1..], "\'")
    else if s[0] == '\"' then ReadQuoted(s[1..], "\"")
    else ReadBare(s)
  }

  function ParseAttribute(s: string): (r: Outcome<Attribute>)
    ensures r.Done? ==> |r.rest| < |s|
    ensures !r.OtherMarkup?
  {
    match ReadName(Skip(s))
    case Done(name, afterName) =>
      var p := Skip(afterName);
      if p == "" || p[0] != '=' then Failed
      else
        (match ReadAttributeValue(Skip(p[1..]))
         case Done(v, rest) => Done(Attribute(name, v), rest)
         case _ => Failed)
    case _ => Failed
  }

  /** White space runs collapse to one space, and white space at the end is dropped, in text up to
      the next tag. `pending` says white space was just passed. */
  function Collapse(s: string, pending: bool): (r: Step)
    ensures r.next.Some? ==> |r.next.value| <= |s|
    ensures r.next.Some? && s != "" && s[0] != '<' ==> |r.next.value| < |s|
    decreases |s|
  {
    if s == "" || s[0] == '<' then Step("", Some(s))
    else if IsWhiteSpace(s[0]) then Collapse(s[1..], true)
    else
      var step := GetChar(s);
      var out := (if pending then " " else "") + step.out;
      match step.next
      case None => Step(out, None)
      case Some(t) => var rest := Collapse(t, false); Step(out + rest.out, rest.next)
  }

  predicate Blank(v: string) {
    forall i :: 0 <= i < |v| ==> IsWhiteSpace(v[i])
  }

  /** Raw text up to `]]>` or the end. */
  function UntilCDataEnd(s: string): (k: nat)
    ensures k <= |s|
  {
    if s == "" || "]]>" <= s then 0 else 1 + UntilCDataEnd(s[1..])
  }

  function ParseCData(s: string): (r: Outcome<Node>)
    requires "<![CDATA[" <= s
    ensures r.Done? ==> |r.rest| < |s|
    ensures !r.OtherMarkup?
  {
    var body := s[9..];
    var k := UntilCDataEnd(body);
    Done(CData(body[..k]), Drop(body[k..], 3))
  }

  /** An element node: its tag, then its attributes and what follows them. */
  function ParseElement(s: string): (r: Outcome<Node>)
    ensures r.Done? ==> |r.rest| < |s|
    decreases |s|, 1
  {
    var p := Skip(s);
    if p == "" || p[0] != '<' then Failed
    else
      match ReadName(Skip(p[1..]))
      case Done(name, rest) => if rest == "" then Failed else ParseAttributes(rest, name, [])
      case _ => Failed
  }

  /** The attributes read so far, one more, the end of an empty tag, or the element's content. */
  function ParseAttributes(s: string, name: string, attributes: seq<Attribute>): (r: Outcome<Node>)
    ensures r.Done? ==> |r.rest| <= |s|
    decreases |s|, 0
  {
    if s == "" then Done(Element(name, attributes, []), s)
    else
      var p := Skip(s);
      if p == "" then Failed
      else if p[0] == '/' then
        if |p| > 1 && p[1] == '>' then Done(Element(name, attributes, []), p[2..]) else Failed
      else if p[0] == '>' then
        match ParseContent(p[1..], [])
        case Failed => Failed
        case OtherMarkup => OtherMarkup
        case Done(children, q) =>
          if q == "" then Failed
          else if EndTag(name) <= q then Done(Element(name, attributes, children), Drop(q, |name| + 3))
          else Failed
      else
        match ParseAttribute(p)
        case Done(a, q) =>
          if q == "" || HasName(attributes, a.name) then Failed
          else ParseAttributes(q, name, attributes + [a])
        case _ => Failed
  }

  predicate HasName(attributes: seq<Attribute>, name: string) {
    exists i :: 0 <= i < |attributes| && attributes[i].name == name
  }

  /** The children up to the end tag, added to those read so far. */
  function ParseContent(s: string, children: seq<Node>): (r: Outcome<seq<Node>>)
    ensures r.Done? ==> |r.rest| <= |s|
    decreases |s|, 3
  {
    var p := Skip(s);
    if p == "" then Failed
    else if p[0] != '<' then
      var step := Collapse(p, false);
      match step.next
      case None => Failed
      case Some(q) =>
        ParseContent(q, if Blank(step.out) then children else children + [Text(step.out)])
    else if "</" <= p then Done(children, p)
    else
      match ParseMarkup(p)
      case Failed => Failed
      case OtherMarkup => OtherMarkup
      case Done(node, q) => ParseContent(q, children + [node])
  }

  /** The node that starts at a `<`, by what the next characters are. */
  function ParseMarkup(s: string): (r: Outcome<Node>)
    requires s != "" && s[0] == '<'
    ensures r.Done? ==> |r.rest| < |s|
    decreases |s|, 2
  {
    if "<![CDATA[" <= s then ParseCData(s)
    else if |s| > 1 && IsNameStart(s[1]) then ParseElement(s)
    else OtherMarkup
  }

  function ParseDocument(s: string, roots: seq<Node>): Outcome<seq<Node>>
    decreases |s|
  {
    var p := Skip(s);
    if p == "" || p[0] != '<' then (if roots == [] then Failed else Done(roots, p))
    else
      match ParseMarkup(p)
      case Failed => Failed
      case OtherMarkup => OtherMarkup
      case Done(node, q) => ParseDocument(q, roots + [node])
  }
}
