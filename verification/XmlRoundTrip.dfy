/** Printing a tree and parsing the text gives the tree back, up to what parsing does to white space. */
module XmlRoundTrip {
  import opened Options
  import opened XmlText
  import opened Xml

  // ---------------------------------------------------------------------------------------------
  // The trees the law is about, and what becomes of their text
  // ---------------------------------------------------------------------------------------------

  predicate ReadableName(name: string) {
    name != "" && IsNameStart(name[0]) && forall c :: c in name ==> IsNameChar(c)
  }

  ghost predicate PrintableAttribute(a: Attribute) {
    ReadableName(a.name) && !HasReference(a.value)
  }

  predicate UniqueNames(attributes: seq<Attribute>) {
    forall i, j :: 0 <= i < j < |attributes| ==> attributes[i].name != attributes[j].name
  }

  ghost predicate HasCDataEnd(v: string) {
    exists i :: 0 <= i <= |v| && "]]>" <= v[i..]
  }

  ghost predicate Printable(n: Node) {
    match n
    case Text(v) => !HasReference(v)
    case CData(v) => !HasCDataEnd(v) && '\0' !in v
    case Element(name, attributes, children) =>
      && ReadableName(name) && UniqueNames(attributes)
      && (forall a :: a in attributes ==> PrintableAttribute(a))
      && (forall child :: child in children ==> Printable(child))
  }

  /** Runs of spaces become one, `pending` says whether some were just passed, and spaces at the end
      are dropped. */
  function CondenseFrom(w: string, pending: bool): string {
    if w == "" then ""
    else if w[0] == ' ' then CondenseFrom(w[1..], true)
    else (if pending then " " else "") + [w[0]] + CondenseFrom(w[1..], false)
  }

  function DropSpaces(w: string): (r: string)
    ensures r == "" || r[0] != ' '
  {
    if w != "" && w[0] == ' ' then DropSpaces(w[1..]) else w
  }

  function Condense(w: string): string {
    CondenseFrom(DropSpaces(w), false)
  }

  /** The text node, if any, that the characters `w` between two tags become. */
  function Flush(w: string): seq<Node> {
    if Blank(Condense(w)) then [] else [Text(Condense(w))]
  }

  /** The children as they are after parsing, when the text `w` comes before them. */
  function NormalFrom(w: string, children: seq<Node>): seq<Node>
    decreases children
  {
    if children == [] then Flush(w)
    else if children[0].Text? then NormalFrom(w + children[0].value, children[1..])
    else Flush(w) + [Normal(children[0])] + NormalFrom("", children[1..])
  }

  /** The node as it is after printing and parsing: adjacent texts joined, their spaces condensed,
      blank texts gone. */
  function Normal(n: Node): Node
    decreases n, 0
  {
    match n
    case Element(name, attributes, children) => Element(name, attributes, NormalFrom("", children))
    case other => other
  }

  // ---------------------------------------------------------------------------------------------
  // Names, attributes and CDATA
  // ---------------------------------------------------------------------------------------------

  lemma {:induction false} NamePrints(name: string)
    requires forall c :: c in name ==> IsNameChar(c)
    ensures CString(name) == name && Put(name) == name
  {
    if name != "" {
      assert name[0] in name;
      assert EscapeChar(name[0]) == [name[0]];
      NamePrints(name[1..]);
    }
  }

  lemma {:induction false} ValuePrints(v: string)
    requires !HasReference(v)
    ensures CString(Put(v)) == EscapeAll(v)
  {
    PutIsEscapeAll(v);
    NoZeroEscaped(v);
    CStringExactly(EscapeAll(v));
  }

  lemma {:induction false} NoZeroEscaped(v: string)
    ensures '\0' !in EscapeAll(v)
  {
    if v != "" {
      NoZeroEscaped(v[1..]);
      NoZeroInEscape(v[0]);
    }
  }

  lemma {:induction false} NameReads(name: string, t: string)
    requires forall c :: c in name ==> IsNameChar(c)
    requires t == "" || !IsNameChar(t[0])
    ensures NameSpan(name + t) == |name|
  {
    var s := name + t;
    if name != "" {
      assert name[0] in name && s[0] == name[0];
      assert s[1..] == name[1..] + t;
      NameReads(name[1..], t);
    } else {
      assert s == t;
    }
  }

  lemma NameParses(name: string, t: string)
    requires ReadableName(name) && (t == "" || !IsNameChar(t[0]))
    ensures ReadName(name + t) == Done(name, t)
  {
    NameReads(name, t);
    assert (name + t)[..|name|] == name && (name + t)[|name|..] == t;
  }

  lemma QuotedParses(v: string, quote: string, t: string)
    requires IsQuote(quote)
    ensures ReadAttributeValue(quote + (EscapeAll(v) + quote + t)) == Done(v, t)
  {
    var s := quote + (EscapeAll(v) + quote + t);
    assert s[1..] == EscapeAll(v) + quote + t;
    RawReadsEscaped(v, quote, t);
    assert Drop(quote + t, 1) == t;
  }

  lemma Regroup(name: string, quote: string, value: string, t: string)
    ensures (name + "=" + quote + value + quote) + t == name + ("=" + (quote + (value + quote + t)))
  {
  }

  lemma AttributeLayout(a: Attribute, t: string, quote: string)
    requires PrintableAttribute(a) && quote == if '\"' in a.value then "\'" else "\""
    ensures PrintAttribute(a) + t == a.name + ("=" + (quote + (EscapeAll(a.value) + quote + t)))
  {
    var name, value := CString(Put(a.name)), CString(Put(a.value));
    Regroup(name, quote, value, t);
    NamePrints(a.name);
    ValuePrints(a.value);
  }

  lemma AttributeParses(a: Attribute, t: string)
    requires PrintableAttribute(a)
    ensures ParseAttribute(PrintAttribute(a) + t) == Done(a, t)
    ensures IsNameStart((PrintAttribute(a) + t)[0])
  {
    var quote := if '\"' in a.value then "\'" else "\"";
    AttributeLayout(a, t, quote);
    var value := quote + (EscapeAll(a.value) + quote + t);
    QuotedParses(a.value, quote, t);
    NameEqualsValue(a.name, value);
  }

  lemma NameEqualsValue(name: string, value: string)
    requires ReadableName(name) && value != "" && !IsWhiteSpace(value[0])
    requires ReadAttributeValue(value).Done?
    ensures var s := name + ("=" + value);
      && IsNameStart(s[0])
      && ParseAttribute(s) == Done(Attribute(name, ReadAttributeValue(value).value), ReadAttributeValue(value).rest)
  {
    var s := name + ("=" + value);
    NameStartIsNotSpace(name[0]);
    StartsHere(s);
    NameParses(name, "=" + value);
    StartsHere("=" + value);
    assert ("=" + value)[1..] == value;
    StartsHere(value);
  }

  lemma NameStartIsNotSpace(c: char)
    requires IsNameStart(c)
    ensures !IsWhiteSpace(c) && c != '/' && c != '>' && c != '<' && c != '!' && c != '='
  {
  }

  lemma HasNameNot(read: seq<Attribute>, attributes: seq<Attribute>)
    requires UniqueNames(read + attributes) && attributes != []
    ensures !HasName(read, attributes[0].name)
  {
    var all := read + attributes;
    assert all[|read|] == attributes[0];
    assert forall i :: 0 <= i < |read| ==> all[i] == read[i];
  }

  lemma AttributeStep(a: Attribute, t: string, name: string, read: seq<Attribute>)
    requires PrintableAttribute(a) && !HasName(read, a.name) && t != ""
    ensures ParseAttributes(" " + (PrintAttribute(a) + t), name, read) == ParseAttributes(t, name, read + [a])
  {
    var p := PrintAttribute(a) + t;
    AttributeParses(a, t);
    NameStartIsNotSpace(p[0]);
    assert (" " + p)[1..] == p;
    StartsHere(p);
  }

  /** Printed attributes are read back one by one. */
  lemma {:induction false} AttributesParse(attributes: seq<Attribute>, t: string, name: string, read: seq<Attribute>)
    requires forall a :: a in attributes ==> PrintableAttribute(a)
    requires UniqueNames(read + attributes) && t != ""
    ensures ParseAttributes(PrintAttributes(attributes) + t, name, read) == ParseAttributes(t, name, read + attributes)
    decreases attributes
  {
    if attributes == [] {
      assert PrintAttributes(attributes) + t == t && read + attributes == read;
    } else {
      FirstAttribute(attributes, t, name, read);
      MoveFirst(read, attributes);
      AttributesParse(attributes[1..], t, name, read + [attributes[0]]);
    }
  }

  lemma MoveFirst(read: seq<Attribute>, attributes: seq<Attribute>)
    requires attributes != []
    ensures (read + [attributes[0]]) + attributes[1..] == read + attributes
  {
  }

  lemma FirstAttribute(attributes: seq<Attribute>, t: string, name: string, read: seq<Attribute>)
    requires attributes != [] && PrintableAttribute(attributes[0]) && UniqueNames(read + attributes) && t != ""
    ensures ParseAttributes(PrintAttributes(attributes) + t, name, read) ==
      ParseAttributes(PrintAttributes(attributes[1..]) + t, name, read + [attributes[0]])
  {
    var a, rest := attributes[0], PrintAttributes(attributes[1..]) + t;
    RegroupAttributes(PrintAttribute(a), PrintAttributes(attributes[1..]), t);
    HasNameNot(read, attributes);
    AttributeStep(a, rest, name, read);
  }

  lemma RegroupAttributes(first: string, more: string, t: string)
    ensures (" " + first + more) + t == " " + (first + (more + t))
  {
  }

  lemma {:induction false} CDataSpan(v: string, t: string)
    requires !HasCDataEnd(v)
    ensures UntilCDataEnd(v + "]]>" + t) == |v|
  {
    var s := v + "]]>" + t;
    if v == "" {
      assert s[..3] == "]]>";
      assert "]]>" <= s;
    } else {
      assert s[1..] == v[1..] + "]]>" + t;
      assert !HasCDataEnd(v[1..]) by {
        forall i | 0 <= i <= |v[1..]| ensures !("]]>" <= v[1..][i..]) {
          assert v[1..][i..] == v[i + 1..];
        }
      }
      CDataSpan(v[1..], t);
      NotCDataEnd(v, t);
    }
  }

  lemma NotCDataEnd(v: string, t: string)
    requires !HasCDataEnd(v) && v != ""
    ensures !("]]>" <= v + "]]>" + t)
  {
    var s := v + "]]>" + t;
    assert v[0..] == v;
    if |v| >= 3 {
      assert s[..3] == v[..3];
    } else {
      assert s[2] == ']';
    }
  }

  lemma CDataParses(v: string, t: string)
    requires !HasCDataEnd(v)
    ensures "<![CDATA[" <= "<![CDATA[" + v + "]]>" + t
    ensures ParseCData("<![CDATA[" + v + "]]>" + t) == Done(CData(v), t)
  {
    var s := "<![CDATA[" + v + "]]>" + t;
    var body := v + "]]>" + t;
    assert s[..9] == "<![CDATA[" && s[9..] == body;
    CDataSpan(v, t);
    assert body[..|v|] == v && body[|v|..] == "]]>" + t;
    assert ("]]>" + t)[3..] == t;
  }

  // ---------------------------------------------------------------------------------------------
  // Text
  // ---------------------------------------------------------------------------------------------

  predicate AllSpace(ws: string) {
    forall i :: 0 <= i < |ws| ==> IsWhiteSpace(ws[i])
  }

  lemma {:induction false} SkipSpace(ws: string, t: string)
    requires AllSpace(ws)
    ensures Skip(ws + t) == Skip(t)
  {
    if ws == "" {
      assert ws + t == t;
    } else {
      assert (ws + t)[1..] == ws[1..] + t && (ws + t)[0] == ws[0];
      SkipSpace(ws[1..], t);
    }
  }

  /** Skipping the white space before an escaped text drops its leading spaces and no more. */
  lemma {:induction false} SkipEscaped(w: string, t: string)
    ensures DropSpaces(w) == "" ==> Skip(EscapeAll(w) + t) == Skip(t)
    ensures DropSpaces(w) != "" ==> Skip(EscapeAll(w) + t) == EscapeAll(DropSpaces(w)) + t
  {
    var s := EscapeAll(w) + t;
    if w == "" {
      assert s == t;
    } else {
      assert s == EscapeChar(w[0]) + (EscapeAll(w[1..]) + t);
      ReadEscaped(w[0], EscapeAll(w[1..]) + t);
      assert s[0] == EscapeChar(w[0])[0];
      if w[0] == ' ' {
        assert s[1..] == EscapeAll(w[1..]) + t;
        SkipEscaped(w[1..], t);
      }
    }
  }

  lemma {:induction false} CollapseSpace(ws: string, t: string, pending: bool)
    requires AllSpace(ws) && t != "" && t[0] == '<'
    ensures Collapse(ws + t, pending) == Step("", Some(t))
  {
    if ws == "" {
      assert ws + t == t;
    } else {
      assert (ws + t)[1..] == ws[1..] + t && (ws + t)[0] == ws[0];
      CollapseSpace(ws[1..], t, true);
    }
  }

  /** Reading escaped text up to the next tag condenses its spaces; other white space was escaped and
      survives. */
  lemma {:induction false} CollapseEscaped(w: string, ws: string, t: string, pending: bool)
    requires AllSpace(ws) && t != "" && t[0] == '<'
    ensures Collapse(EscapeAll(w) + (ws + t), pending) == Step(CondenseFrom(w, pending), Some(t))
  {
    var s := EscapeAll(w) + (ws + t);
    if w == "" {
      assert s == ws + t;
      CollapseSpace(ws, t, pending);
    } else {
      var rest := EscapeAll(w[1..]) + (ws + t);
      assert s == EscapeChar(w[0]) + rest;
      ReadEscaped(w[0], rest);
      assert s[0] == EscapeChar(w[0])[0];
      if w[0] == ' ' {
        assert s[1..] == rest;
        CollapseEscaped(w[1..], ws, t, true);
      } else {
        CollapseEscaped(w[1..], ws, t, false);
      }
    }
  }

  lemma ContentSkips(s: string, t: string, read: seq<Node>)
    requires Skip(s) == Skip(t)
    ensures ParseContent(s, read) == ParseContent(t, read)
  {
  }

  lemma StartsHere(t: string)
    requires t != "" && !IsWhiteSpace(t[0])
    ensures Skip(t) == t
  {
  }

  /** Text before a tag becomes the text node `Flush` says. */
  lemma TextParses(w: string, ws: string, t: string, read: seq<Node>)
    requires AllSpace(ws) && t != "" && t[0] == '<'
    ensures ParseContent(EscapeAll(w) + (ws + t), read) == ParseContent(t, read + Flush(w))
  {
    var s := EscapeAll(w) + (ws + t);
    SkipEscaped(w, ws + t);
    SkipSpace(ws, t);
    StartsHere(t);
    if DropSpaces(w) == "" {
      ContentSkips(s, t, read);
      assert Condense(w) == "" && read + Flush(w) == read;
    } else {
      var w' := DropSpaces(w);
      var p := EscapeAll(w') + (ws + t);
      ReadEscaped(w'[0], EscapeAll(w'[1..]) + (ws + t));
      assert p[0] == EscapeChar(w'[0])[0];
      CollapseEscaped(w', ws, t, false);
      assert read + Flush(w) == if Blank(Condense(w)) then read else read + [Text(Condense(w))];
    }
  }

  // ---------------------------------------------------------------------------------------------
  // Elements
  // ---------------------------------------------------------------------------------------------

  lemma {:induction false} IndentIsSpace(depth: nat)
    ensures AllSpace(Indent(depth))
  {
    if depth > 0 {
      IndentIsSpace(depth - 1);
    }
  }

  /** A non-empty element is printed as its children between its tags, with white space at most
      before the end tag. */
  lemma ContentShape(name: string, children: seq<Node>, depth: nat) returns (ws: string)
    requires children != []
    ensures AllSpace(ws)
    ensures PrintContent(name, children, depth) == ">" + PrintChildren(children, depth + 1) + ws + EndTag(CString(name))
  {
    if |children| == 1 && !children[0].Element? {
      ws := "";
      ContentOne(name, children, depth);
    } else {
      ws := "\n" + Indent(depth);
      IndentIsSpace(depth);
      ContentMany(name, children, depth);
    }
  }

  lemma ContentOne(name: string, children: seq<Node>, depth: nat)
    requires |children| == 1 && !children[0].Element?
    ensures PrintContent(name, children, depth) == ">" + PrintChildren(children, depth + 1) + "" + EndTag(CString(name))
  {
    OneChild(children, depth + 1);
    RegroupOne(Print(children[0], depth + 1), EndTag(CString(name)));
  }

  lemma ContentMany(name: string, children: seq<Node>, depth: nat)
    requires children != [] && (|children| != 1 || children[0].Element?)
    ensures PrintContent(name, children, depth) ==
      ">" + PrintChildren(children, depth + 1) + ("\n" + Indent(depth)) + EndTag(CString(name))
  {
    RegroupContent(PrintChildren(children, depth + 1), Indent(depth), EndTag(CString(name)));
  }

  lemma RegroupContent(children: string, indent: string, end: string)
    ensures ">" + children + "\n" + indent + end == ">" + children + ("\n" + indent) + end
  {
  }

  lemma RegroupOne(child: string, end: string)
    ensures ">" + child + end == ">" + child + "" + end
  {
  }

  lemma OneChild(children: seq<Node>, depth: nat)
    requires |children| == 1 && !children[0].Element?
    ensures PrintChildren(children, depth) == Print(children[0], depth)
  {
    assert PrintChildren(children[1..], depth) == "";
    assert "" + Print(children[0], depth) + "" == Print(children[0], depth);
  }

  lemma EmptyParses(name: string, attributes: seq<Attribute>, t: string)
    ensures ParseAttributes(" />" + t, name, attributes) == Done(Element(name, attributes, []), t)
  {
    var s, p := " />" + t, "/>" + t;
    assert s[1..] == p;
    StartsHere(p);
    assert p[2..] == t;
  }

  lemma ContentStep(name: string, attributes: seq<Attribute>, body: string, children: seq<Node>, t: string)
    requires ParseContent(body, []) == Done(children, EndTag(name) + t)
    ensures ParseAttributes(">" + body, name, attributes) == Done(Element(name, attributes, children), t)
  {
    var s := ">" + body;
    StartsHere(s);
    assert s[1..] == body;
    assert Drop(EndTag(name) + t, |name| + 3) == t;
  }

  lemma RegroupBody(children: string, ws: string, end: string, t: string)
    ensures (">" + children + ws + end) + t == ">" + (children + (ws + (end + t)))
  {
  }

  /** What the content of an element reads back as, for every text `t` after its end tag. */
  lemma ContentParses(name: string, attributes: seq<Attribute>, children: seq<Node>, depth: nat, t: string)
    requires ReadableName(name) && forall child :: child in children ==> Printable(child)
    ensures ParseAttributes(PrintContent(name, children, depth) + t, name, attributes) ==
      Done(Element(name, attributes, NormalFrom("", children)), t)
    decreases children, 2
  {
    NamePrints(name);
    if children == [] {
      EmptyParses(name, attributes, t);
    } else {
      var ws := ContentShape(name, children, depth);
      var body := PrintChildren(children, depth + 1) + (ws + (EndTag(name) + t));
      RegroupBody(PrintChildren(children, depth + 1), ws, EndTag(name), t);
      ChildrenParse("", children, depth + 1, ws, EndTag(name) + t, []);
      assert EscapeAll("") + body == body;
      assert [] + NormalFrom("", children) == NormalFrom("", children);
      ContentStep(name, attributes, body, NormalFrom("", children), t);
    }
  }

  /** The layout of printed children, the first of them apart, with `z` after them. */
  lemma ChildrenLayout(w: string, children: seq<Node>, depth: nat, z: string)
    requires children != []
    ensures var s := EscapeAll(w) + (PrintChildren(children, depth) + z);
      var printed := Print(children[0], depth) + (PrintChildren(children[1..], depth) + z);
      s == EscapeAll(w) + if children[0].Element? then ("\n" + Indent(depth)) + printed else printed
  {
    var printed := Print(children[0], depth) + (PrintChildren(children[1..], depth) + z);
    var before := if children[0].Element? then "\n" + Indent(depth) else "";
    RegroupChildren(before, Print(children[0], depth), PrintChildren(children[1..], depth), z);
    assert "" + printed == printed;
  }

  lemma RegroupChildren(before: string, first: string, more: string, z: string)
    ensures (before + first + more) + z == before + (first + (more + z))
  {
  }

  lemma TextLayout(w: string, v: string, depth: nat, more: string)
    requires !HasReference(v)
    ensures EscapeAll(w) + (Print(Text(v), depth) + more) == EscapeAll(w + v) + more
  {
    ValuePrints(v);
    EscapeAllConcat(w, v);
    assert EscapeAll(w) + (EscapeAll(v) + more) == (EscapeAll(w) + EscapeAll(v)) + more;
  }

  /** Children that follow the text `w` read back as `NormalFrom` says. */
  lemma ChildrenParse(w: string, children: seq<Node>, depth: nat, ws: string, t: string, read: seq<Node>)
    requires AllSpace(ws) && "</" <= t && forall child :: child in children ==> Printable(child)
    ensures ParseContent(EscapeAll(w) + (PrintChildren(children, depth) + (ws + t)), read) ==
      Done(read + NormalFrom(w, children), t)
    decreases children, 1
  {
    if children == [] {
      assert PrintChildren(children, depth) + (ws + t) == ws + t;
      TextParses(w, ws, t, read);
      StartsHere(t);
    } else {
      var first, more := children[0], PrintChildren(children[1..], depth) + (ws + t);
      assert first in children;
      ChildrenLayout(w, children, depth, ws + t);
      if first.Text? {
        TextLayout(w, first.value, depth, more);
        ChildrenParse(w + first.value, children[1..], depth, ws, t, read);
      } else {
        var next := read + Flush(w) + [Normal(first)];
        if first.CData? {
          CDataStep(w, first.value, depth, more, read);
        } else {
          PrintThenParse(first, depth, more);
          ElementChild(w, first, depth, more, read);
        }
        ChildrenParse("", children[1..], depth, ws, t, next);
        assert EscapeAll("") + more == more;
        RegroupRead(read, Flush(w), Normal(first), NormalFrom("", children[1..]));
      }
    }
  }

  lemma RegroupRead(read: seq<Node>, flushed: seq<Node>, n: Node, rest: seq<Node>)
    ensures (read + flushed + [n]) + rest == read + (flushed + [n] + rest)
  {
  }

  lemma CDataStep(w: string, v: string, depth: nat, more: string, read: seq<Node>)
    requires Printable(CData(v))
    ensures ParseContent(EscapeAll(w) + (Print(CData(v), depth) + more), read) ==
      ParseContent(more, read + Flush(w) + [CData(v)])
  {
    var p := "<![CDATA[" + v + "]]>" + ("\n" + more);
    CDataChild(v, depth, more);
    IndentIsSpace(depth);
    TextParses(w, "\n" + Indent(depth), p, read);
    CDataParses(v, "\n" + more);
    CDataContent(p, read + Flush(w), v, "\n" + more);
    SkipSpace("\n", more);
    ContentSkips("\n" + more, more, read + Flush(w) + [CData(v)]);
  }

  lemma CDataContent(p: string, read: seq<Node>, v: string, rest: string)
    requires "<![CDATA[" <= p && ParseCData(p) == Done(CData(v), rest)
    ensures ParseContent(p, read) == ParseContent(rest, read + [CData(v)])
  {
    assert p[0] == '<' && p[1] == '!';
    StartsHere(p);
    assert !("</" <= p);
  }

  lemma CDataChild(v: string, depth: nat, more: string)
    requires Printable(CData(v))
    ensures Print(CData(v), depth) + more == ("\n" + Indent(depth)) + ("<![CDATA[" + v + "]]>" + ("\n" + more))
  {
    CStringExactly(v);
  }

  lemma ElementChild(w: string, n: Node, depth: nat, more: string, read: seq<Node>)
    requires n.Element? && Printable(n)
    requires ParseElement(Print(n, depth) + more) == Done(Normal(n), more)
    ensures ParseContent(EscapeAll(w) + (("\n" + Indent(depth)) + (Print(n, depth) + more)), read) ==
      ParseContent(more, read + Flush(w) + [Normal(n)])
  {
    var p := Print(n, depth) + more;
    ElementStarts(n, depth);
    assert p[0] == '<' && p[1] == n.name[0];
    IndentIsSpace(depth);
    TextParses(w, "\n" + Indent(depth), p, read);
    ElementContent(p, read + Flush(w), Normal(n), more);
  }

  lemma ElementStarts(n: Node, depth: nat)
    requires n.Element? && Printable(n)
    ensures var s := Print(n, depth); |s| > 1 && s[0] == '<' && s[1] == n.name[0] && IsNameStart(s[1])
  {
    NamePrints(n.name);
  }

  lemma ElementContent(p: string, read: seq<Node>, n: Node, rest: string)
    requires |p| > 1 && p[0] == '<' && IsNameStart(p[1]) && ParseElement(p) == Done(n, rest)
    ensures ParseContent(p, read) == ParseContent(rest, read + [n])
  {
    NameStartIsNotSpace(p[1]);
    StartsHere(p);
    assert !("</" <= p) && !("<![CDATA[" <= p);
  }

  /** The law: whatever follows it, a printed element parses as its normal form and no further. */
  lemma PrintThenParse(n: Node, depth: nat, t: string)
    requires n.Element? && Printable(n)
    ensures ParseElement(Print(n, depth) + t) == Done(Normal(n), t)
    decreases n, 0
  {
    var rest := TagParses(n, depth, t);
    assert [] + n.attributes == n.attributes;
    AttributesParse(n.attributes, rest, n.name, []);
    ContentParses(n.name, n.attributes, n.children, depth, t);
  }

  lemma TagParses(n: Node, depth: nat, t: string) returns (rest: string)
    requires n.Element? && ReadableName(n.name)
    ensures rest == PrintContent(n.name, n.children, depth) + t && rest != ""
    ensures ParseElement(Print(n, depth) + t) == ParseAttributes(PrintAttributes(n.attributes) + rest, n.name, [])
  {
    var content := PrintContent(n.name, n.children, depth);
    rest := content + t;
    NamePrints(n.name);
    ContentStart(n.name, n.children, depth);
    RegroupElement(n.name, PrintAttributes(n.attributes), content, t);
    ElementStep(n.name, PrintAttributes(n.attributes) + rest);
  }

  lemma RegroupElement(name: string, attributes: string, content: string, t: string)
    requires content != "" && !IsNameChar(content[0])
    requires attributes != "" ==> !IsNameChar(attributes[0])
    ensures ("<" + name + attributes + content) + t == "<" + (name + (attributes + (content + t)))
    ensures var rest := attributes + (content + t); rest != "" && !IsNameChar(rest[0])
  {
  }

  lemma ElementStep(name: string, rest: string)
    requires ReadableName(name) && rest != "" && !IsNameChar(rest[0])
    ensures ParseElement("<" + (name + rest)) == ParseAttributes(rest, name, [])
  {
    var s := "<" + (name + rest);
    StartsHere(s);
    assert s[1..] == name + rest;
    NameStartIsNotSpace(name[0]);
    StartsHere(name + rest);
    NameParses(name, rest);
  }

  lemma ContentStart(name: string, children: seq<Node>, depth: nat)
    ensures var s := PrintContent(name, children, depth); s != "" && !IsNameChar(s[0])
  {
  }

  // ---------------------------------------------------------------------------------------------
  // Which trees come back unchanged
  // ---------------------------------------------------------------------------------------------

  /** No space at either end and no two in a row. Other white space is escaped and may be anywhere. */
  predicate WellSpaced(v: string) {
    && (v != "" ==> v[0] != ' ' && v[|v| - 1] != ' ')
    && forall i :: 0 <= i < |v| - 1 ==> NotBothSpaces(v, i)
  }

  predicate NotBothSpaces(v: string, i: nat)
    requires i + 1 < |v|
  {
    v[i] != ' ' || v[i + 1] != ' '
  }

  predicate NotBothTexts(children: seq<Node>, i: nat)
    requires i + 1 < |children|
  {
    !children[i].Text? || !children[i + 1].Text?
  }

  /** Texts are well spaced and not blank, and no two texts are neighbours. */
  predicate IsNormal(n: Node) {
    match n
    case Text(v) => WellSpaced(v) && !Blank(v)
    case CData(_) => true
    case Element(_, _, children) => NoAdjacentTexts(children) && forall child :: child in children ==> IsNormal(child)
  }

  predicate NoAdjacentTexts(children: seq<Node>) {
    forall i :: 0 <= i < |children| - 1 ==> NotBothTexts(children, i)
  }

  predicate AllNormal(children: seq<Node>) {
    forall child :: child in children ==> IsNormal(child)
  }

  lemma {:induction false} CondenseKeeps(v: string, pending: bool)
    requires forall i :: 0 <= i < |v| - 1 ==> NotBothSpaces(v, i)
    requires v != "" ==> v[|v| - 1] != ' '
    requires pending ==> v != "" && v[0] != ' '
    ensures CondenseFrom(v, pending) == (if pending then " " else "") + v
  {
    if v != "" {
      var t := v[1..];
      forall i | 0 <= i < |t| - 1 ensures NotBothSpaces(t, i) {
        assert NotBothSpaces(v, i + 1);
      }
      if v[0] == ' ' {
        assert NotBothSpaces(v, 0);
        CondenseKeeps(t, true);
      } else {
        CondenseKeeps(t, false);
      }
    }
  }

  lemma {:induction false} CondenseFromShape(w: string, pending: bool)
    ensures var r := CondenseFrom(w, pending);
      && (r != "" ==> r[|r| - 1] != ' ')
      && (forall i :: 0 <= i < |r| - 1 ==> NotBothSpaces(r, i))
      && (r != "" && r[0] == ' ' ==> |r| > 1 && (pending || w[0] == ' '))
  {
    if w != "" {
      var r := CondenseFrom(w, pending);
      if w[0] == ' ' {
        CondenseFromShape(w[1..], true);
      } else {
        CondenseFromShape(w[1..], false);
        SpaceOnce(CondenseFrom(w[1..], false), w[0], pending);
      }
    }
  }

  lemma SpaceOnce(rest: string, c: char, pending: bool)
    requires c != ' '
    requires forall i :: 0 <= i < |rest| - 1 ==> NotBothSpaces(rest, i)
    ensures var r := (if pending then " " else "") + [c] + rest;
      forall i :: 0 <= i < |r| - 1 ==> NotBothSpaces(r, i)
  {
    var before := (if pending then " " else "") + [c];
    var r := before + rest;
    forall i | 0 <= i < |r| - 1 ensures NotBothSpaces(r, i) {
      if i >= |before| {
        assert NotBothSpaces(rest, i - |before|);
      }
    }
  }

  /** Condensing changes exactly the texts that are not well spaced. */
  lemma CondenseExactly(w: string)
    ensures WellSpaced(Condense(w))
    ensures Condense(w) == w <==> WellSpaced(w)
  {
    CondenseFromShape(DropSpaces(w), false);
    if WellSpaced(w) {
      assert DropSpaces(w) == w;
      CondenseKeeps(w, false);
    }
  }

  lemma {:induction false} NormalFromShape(w: string, children: seq<Node>)
    ensures NoAdjacentTexts(NormalFrom(w, children)) && AllNormal(NormalFrom(w, children))
    decreases children, 0
  {
    CondenseExactly(w);
    if children == [] {
    } else if children[0].Text? {
      NormalFromShape(w + children[0].value, children[1..]);
    } else {
      NormalFromShape("", children[1..]);
      NormalIsNormal(children[0]);
      JoinNormal(Flush(w), Normal(children[0]), NormalFrom("", children[1..]));
    }
  }

  lemma JoinNormal(before: seq<Node>, n: Node, rest: seq<Node>)
    requires |before| <= 1 && AllNormal(before) && !n.Text? && IsNormal(n)
    requires AllNormal(rest) && NoAdjacentTexts(rest)
    ensures AllNormal(before + [n] + rest) && NoAdjacentTexts(before + [n] + rest)
  {
    var all := before + [n] + rest;
    forall i | 0 <= i < |all| - 1 ensures NotBothTexts(all, i) {
      if i > |before| {
        assert NotBothTexts(rest, i - |before| - 1);
      }
    }
  }

  lemma {:induction false} NormalIsNormal(n: Node)
    requires !n.Text?
    ensures IsNormal(Normal(n))
    decreases n, 1
  {
    if n.Element? {
      NormalFromShape("", n.children);
    }
  }

  lemma {:induction false} NormalKeeps(children: seq<Node>)
    requires AllNormal(children) && NoAdjacentTexts(children)
    ensures NormalFrom("", children) == children
    decreases children, 0
  {
    assert Flush("") == [];
    if children != [] {
      var rest := children[1..];
      forall i | 0 <= i < |rest| - 1 ensures NotBothTexts(rest, i) {
        assert NotBothTexts(children, i + 1);
      }
      assert AllNormal(rest) && children[0] in children;
      NormalKeeps(rest);
      if children[0].Text? {
        if rest != [] {
          assert NotBothTexts(children, 0);
        }
        TextKeeps(children[0], rest);
        assert children == [children[0]] + rest;
      } else {
        NormalKeepsNode(children[0]);
      }
    }
  }

  lemma TextKeeps(n: Node, rest: seq<Node>)
    requires n.Text? && IsNormal(n) && (rest == [] || !rest[0].Text?)
    ensures NormalFrom("", [n] + rest) == [n] + NormalFrom("", rest)
  {
    FlushNormal(n);
    FlushFirst(n.value, rest);
    assert ([n] + rest)[1..] == rest && "" + n.value == n.value;
  }

  lemma FlushNormal(n: Node)
    requires n.Text? && IsNormal(n)
    ensures Flush(n.value) == [n]
  {
    CondenseExactly(n.value);
  }

  lemma FlushFirst(w: string, rest: seq<Node>)
    requires rest == [] || !rest[0].Text?
    ensures NormalFrom(w, rest) == Flush(w) + NormalFrom("", rest)
  {
    assert Flush("") == [];
    if rest != [] {
      FlushJoin(Flush(w), [Normal(rest[0])], NormalFrom("", rest[1..]));
    }
  }

  lemma FlushJoin(a: seq<Node>, b: seq<Node>, c: seq<Node>)
    ensures a + b + c == a + ([] + b + c)
  {
  }

  lemma {:induction false} NormalKeepsNode(n: Node)
    requires IsNormal(n)
    ensures Normal(n) == n
    decreases n, 1
  {
    if n.Element? {
      NormalKeeps(n.children);
    }
  }

  /** A printed element parses back as itself exactly when it is normal: its texts well spaced, not
      blank and not next to one another. */
  lemma RoundTrip(n: Node, depth: nat, t: string)
    requires n.Element? && Printable(n)
    ensures ParseElement(Print(n, depth) + t) == Done(n, t) <==> IsNormal(n)
  {
    PrintThenParse(n, depth, t);
    if IsNormal(n) {
      NormalKeepsNode(n);
    } else {
      NormalIsNormal(n);
    }
  }

  function NormalRoots(roots: seq<Node>): seq<Node> {
    if roots == [] then [] else [Normal(roots[0])] + NormalRoots(roots[1..])
  }

  /** Printing a document of elements and parsing it gives its elements, normalised. */
  lemma {:induction false} DocumentParses(roots: seq<Node>, read: seq<Node>)
    requires forall n :: n in roots ==> n.Element? && Printable(n)
    ensures ParseDocument(PrintDocument(roots), read) ==
      if read + roots == [] then Failed else Done(read + NormalRoots(roots), "")
    decreases roots
  {
    if roots != [] {
      var next := read + [Normal(roots[0])];
      RootParses(roots, read);
      DocumentParses(roots[1..], next);
      RegroupRoots(read, Normal(roots[0]), NormalRoots(roots[1..]));
    } else {
      assert read + NormalRoots(roots) == read;
    }
  }

  lemma RootStep(p: string, read: seq<Node>, n: Node, more: string)
    requires |p| > 1 && p[0] == '<' && IsNameStart(p[1]) && ParseElement(p) == Done(n, "\n" + more)
    ensures ParseDocument(p, read) == ParseDocument(more, read + [n])
  {
    StartsHere(p);
    NameStartIsNotSpace(p[1]);
    assert !("<![CDATA[" <= p);
    SkipSpace("\n", more);
    DocumentSkips("\n" + more, more, read + [n]);
  }

  lemma DocumentSkips(s: string, t: string, read: seq<Node>)
    requires Skip(s) == Skip(t)
    ensures ParseDocument(s, read) == ParseDocument(t, read)
  {
  }

  lemma RegroupRoots(read: seq<Node>, n: Node, rest: seq<Node>)
    ensures (read + [n]) + rest == read + ([n] + rest)
  {
  }

  lemma RootParses(roots: seq<Node>, read: seq<Node>)
    requires roots != [] && roots[0].Element? && Printable(roots[0])
    ensures ParseDocument(PrintDocument(roots), read) == ParseDocument(PrintDocument(roots[1..]), read + [Normal(roots[0])])
  {
    var first, more := roots[0], PrintDocument(roots[1..]);
    RegroupDocument(Print(first, 0), more);
    PrintThenParse(first, 0, "\n" + more);
    ElementStarts(first, 0);
    RootStep(Print(first, 0) + ("\n" + more), read, Normal(first), more);
  }

  lemma RegroupDocument(printed: string, more: string)
    ensures printed + "\n" + more == printed + ("\n" + more)
  {
  }
}
