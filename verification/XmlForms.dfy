/** XML as anybody may write it, and what TinyXML makes of it: white space where the syntax has any, either
    quote or none, characters raw or as references of any kind, empty tags in both ways. */
module XmlForms {
  import opened Options
  import opened XmlText
  import opened XmlReferences
  import opened Xml
  import opened XmlRoundTrip

  /** White space is that of XML and the two control characters C has besides. */
  lemma WhiteSpaceIs(c: char)
    ensures IsWhiteSpace(c) <==> c in " \t\n\r" || c as int == 11 || c as int == 12
  {
    assert " \t\n\r"[0] == ' ' && " \t\n\r"[1] == '\t' && " \t\n\r"[2] == '\n' && " \t\n\r"[3] == '\r';
  }

  // ---------------------------------------------------------------------------------------------
  // Characters
  // ---------------------------------------------------------------------------------------------

  /** One character, as it is written: itself, by name, or by a number its digits write. */
  datatype Piece = Raw(c: char) | Named(c: char) | Numbered(digits: string, n: nat, hex: bool)

  predicate GoodPiece(p: Piece) {
    match p
    case Raw(c) => c != '&'
    case Named(c) => c == '&' || c == '<' || c == '>' || c == '\"' || c == '\''
    case Numbered(digits, n, hex) => Writes(digits, n, if hex then 16 else 10)
  }

  function NameOf(c: char): string {
    if c == '&' then "&amp;"
    else if c == '<' then "&lt;"
    else if c == '>' then "&gt;"
    else if c == '\"' then "&quot;"
    else "&apos;"
  }

  function PieceText(p: Piece): (r: string)
    ensures r != ""
  {
    match p
    case Raw(c) => [c]
    case Named(c) => NameOf(c)
    case Numbered(digits, _, hex) => (if hex then "&#x" else "&#") + (digits + ";")
  }

  function PieceChar(p: Piece): char {
    match p
    case Raw(c) => c
    case Named(c) => c
    case Numbered(_, n, _) => (n % 256) as char
  }

  function PiecesText(ps: seq<Piece>): string {
    if ps == [] then "" else PieceText(ps[0]) + PiecesText(ps[1..])
  }

  function PiecesChars(ps: seq<Piece>): string {
    if ps == [] then "" else [PieceChar(ps[0])] + PiecesChars(ps[1..])
  }

  /** A character reads as itself however it is written and whatever follows it. */
  lemma PieceReads(p: Piece, t: string)
    requires GoodPiece(p)
    ensures GetChar(PieceText(p) + t) == Step([PieceChar(p)], Some(t))
    ensures !p.Raw? ==> PieceText(p)[0] == '&'
  {
    match p
    case Raw(c) => assert ([c] + t)[1..] == t;
    case Named(c) =>
      assert NameOf(c) == EscapeChar(c);
      ReadEscaped(c, t);
    case Numbered(digits, n, hex) =>
      if hex {
        assert PieceText(p) + t == "&#x" + (digits + (";" + t));
        HexReads(digits, n, t);
      } else {
        assert PieceText(p) + t == "&#" + (digits + (";" + t));
        DecimalReads(digits, n, t);
      }
  }

  /** Some text, and then what a step reads. */
  function Then(text: string, step: Step): Step {
    Step(text + step.out, step.next)
  }

  lemma ThenThen(a: string, b: string, step: Step)
    ensures Then(a, Then(b, step)) == Then(a + b, step)
  {
    assert a + (b + step.out) == (a + b) + step.out;
  }

  // ---------------------------------------------------------------------------------------------
  // Attributes
  // ---------------------------------------------------------------------------------------------

  /** A value between quotes, or without. */
  datatype ValueForm = Quoted(quote: char, pieces: seq<Piece>) | Bare(value: string)

  /** An attribute with the white space before its name, its equals sign and its value. */
  datatype AttributeForm = AttributeForm(before: string, name: string, gap1: string, gap2: string, value: ValueForm)

  predicate BareChar(c: char) {
    !IsWhiteSpace(c) && c != '/' && c != '>' && c != '\'' && c != '\"'
  }

  predicate GoodValue(v: ValueForm) {
    match v
    case Quoted(quote, pieces) =>
      (quote == '\'' || quote == '\"') && GoodQuoted(pieces, quote)
    case Bare(value) => value != "" && forall c :: c in value ==> BareChar(c)
  }

  predicate GoodAttribute(a: AttributeForm) {
    && AllSpace(a.before) && a.before != "" && ReadableName(a.name) && AllSpace(a.gap1) && AllSpace(a.gap2) && GoodValue(a.value)
  }

  function ValueText(v: ValueForm): (r: string) {
    match v
    case Quoted(quote, pieces) => [quote] + (PiecesText(pieces) + [quote])
    case Bare(value) => value
  }

  function ValueMeaning(v: ValueForm): string {
    match v
    case Quoted(_, pieces) => PiecesChars(pieces)
    case Bare(value) => value
  }

  function AttributeText(a: AttributeForm): string {
    a.before + (a.name + (a.gap1 + ("=" + (a.gap2 + ValueText(a.value)))))
  }

  function AttributeMeaning(a: AttributeForm): Attribute {
    Attribute(a.name, ValueMeaning(a.value))
  }

  function AttributesText(attributes: seq<AttributeForm>): string {
    if attributes == [] then "" else AttributeText(attributes[0]) + AttributesText(attributes[1..])
  }

  function AttributesMeaning(attributes: seq<AttributeForm>): (r: seq<Attribute>)
    ensures |r| == |attributes|
  {
    if attributes == [] then [] else [AttributeMeaning(attributes[0])] + AttributesMeaning(attributes[1..])
  }

  predicate GoodQuoted(ps: seq<Piece>, quote: char) {
    forall p :: p in ps ==> GoodPiece(p) && (p.Raw? ==> p.c != quote)
  }

  lemma PieceReadsRaw(p: Piece, quote: string, rest: string)
    requires IsQuote(quote) && GoodQuoted([p], quote[0])
    ensures ReadRaw(PieceText(p) + rest, quote) == Then([PieceChar(p)], ReadRaw(rest, quote))
  {
    assert p in [p];
    PieceReads(p, rest);
    assert (PieceText(p) + rest)[0] == PieceText(p)[0];
    RawStep(PieceText(p) + rest, quote);
  }

  lemma {:induction false} PiecesRead(ps: seq<Piece>, quote: string, t: string)
    requires IsQuote(quote) && GoodQuoted(ps, quote[0])
    ensures ReadRaw(PiecesText(ps) + (quote + t), quote) == Step(PiecesChars(ps), Some(quote + t))
  {
    if ps == [] {
      assert PiecesText(ps) + (quote + t) == quote + t;
    } else {
      assert ps[0] in ps;
      assert PiecesText(ps) + (quote + t) == PieceText(ps[0]) + (PiecesText(ps[1..]) + (quote + t));
      PieceReadsRaw(ps[0], quote, PiecesText(ps[1..]) + (quote + t));
      PiecesRead(ps[1..], quote, t);
    }
  }

  lemma {:induction false} BareReads(v: string, t: string)
    requires (forall c :: c in v ==> BareChar(c)) && (t == "" || IsWhiteSpace(t[0]) || t[0] == '/' || t[0] == '>')
    ensures ReadBare(v + t) == Done(v, t)
  {
    if v == "" {
      assert v + t == t;
    } else {
      assert v[0] in v && (v + t)[1..] == v[1..] + t;
      BareReads(v[1..], t);
      assert [v[0]] + v[1..] == v;
    }
  }

  /** What may follow an attribute. */
  predicate AfterAttribute(t: string) {
    t != "" && (IsWhiteSpace(t[0]) || t[0] == '/' || t[0] == '>')
  }

  lemma QuotedLayout(q: string, text: string, t: string)
    requires |q| == 1
    ensures var s := (q + (text + q)) + t; s != "" && s[0] == q[0] && s[1..] == text + (q + t) && Drop(q + t, 1) == t
  {
    assert (q + (text + q)) + t == q + (text + (q + t));
  }

  lemma QuotedReads(quote: char, pieces: seq<Piece>, t: string)
    requires GoodValue(Quoted(quote, pieces))
    ensures var s := ([quote] + (PiecesText(pieces) + [quote])) + t;
      s != "" && s[0] == quote && ReadAttributeValue(s) == Done(PiecesChars(pieces), t)
  {
    QuotedLayout([quote], PiecesText(pieces), t);
    PiecesRead(pieces, [quote], t);
    AfterQuote(([quote] + (PiecesText(pieces) + [quote])) + t, [quote], PiecesChars(pieces), t);
  }

  lemma AfterQuote(s: string, q: string, v: string, t: string)
    requires IsQuote(q) && s != "" && s[0] == q[0] && ReadRaw(s[1..], q) == Step(v, Some(q + t)) && Drop(q + t, 1) == t
    ensures ReadAttributeValue(s) == Done(v, t)
  {
    assert q == [q[0]];
  }

  lemma ValueReads(v: ValueForm, t: string)
    requires GoodValue(v) && AfterAttribute(t)
    ensures var s := ValueText(v) + t;
      s != "" && !IsWhiteSpace(s[0]) && ReadAttributeValue(s) == Done(ValueMeaning(v), t)
  {
    match v
    case Quoted(quote, pieces) => QuotedReads(quote, pieces, t);
    case Bare(value) =>
      assert value[0] in value;
      BareReads(value, t);
  }

  /** An attribute parses as its name and its value. */
  lemma AttributeFormParses(a: AttributeForm, t: string)
    requires GoodAttribute(a) && AfterAttribute(t)
    ensures var p := a.name + (a.gap1 + ("=" + (a.gap2 + (ValueText(a.value) + t))));
      IsNameStart(p[0]) && ParseAttribute(p) == Done(AttributeMeaning(a), t)
  {
    var value := ValueText(a.value) + t;
    var equals := "=" + (a.gap2 + value);
    var afterName := a.gap1 + equals;
    var p := a.name + afterName;
    ValueReads(a.value, t);
    NameStartIsNotSpace(a.name[0]);
    StartsHere(p);
    assert afterName[0] == if a.gap1 == "" then '=' else a.gap1[0];
    NameParses(a.name, afterName);
    SkipSpace(a.gap1, equals);
    StartsHere(equals);
    assert equals[1..] == a.gap2 + value;
    SkipSpace(a.gap2, value);
    StartsHere(value);
  }

  lemma RegroupForm(a: AttributeForm, more: string, t: string)
    ensures (AttributeText(a) + more) + t ==
      a.before + (a.name + (a.gap1 + ("=" + (a.gap2 + (ValueText(a.value) + (more + t))))))
  {
  }

  predicate GoodAttributes(attributes: seq<AttributeForm>) {
    forall a :: a in attributes ==> GoodAttribute(a)
  }

  lemma {:induction false} AttributesStart(attributes: seq<AttributeForm>, t: string)
    requires GoodAttributes(attributes) && AfterAttribute(t)
    ensures AfterAttribute(AttributesText(attributes) + t)
  {
    if attributes == [] {
      assert AttributesText(attributes) + t == t;
    } else {
      assert attributes[0] in attributes;
    }
  }

  /** Attributes with different names are read one by one. */
  lemma {:induction false} AttributeFormsParse(attributes: seq<AttributeForm>, t: string, name: string, read: seq<Attribute>)
    requires GoodAttributes(attributes) && AfterAttribute(t) && UniqueNames(read + AttributesMeaning(attributes))
    ensures ParseAttributes(AttributesText(attributes) + t, name, read) ==
      ParseAttributes(t, name, read + AttributesMeaning(attributes))
    decreases attributes
  {
    if attributes == [] {
      assert AttributesText(attributes) + t == t && read + [] == read;
    } else {
      var a, rest := AttributeMeaning(attributes[0]), AttributesText(attributes[1..]) + t;
      FirstFormParses(attributes, t, name, read);
      MoveFirst(read, AttributesMeaning(attributes));
      assert AttributesMeaning(attributes)[1..] == AttributesMeaning(attributes[1..]);
      AttributeFormsParse(attributes[1..], t, name, read + [a]);
    }
  }

  lemma FirstFormParses(attributes: seq<AttributeForm>, t: string, name: string, read: seq<Attribute>)
    requires attributes != [] && GoodAttributes(attributes) && AfterAttribute(t)
    requires UniqueNames(read + AttributesMeaning(attributes))
    ensures ParseAttributes(AttributesText(attributes) + t, name, read) ==
      ParseAttributes(AttributesText(attributes[1..]) + t, name, read + [AttributeMeaning(attributes[0])])
  {
    var a, rest := attributes[0], AttributesText(attributes[1..]) + t;
    assert a in attributes;
    AttributesStart(attributes[1..], t);
    RegroupForm(a, AttributesText(attributes[1..]), t);
    AttributeFormParses(a, rest);
    HasNameNot(read, AttributesMeaning(attributes));
    OneFormParses(a, rest, name, read);
  }

  lemma OneFormParses(a: AttributeForm, t: string, name: string, read: seq<Attribute>)
    requires GoodAttribute(a) && t != "" && !HasName(read, a.name)
    requires var p := a.name + (a.gap1 + ("=" + (a.gap2 + (ValueText(a.value) + t))));
      IsNameStart(p[0]) && ParseAttribute(p) == Done(AttributeMeaning(a), t)
    ensures ParseAttributes(a.before + (a.name + (a.gap1 + ("=" + (a.gap2 + (ValueText(a.value) + t))))), name, read) ==
      ParseAttributes(t, name, read + [AttributeMeaning(a)])
  {
    var p := a.name + (a.gap1 + ("=" + (a.gap2 + (ValueText(a.value) + t))));
    SkipSpace(a.before, p);
    NameStartIsNotSpace(p[0]);
    StartsHere(p);
  }

  // ---------------------------------------------------------------------------------------------
  // Text
  // ---------------------------------------------------------------------------------------------

  /** No raw white space and no raw `<`. */
  predicate GoodPieces(ps: seq<Piece>) {
    forall p :: p in ps ==> GoodPiece(p) && (p.Raw? ==> p.c != '<' && !IsWhiteSpace(p.c))
  }

  /** A word and the white space behind it. */
  datatype Word = Word(pieces: seq<Piece>, after: string)

  predicate GoodWord(w: Word) {
    w.pieces != [] && AllSpace(w.after) && GoodPieces(w.pieces)
  }

  /** A word that is not the last has white space behind it. */
  predicate GoodWords(words: seq<Word>) {
    && (forall w :: w in words ==> GoodWord(w))
    && forall i :: 0 <= i < |words| - 1 ==> words[i].after != ""
  }

  function WordsText(words: seq<Word>): string {
    if words == [] then "" else PiecesText(words[0].pieces) + (words[0].after + WordsText(words[1..]))
  }

  /** The words with one space between them. */
  function WordsMeaning(words: seq<Word>): string {
    if words == [] then ""
    else if |words| == 1 then PiecesChars(words[0].pieces)
    else PiecesChars(words[0].pieces) + " " + WordsMeaning(words[1..])
  }

  function Pending(pending: bool): string {
    if pending then " " else ""
  }

  lemma CollapseOne(p: Piece, rest: string, pending: bool)
    requires GoodPieces([p])
    ensures Collapse(PieceText(p) + rest, pending) == Then(Pending(pending) + [PieceChar(p)], Collapse(rest, false))
  {
    var s := PieceText(p) + rest;
    assert p in [p];
    PieceReads(p, rest);
    assert s[0] == PieceText(p)[0];
  }

  lemma {:induction false} PiecesCollapse(ps: seq<Piece>, t: string)
    requires GoodPieces(ps)
    ensures Collapse(PiecesText(ps) + t, false) == Then(PiecesChars(ps), Collapse(t, false))
    decreases |ps|
  {
    if ps == [] {
      assert PiecesText(ps) + t == t;
    } else {
      PiecesSplit(ps, t);
      CollapseOne(ps[0], PiecesText(ps[1..]) + t, false);
      PiecesCollapse(ps[1..], t);
      ThenThen([PieceChar(ps[0])], PiecesChars(ps[1..]), Collapse(t, false));
    }
  }

  lemma PiecesSplit(ps: seq<Piece>, t: string)
    requires ps != [] && GoodPieces(ps)
    ensures PiecesText(ps) + t == PieceText(ps[0]) + (PiecesText(ps[1..]) + t)
    ensures GoodPieces([ps[0]]) && GoodPieces(ps[1..])
  {
    assert ps[0] in ps;
  }

  /** A word: a space first, if white space was just passed. */
  lemma WordCollapse(ps: seq<Piece>, t: string, pending: bool)
    requires ps != [] && GoodPieces(ps)
    ensures Collapse(PiecesText(ps) + t, pending) == Then(Pending(pending) + PiecesChars(ps), Collapse(t, false))
  {
    var rest := PiecesText(ps[1..]) + t;
    PiecesSplit(ps, t);
    CollapseOne(ps[0], rest, pending);
    PiecesCollapse(ps[1..], t);
    JoinWord(Pending(pending), [PieceChar(ps[0])], PiecesChars(ps[1..]), Collapse(t, false));
  }

  lemma JoinWord(before: string, first: string, more: string, step: Step)
    ensures Then(before + first, Then(more, step)) == Then(before + (first + more), step)
  {
    assert (before + first) + (more + step.out) == (before + (first + more)) + step.out;
  }

  lemma {:induction false} GapCollapse(gap: string, t: string, pending: bool)
    requires AllSpace(gap)
    ensures Collapse(gap + t, pending) == Collapse(t, pending || gap != "")
  {
    if gap == "" {
      assert gap + t == t;
    } else {
      assert (gap + t)[1..] == gap[1..] + t && (gap + t)[0] == gap[0];
      GapCollapse(gap[1..], t, true);
    }
  }

  lemma FirstWord(words: seq<Word>, t: string, pending: bool)
    requires words != [] && GoodWords(words)
    ensures Collapse(WordsText(words) + t, pending) ==
      Then(Pending(pending) + PiecesChars(words[0].pieces), Collapse(WordsText(words[1..]) + t, words[0].after != ""))
  {
    var w, more := words[0], WordsText(words[1..]) + t;
    assert w in words && WordsText(words) + t == PiecesText(w.pieces) + (w.after + more);
    WordCollapse(w.pieces, w.after + more, pending);
    GapCollapse(w.after, more, false);
  }

  /** Reading words up to a tag joins them with single spaces. */
  lemma {:induction false} WordsCollapse(words: seq<Word>, t: string, pending: bool)
    requires words != [] && GoodWords(words) && t != "" && t[0] == '<'
    ensures Collapse(WordsText(words) + t, pending) == Step(Pending(pending) + WordsMeaning(words), Some(t))
    decreases |words|
  {
    var first := PiecesChars(words[0].pieces);
    FirstWord(words, t, pending);
    if |words| == 1 {
      OneWord(words, t, Pending(pending) + first);
    } else {
      RestGood(words);
      WordsCollapse(words[1..], t, true);
      MoreWords(Pending(pending), first, WordsMeaning(words[1..]), t);
    }
  }

  lemma OneWord(words: seq<Word>, t: string, chars: string)
    requires |words| == 1 && t != "" && t[0] == '<'
    ensures WordsText(words[1..]) + t == t && forall pending :: Then(chars, Collapse(t, pending)) == Step(chars, Some(t))
  {
    assert chars + "" == chars;
  }

  lemma MoreWords(before: string, first: string, rest: string, t: string)
    ensures Then(before + first, Step(Pending(true) + rest, Some(t))) == Step(before + (first + " " + rest), Some(t))
  {
    assert (before + first) + (" " + rest) == before + (first + " " + rest);
  }

  lemma RestGood(words: seq<Word>)
    requires |words| > 1 && GoodWords(words)
    ensures GoodWords(words[1..]) && words[0].after != ""
  {
    forall i | 0 <= i < |words[1..]| - 1 ensures words[1..][i].after != "" {
      assert words[1..][i] == words[i + 1];
    }
  }

  lemma WordsStart(words: seq<Word>, t: string)
    requires words != [] && GoodWords(words)
    ensures var s := WordsText(words) + t; s != "" && !IsWhiteSpace(s[0]) && s[0] != '<'
  {
    var w := words[0];
    assert w in words && w.pieces[0] in w.pieces;
    PieceReads(w.pieces[0], "");
    assert (WordsText(words) + t)[0] == PieceText(w.pieces[0])[0];
  }

  /** Text between two tags becomes one text node, or none if it is blank. */
  lemma TextFormParses(before: string, words: seq<Word>, t: string, read: seq<Node>)
    requires AllSpace(before) && words != [] && GoodWords(words) && t != "" && t[0] == '<'
    ensures ParseContent(before + (WordsText(words) + t), read) ==
      ParseContent(t, if Blank(WordsMeaning(words)) then read else read + [Text(WordsMeaning(words))])
  {
    var s := WordsText(words) + t;
    SkipSpace(before, s);
    WordsStart(words, t);
    StartsHere(s);
    ContentSkips(before + s, s, read);
    WordsCollapse(words, t, false);
    assert "" + WordsMeaning(words) == WordsMeaning(words);
  }

  // ---------------------------------------------------------------------------------------------
  // Elements
  // ---------------------------------------------------------------------------------------------

  /** An element: an empty tag, or a start tag, content and an end tag, with white space before the end of
      the first tag and before the end tag. */
  datatype ElementForm = ElementForm(name: string, attributes: seq<AttributeForm>, gap: string, body: BodyForm)

  datatype BodyForm = EmptyTag | Body(items: seq<Item>, gap: string)

  /** A piece of content, with the white space before it. */
  datatype Item =
    | TextItem(gap: string, words: seq<Word>)
    | CDataItem(gap: string, value: string)
    | ElementItem(gap: string, element: ElementForm)

  ghost predicate GoodElement(e: ElementForm) {
    && ReadableName(e.name) && GoodAttributes(e.attributes) && UniqueNames(AttributesMeaning(e.attributes)) && AllSpace(e.gap)
    && (e.body.Body? ==> GoodItems(e.body.items, e.body.gap))
  }

  /** Texts are not next to one another, and what white space follows one is part of it. */
  ghost predicate GoodItems(items: seq<Item>, last: string) {
    if items == [] then AllSpace(last)
    else
      && AllSpace(items[0].gap) && GoodItem(items[0]) && GoodItems(items[1..], last)
      && (items[0].TextItem? ==>
            if items[1..] == [] then last == "" else !items[1].TextItem? && items[1].gap == "")
  }

  ghost predicate GoodItem(item: Item) {
    match item
    case TextItem(_, words) => words != [] && GoodWords(words)
    case CDataItem(_, value) => !HasCDataEnd(value)
    case ElementItem(_, element) => GoodElement(element)
  }

  function ElementText(e: ElementForm): string
    decreases e
  {
    "<" + (e.name + (AttributesText(e.attributes) + (e.gap + TailText(e))))
  }

  function TailText(e: ElementForm): string
    decreases e, 0
  {
    match e.body
    case EmptyTag => "/>"
    case Body(items, gap) => ">" + (ItemsText(items) + (gap + EndTag(e.name)))
  }

  function ItemText(item: Item): string
    decreases item, 0
  {
    match item
    case TextItem(_, words) => WordsText(words)
    case CDataItem(_, value) => "<![CDATA[" + value + "]]>"
    case ElementItem(_, element) => ElementText(element)
  }

  function ItemsText(items: seq<Item>): string
    decreases items
  {
    if items == [] then "" else items[0].gap + (ItemText(items[0]) + ItemsText(items[1..]))
  }

  function ElementMeaning(e: ElementForm): Node
    decreases e
  {
    Element(e.name, AttributesMeaning(e.attributes), if e.body.EmptyTag? then [] else ItemsMeaning(e.body.items))
  }

  /** A blank text is no node. */
  function ItemMeaning(item: Item): seq<Node>
    decreases item, 0
  {
    match item
    case TextItem(_, words) => if Blank(WordsMeaning(words)) then [] else [Text(WordsMeaning(words))]
    case CDataItem(_, value) => [CData(value)]
    case ElementItem(_, element) => [ElementMeaning(element)]
  }

  function ItemsMeaning(items: seq<Item>): seq<Node>
    decreases items
  {
    if items == [] then [] else ItemMeaning(items[0]) + ItemsMeaning(items[1..])
  }

  lemma SpaceThenParses(gap: string, p: string, name: string, attributes: seq<Attribute>)
    requires AllSpace(gap) && p != "" && !IsWhiteSpace(p[0])
    ensures ParseAttributes(gap + p, name, attributes) == ParseAttributes(p, name, attributes)
  {
    SkipSpace(gap, p);
    StartsHere(p);
  }

  lemma EmptyTagParses(name: string, attributes: seq<Attribute>, t: string)
    ensures ParseAttributes("/>" + t, name, attributes) == Done(Element(name, attributes, []), t)
  {
    StartsHere("/>" + t);
    assert ("/>" + t)[2..] == t;
  }

  lemma RegroupElementForm(e: ElementForm, t: string)
    ensures ElementText(e) + t == "<" + (e.name + (AttributesText(e.attributes) + (e.gap + (TailText(e) + t))))
  {
  }

  lemma RegroupTail(items: string, gap: string, end: string, t: string)
    ensures (">" + (items + (gap + end))) + t == ">" + (items + (gap + (end + t)))
  {
  }

  /** An element, in whatever way it is written, parses as what it means, and no further. */
  lemma ElementFormParses(e: ElementForm, t: string)
    requires GoodElement(e)
    ensures ParseElement(ElementText(e) + t) == Done(ElementMeaning(e), t)
    decreases e
  {
    var tail := TailText(e) + t;
    var rest := AttributesText(e.attributes) + (e.gap + tail);
    RegroupElementForm(e, t);
    GapAndTail(e, t);
    AttributesStart(e.attributes, e.gap + tail);
    ElementStep(e.name, rest);
    assert [] + AttributesMeaning(e.attributes) == AttributesMeaning(e.attributes);
    AttributeFormsParse(e.attributes, e.gap + tail, e.name, []);
    SpaceThenParses(e.gap, tail, e.name, AttributesMeaning(e.attributes));
    TailParses(e, t);
  }

  lemma GapAndTail(e: ElementForm, t: string)
    requires AllSpace(e.gap)
    ensures AfterAttribute(e.gap + (TailText(e) + t))
    ensures var tail := TailText(e) + t; tail != "" && !IsWhiteSpace(tail[0])
  {
  }

  lemma TailParses(e: ElementForm, t: string)
    requires GoodElement(e)
    ensures ParseAttributes(TailText(e) + t, e.name, AttributesMeaning(e.attributes)) == Done(ElementMeaning(e), t)
    decreases e, 0
  {
    var attributes := AttributesMeaning(e.attributes);
    match e.body
    case EmptyTag => EmptyTagParses(e.name, attributes, t);
    case Body(items, gap) =>
      var end := EndTag(e.name) + t;
      RegroupTail(ItemsText(items), gap, EndTag(e.name), t);
      ItemsParse(items, gap, end, []);
      assert [] + ItemsMeaning(items) == ItemsMeaning(items);
      ContentStep(e.name, attributes, ItemsText(items) + (gap + end), ItemsMeaning(items), t);
  }

  lemma RegroupItems(gap: string, first: string, more: string, z: string)
    ensures (gap + (first + more)) + z == gap + (first + (more + z))
  {
  }

  lemma RegroupMeaning(read: seq<Node>, a: seq<Node>, b: seq<Node>)
    ensures (read + a) + b == read + (a + b)
  {
  }

  /** Content parses item by item. */
  lemma ItemsParse(items: seq<Item>, last: string, t: string, read: seq<Node>)
    requires GoodItems(items, last) && "</" <= t
    ensures ParseContent(ItemsText(items) + (last + t), read) == Done(read + ItemsMeaning(items), t)
    decreases items
  {
    if items == [] {
      assert ItemsText(items) + (last + t) == last + t && read + [] == read;
      SkipSpace(last, t);
      StartsHere(t);
    } else {
      var more := ItemsText(items[1..]) + (last + t);
      RegroupItems(items[0].gap, ItemText(items[0]), ItemsText(items[1..]), last + t);
      ItemParses(items, last, t, read);
      ItemsParse(items[1..], last, t, read + ItemMeaning(items[0]));
      RegroupMeaning(read, ItemMeaning(items[0]), ItemsMeaning(items[1..]));
    }
  }

  lemma ItemParses(items: seq<Item>, last: string, t: string, read: seq<Node>)
    requires items != [] && GoodItems(items, last) && "</" <= t
    ensures var more := ItemsText(items[1..]) + (last + t);
      ParseContent(items[0].gap + (ItemText(items[0]) + more), read) == ParseContent(more, read + ItemMeaning(items[0]))
    decreases items, 0
  {
    var more := ItemsText(items[1..]) + (last + t);
    match items[0]
    case TextItem(gap, words) =>
      TagFollows(items, last, t);
      TextFormParses(gap, words, more, read);
      assert read + [] == read;
    case CDataItem(gap, value) => CDataItemParses(gap, value, more, read);
    case ElementItem(gap, element) =>
      ElementFormParses(element, more);
      ElementItemParses(gap, element, more, read);
  }

  lemma MarkupStarts(item: Item)
    requires !item.TextItem?
    ensures ItemText(item) != "" && ItemText(item)[0] == '<'
  {
  }

  lemma TagFollows(items: seq<Item>, last: string, t: string)
    requires items != [] && items[0].TextItem? && GoodItems(items, last) && "</" <= t
    ensures var more := ItemsText(items[1..]) + (last + t); more != "" && more[0] == '<'
  {
    var rest := items[1..];
    if rest == [] {
      assert ItemsText(rest) + (last + t) == t;
    } else {
      MarkupStarts(rest[0]);
    }
  }

  lemma CDataItemParses(gap: string, value: string, more: string, read: seq<Node>)
    requires AllSpace(gap) && !HasCDataEnd(value)
    ensures ParseContent(gap + (("<![CDATA[" + value + "]]>") + more), read) == ParseContent(more, read + [CData(value)])
  {
    var p := "<![CDATA[" + value + "]]>" + more;
    SkipSpace(gap, p);
    ContentSkips(gap + p, p, read);
    CDataParses(value, more);
    CDataContent(p, read, value, more);
  }

  lemma ElementItemParses(gap: string, e: ElementForm, more: string, read: seq<Node>)
    requires AllSpace(gap) && GoodElement(e) && ParseElement(ElementText(e) + more) == Done(ElementMeaning(e), more)
    ensures ParseContent(gap + (ElementText(e) + more), read) == ParseContent(more, read + [ElementMeaning(e)])
  {
    var p := ElementText(e) + more;
    assert p[0] == '<' && p[1] == e.name[0];
    SkipSpace(gap, p);
    ContentSkips(gap + p, p, read);
    ElementContent(p, read, ElementMeaning(e), more);
  }

  // ---------------------------------------------------------------------------------------------
  // Documents
  // ---------------------------------------------------------------------------------------------

  /** Elements with white space around them. */
  datatype RootForm = RootForm(gap: string, element: ElementForm)

  function RootsText(roots: seq<RootForm>): string {
    if roots == [] then "" else roots[0].gap + (ElementText(roots[0].element) + RootsText(roots[1..]))
  }

  function RootsMeaning(roots: seq<RootForm>): seq<Node> {
    if roots == [] then [] else [ElementMeaning(roots[0].element)] + RootsMeaning(roots[1..])
  }

  /** A document parses as its elements. */
  lemma {:induction false} RootFormsParse(roots: seq<RootForm>, last: string, read: seq<Node>)
    requires (forall r :: r in roots ==> AllSpace(r.gap) && GoodElement(r.element)) && AllSpace(last)
    ensures ParseDocument(RootsText(roots) + last, read) ==
      if read + RootsMeaning(roots) == [] then Failed else Done(read + RootsMeaning(roots), "")
    decreases roots
  {
    if roots == [] {
      assert RootsText(roots) + last == last && last + "" == last && read + [] == read;
      SkipSpace(last, "");
    } else {
      var e, more := roots[0].element, RootsText(roots[1..]) + last;
      assert roots[0] in roots;
      RegroupItems(roots[0].gap, ElementText(e), RootsText(roots[1..]), last);
      RootFormParses(roots[0].gap, e, more, read);
      RootFormsParse(roots[1..], last, read + [ElementMeaning(e)]);
      RegroupMeaning(read, [ElementMeaning(e)], RootsMeaning(roots[1..]));
    }
  }

  lemma RootFormParses(gap: string, e: ElementForm, more: string, read: seq<Node>)
    requires AllSpace(gap) && GoodElement(e)
    ensures ParseDocument(gap + (ElementText(e) + more), read) == ParseDocument(more, read + [ElementMeaning(e)])
  {
    var p := ElementText(e) + more;
    ElementFormParses(e, more);
    assert p[0] == '<' && p[1] == e.name[0];
    SkipSpace(gap, p);
    DocumentSkips(gap + p, p, read);
    RootMarkup(p, read, ElementMeaning(e), more);
  }

  lemma RootMarkup(p: string, read: seq<Node>, n: Node, more: string)
    requires |p| > 1 && p[0] == '<' && IsNameStart(p[1]) && ParseElement(p) == Done(n, more)
    ensures ParseDocument(p, read) == ParseDocument(more, read + [n])
  {
    StartsHere(p);
    NameStartIsNotSpace(p[1]);
    assert !("<![CDATA[" <= p);
  }
}
