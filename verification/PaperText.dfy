/**
 Full text from an ar5iv page: the event machine, and the tree it reads.

 The XML reader is left out: the machine starts from its events, which carry
 the element's class and the values of its `alttext` attributes.
 */
module PaperText {
  import opened Wrappers
  import opened Whitespace

  /** What the extractor makes of an element's local name. */
  datatype Tag = Math | ScriptOrStyle | Heading | Title | Plain

  /** Where the local part of a qualified name begins. */
  function LocalStart(qname: string, n: nat): (k: nat)
    requires n <= |qname|
    ensures k <= n
  {
    if n == 0 then 0 else if qname[n - 1] == ':' then n else LocalStart(qname, n - 1)
  }

  function TagOf(qname: string): Tag {
    var local := qname[LocalStart(qname, |qname|)..];
    if local == "math" then Math
    else if local in {"script", "style"} then ScriptOrStyle
    else if local in {"h1", "h2", "h3", "h4", "h5", "h6"} then Heading
    else if local == "title" then Title
    else Plain
  }

  /** What an unprefixed name makes an element. */
  lemma TagOfIff(name: string)
    requires forall i :: 0 <= i < |name| ==> name[i] != ':'
    ensures TagOf(name).Math? <==> name == "math"
    ensures TagOf(name).ScriptOrStyle? <==> name == "script" || name == "style"
    ensures TagOf(name).Heading? <==> |name| == 2 && name[0] == 'h' && '1' <= name[1] <= '6'
    ensures TagOf(name).Title? <==> name == "title"
  {
    LocalStartUnprefixed(name, |name|);
    assert name[0..] == name;
    if |name| == 2 {
      assert name == [name[0], name[1]];
    }
  }

  lemma {:induction false} LocalStartUnprefixed(name: string, n: nat)
    requires n <= |name| && forall i :: 0 <= i < |name| ==> name[i] != ':'
    ensures LocalStart(name, n) == 0
  {
    if n > 0 {
      LocalStartUnprefixed(name, n - 1);
    }
  }

  predicate Skipped(t: Tag) {
    t.Math? || t.ScriptOrStyle?
  }

  lemma {:induction false} LocalStartBehind(prefix: string, local: string, n: nat)
    requires n <= |local|
    ensures LocalStart(prefix + ":" + local, |prefix| + 1 + n) == |prefix| + 1 + LocalStart(local, n)
  {
    var qname := prefix + ":" + local;
    if n == 0 {
      assert qname[|prefix|] == ':';
    } else {
      assert qname[|prefix| + n] == local[n - 1];
      LocalStartBehind(prefix, local, n - 1);
    }
  }

  /** A namespace prefix makes no difference. */
  lemma PrefixIsIgnored(prefix: string, local: string)
    ensures TagOf(prefix + ":" + local) == TagOf(local)
  {
    var qname, k := prefix + ":" + local, LocalStart(local, |local|);
    LocalStartBehind(prefix, local, |local|);
    assert qname[|prefix| + 1 + k..] == local[k..];
  }

  /** What the XML reader delivers. A text is None when it does not decode. */
  datatype XmlEvent =
    | OpenTag(qname: string, alttexts: seq<string>)
    | EmptyElement(qname: string, alttexts: seq<string>)
    | CharData(text: Option<string>)
    | CloseTag(qname: string)
    | AnythingElse

  /** The same, by what the extractor looks at. */
  datatype Event =
    | Start(tag: Tag, alts: seq<string>)
    | EmptyTag(tag: Tag, alts: seq<string>)
    | Text(text: Option<string>)
    | End(tag: Tag)
    | Other

  function Seen(e: XmlEvent): Event {
    match e
    case OpenTag(qname, alts) => Start(TagOf(qname), alts)
    case EmptyElement(qname, alts) => EmptyTag(TagOf(qname), alts)
    case CharData(text) => Text(text)
    case CloseTag(qname) => End(TagOf(qname))
    case AnythingElse => Other
  }

  function SeenAll(xml: seq<XmlEvent>): (events: seq<Event>)
    ensures |events| == |xml|
  {
    seq(|xml|, i requires 0 <= i < |xml| => Seen(xml[i]))
  }

  datatype TextSection = TextSection(heading: Option<string>, text: string)

  /** The first `alttext` that is not blank. */
  function Alttext(alts: seq<string>): Option<string> {
    if alts == [] then None else if !Blank(alts[0]) then Some(alts[0]) else Alttext(alts[1..])
  }

  function MathFrag(alts: seq<string>): string {
    match Alttext(alts)
    case Some(alt) => "\\(" + alt + "\\) "
    case None => ""
  }

  function TextFrag(text: Option<string>): string {
    if text.Some? && text.value != "" then text.value + " " else ""
  }

  function NormalHeading(s: string): Option<string> {
    var h := Normalize(s);
    if h == "" then None else Some(h)
  }

  /** The section for a heading and the body under it, if there is anything in it. */
  function Flush(heading: Option<string>, text: string): seq<TextSection> {
    var t := Normalize(text);
    if t != "" || heading.Some? then [TextSection(heading, t)] else []
  }

  // ---- The event machine ----

  datatype State = State(
    sections: seq<TextSection>,
    curHeading: Option<string>,
    curText: string,
    title: Option<string>,
    titleBuf: string,
    inTitle: bool,
    skip: nat,
    inHeading: bool,
    headingBuf: string)

  const INITIAL := State([], None, "", None, "", false, 0, false, "")

  function Push(s: State, frag: string): State {
    if s.inTitle then s.(titleBuf := s.titleBuf + frag)
    else if s.inHeading then s.(headingBuf := s.headingBuf + frag)
    else s.(curText := s.curText + frag)
  }

  function Next(s: State, e: Event): State {
    match e
    case Start(tag, alts) =>
      if Skipped(tag) then
        var t := if s.skip == 0 && tag.Math? then Push(s, MathFrag(alts)) else s;
        t.(skip := s.skip + 1)
      else if tag.Heading? then
        s.(sections := s.sections + Flush(s.curHeading, s.curText), curText := "",
           inHeading := true, headingBuf := "")
      else if tag.Title? && s.title.None? then s.(inTitle := true, titleBuf := "")
      else s
    case EmptyTag(tag, alts) =>
      if s.skip == 0 && tag.Math? then Push(s, MathFrag(alts)) else s
    case Text(text) =>
      if s.skip == 0 then Push(s, TextFrag(text)) else s
    case End(tag) =>
      if Skipped(tag) then s.(skip := if s.skip == 0 then 0 else s.skip - 1)
      else if tag.Heading? && s.inHeading then
        s.(curHeading := NormalHeading(s.headingBuf), inHeading := false, curText := "")
      else if tag.Title? && s.inTitle then
        var t := Normalize(s.titleBuf);
        s.(inTitle := false, title := if t != "" then Some(t) else s.title)
      else s
    case Other => s
  }

  function Fed(s: State, events: seq<Event>, n: nat): State
    requires n <= |events|
  {
    if n == 0 then s else Next(Fed(s, events, n - 1), events[n - 1])
  }

  function Extracted(events: seq<Event>): (Option<string>, seq<TextSection>) {
    var s := Fed(INITIAL, events, |events|);
    (s.title, s.sections + Flush(s.curHeading, s.curText))
  }

  class Extractor {
    var sections: seq<TextSection>
    var curHeading: Option<string>
    var curText: string
    var title: Option<string>
    var titleBuf: string
    var inTitle: bool
    var skip: nat
    var inHeading: bool
    var headingBuf: string

    function Now(): State
      reads this
    {
      State(sections, curHeading, curText, title, titleBuf, inTitle, skip, inHeading, headingBuf)
    }

    constructor ()
      ensures Now() == INITIAL
    {
      sections, curHeading, curText := [], None, "";
      title, titleBuf, inTitle := None, "", false;
      skip, inHeading, headingBuf := 0, false, "";
    }

    method PushTarget(frag: string)
      modifies this
      ensures Now() == old(Push(Now(), frag))
    {
      if inTitle {
        titleBuf := titleBuf + frag;
      } else if inHeading {
        headingBuf := headingBuf + frag;
      } else {
        curText := curText + frag;
      }
    }

    method FlushSection()
      modifies this
      ensures Now() == old(Now().(sections := sections + Flush(curHeading, curText), curText := ""))
    {
      var text := Normalize(curText);
      if text != "" || curHeading.Some? {
        sections := sections + [TextSection(curHeading, text)];
      }
      curText := "";
    }

    method PushMath(alts: seq<string>)
      modifies this
      ensures Now() == old(Push(Now(), MathFrag(alts)))
    {
      var alt := Alttext(alts);
      if alt.Some? {
        PushTarget("\\(" + alt.value + "\\) ");
      } else {
        assert curText + "" == curText && headingBuf + "" == headingBuf && titleBuf + "" == titleBuf;
      }
    }

    method OnStart(tag: Tag, alts: seq<string>)
      modifies this
      ensures Now() == old(Next(Now(), Start(tag, alts)))
    {
      if Skipped(tag) {
        if skip == 0 && tag == Math {
          PushMath(alts);
        }
        skip := skip + 1;
      } else if tag == Heading {
        FlushSection();
        inHeading := true;
        headingBuf := "";
      } else if tag == Title && title.None? {
        inTitle := true;
        titleBuf := "";
      }
    }

    method OnText(text: Option<string>)
      modifies this
      ensures Now() == old(Next(Now(), Text(text)))
      ensures Now() == old(if skip > 0 || text.None? || text.value == "" then Now()
                           else Push(Now(), text.value + " "))
    {
      if text.Some? && text.value != "" && skip == 0 {
        PushTarget(text.value + " ");
      } else {
        assert curText + "" == curText && headingBuf + "" == headingBuf && titleBuf + "" == titleBuf;
      }
    }

    method OnEnd(tag: Tag)
      modifies this
      ensures Now() == old(Next(Now(), End(tag)))
    {
      if Skipped(tag) {
        skip := if skip == 0 then 0 else skip - 1;
      } else if tag == Heading && inHeading {
        var h := Normalize(headingBuf);
        curHeading := if h == "" then None else Some(h);
        inHeading := false;
        curText := "";
      } else if tag == Title && inTitle {
        inTitle := false;
        var t := Normalize(titleBuf);
        if t != "" {
          title := Some(t);
        }
      }
    }

    /** One event of the reader. */
    method OnEvent(e: XmlEvent)
      modifies this
      ensures Now() == old(Next(Now(), Seen(e)))
    {
      match e {
        case OpenTag(qname, alts) => OnStart(TagOf(qname), alts);
        case EmptyElement(qname, alts) =>
          if skip == 0 && TagOf(qname) == Math {
            PushMath(alts);
          }
        case CharData(text) => OnText(text);
        case CloseTag(qname) => OnEnd(TagOf(qname));
        case AnythingElse =>
      }
    }
  }

  method ParseAr5iv(xml: seq<XmlEvent>) returns (title: Option<string>, sections: seq<TextSection>)
    ensures (title, sections) == Extracted(SeenAll(xml))
    ensures forall f :: WellFormed(f) && SeenAll(xml) == Events(f) ==> IsTextOf(f, title, sections)
    ensures forall i :: 0 <= i < |sections| ==> TidySection(sections[i])
  {
    TextOfEvents(SeenAll(xml));
    var x := new Extractor();
    ghost var events := SeenAll(xml);
    for i := 0 to |xml|
      invariant fresh(x) && x.Now() == Fed(INITIAL, events, i)
    {
      assert events[i] == Seen(xml[i]);
      x.OnEvent(xml[i]);
    }
    x.FlushSection();
    return x.title, x.sections;
  }

  // ---- The document ----

  datatype Node =
    | Elem(tag: Tag, alts: seq<string>, kids: Forest)
    | Void(tag: Tag, alts: seq<string>)
    | Leaf(text: Option<string>)
    | Aside

  datatype Forest = Nil | Cons(head: Node, tail: Forest)

  /** The events of a well-nested document. */
  function Events(f: Forest): seq<Event> {
    match f
    case Nil => []
    case Cons(n, rest) => NodeEvents(n) + Events(rest)
  }

  function NodeEvents(n: Node): seq<Event> {
    match n
    case Elem(tag, alts, kids) => [Start(tag, alts)] + Events(kids) + [End(tag)]
    case Void(tag, alts) => [EmptyTag(tag, alts)]
    case Leaf(text) => [Text(text)]
    case Aside => [Other]
  }

  /** No heading and no title anywhere inside. */
  predicate Flat(f: Forest) {
    match f
    case Nil => true
    case Cons(n, rest) => (n.Elem? ==> !n.tag.Heading? && !n.tag.Title? && Flat(n.kids)) && Flat(rest)
  }

  /** Headings, titles and skipped elements hold neither headings nor titles. */
  predicate WellFormed(f: Forest) {
    match f
    case Nil => true
    case Cons(n, rest) =>
      (n.Elem? ==> if n.tag.Plain? then WellFormed(n.kids) else Flat(n.kids)) && WellFormed(rest)
  }

  /** What is read aloud of a part of the document: its text, and each formula
      by its source, but nothing inside scripts, styles and formulas. */
  function Spoken(f: Forest): string {
    match f
    case Nil => ""
    case Cons(n, rest) => SpokenNode(n) + Spoken(rest)
  }

  function SpokenNode(n: Node): string {
    match n
    case Elem(tag, alts, kids) =>
      if tag.Math? then MathFrag(alts) else if tag.ScriptOrStyle? then "" else Spoken(kids)
    case Void(tag, alts) => if tag.Math? then MathFrag(alts) else ""
    case Leaf(text) => TextFrag(text)
    case Aside => ""
  }

  /** A document is a sequence of body text, headings and titles. */
  datatype Piece = Body(text: string) | Head(text: string) | TitleText(text: string)

  function Pieces(f: Forest): seq<Piece> {
    match f
    case Nil => []
    case Cons(n, rest) => NodePieces(n) + Pieces(rest)
  }

  function NodePieces(n: Node): seq<Piece> {
    if n.Elem? && n.tag.Heading? then [Head(Spoken(n.kids))]
    else if n.Elem? && n.tag.Title? then [TitleText(Spoken(n.kids))]
    else if n.Elem? && n.tag.Plain? then Pieces(n.kids)
    else [Body(SpokenNode(n))]
  }

  /** The document's title is its first title that is not blank. */
  function DocTitle(pieces: seq<Piece>): Option<string> {
    if pieces == [] then None
    else if pieces[0].TitleText? && !Blank(pieces[0].text) then Some(Normalize(pieces[0].text))
    else DocTitle(pieces[1..])
  }

  /** Titles up to that one are taken out of the text; any later one is body text. */
  function WithoutTitle(pieces: seq<Piece>): seq<Piece> {
    if pieces == [] then []
    else if pieces[0].TitleText? then
      if Blank(pieces[0].text) then WithoutTitle(pieces[1..]) else LaterTitlesAsBody(pieces[1..])
    else [pieces[0]] + WithoutTitle(pieces[1..])
  }

  function LaterTitlesAsBody(pieces: seq<Piece>): (r: seq<Piece>)
    ensures |r| == |pieces|
  {
    seq(|pieces|, i requires 0 <= i < |pieces| =>
      if pieces[i].TitleText? then Body(pieces[i].text) else pieces[i])
  }

  /** The body text before the first heading, and what comes from that heading on. */
  function Lead(pieces: seq<Piece>): string {
    if pieces == [] || pieces[0].Head? then "" else pieces[0].text + Lead(pieces[1..])
  }

  function FromHeading(pieces: seq<Piece>): (r: seq<Piece>)
    ensures |r| <= |pieces| && (r != [] ==> r[0].Head?)
  {
    if pieces == [] || pieces[0].Head? then pieces else FromHeading(pieces[1..])
  }

  /** The document cut at its headings. */
  function Sections(heading: Option<string>, pieces: seq<Piece>): seq<TextSection>
    decreases |pieces|
  {
    var rest := FromHeading(pieces);
    Flush(heading, Lead(pieces)) +
    if rest == [] then [] else Sections(NormalHeading(rest[0].text), rest[1..])
  }

  // ---- The machine reads the document ----

  function Run(s: State, events: seq<Event>): State {
    Fed(s, events, |events|)
  }

  lemma {:induction false} FedPrefix(s: State, a: seq<Event>, b: seq<Event>, n: nat)
    requires n <= |a|
    ensures Fed(s, a + b, n) == Fed(s, a, n)
  {
    if n > 0 {
      FedPrefix(s, a, b, n - 1);
    }
  }

  lemma {:induction false} RunAppend(s: State, a: seq<Event>, b: seq<Event>)
    ensures Run(s, a + b) == Run(Run(s, a), b)
  {
    if b == [] {
      assert a + b == a;
    } else {
      var c := b[..|b| - 1];
      RunAppend(s, a, c);
      assert a + b == (a + c) + [b[|b| - 1]];
      assert b == c + [b[|b| - 1]];
      FedPrefix(s, a + c, [b[|b| - 1]], |a + c|);
      FedPrefix(Run(s, a), c, [b[|b| - 1]], |c|);
    }
  }

  lemma RunOne(s: State, e: Event)
    ensures Run(s, [e]) == Next(s, e)
  {
    assert Fed(s, [e], 0) == s;
  }

  lemma RunElem(s: State, tag: Tag, alts: seq<string>, kids: Forest)
    ensures Run(s, NodeEvents(Elem(tag, alts, kids)))
         == Next(Run(Next(s, Start(tag, alts)), Events(kids)), End(tag))
  {
    RunAppend(s, [Start(tag, alts)] + Events(kids), [End(tag)]);
    RunAppend(s, [Start(tag, alts)], Events(kids));
    RunOne(s, Start(tag, alts));
    RunOne(Run(s, [Start(tag, alts)] + Events(kids)), End(tag));
  }

  lemma PushPush(s: State, a: string, b: string)
    ensures Push(Push(s, a), b) == Push(s, a + b)
  {
    assert s.titleBuf + a + b == s.titleBuf + (a + b);
    assert s.headingBuf + a + b == s.headingBuf + (a + b);
    assert s.curText + a + b == s.curText + (a + b);
  }

  lemma PushNothing(s: State)
    ensures Push(s, "") == s
  {
    assert s.titleBuf + "" == s.titleBuf && s.headingBuf + "" == s.headingBuf && s.curText + "" == s.curText;
  }

  /** Inside a skipped element nothing happens. */
  lemma {:induction false} RunSkipped(s: State, f: Forest)
    requires s.skip > 0 && Flat(f)
    ensures Run(s, Events(f)) == s
    decreases f
  {
    match f
    case Nil =>
    case Cons(n, rest) =>
      RunAppend(s, NodeEvents(n), Events(rest));
      match n {
        case Elem(tag, alts, kids) =>
          RunElem(s, tag, alts, kids);
          RunSkipped(Next(s, Start(tag, alts)), kids);
        case Void(tag, alts) => RunOne(s, EmptyTag(tag, alts));
        case Leaf(text) => RunOne(s, Text(text));
        case Aside => RunOne(s, Other);
      }
      RunSkipped(s, rest);
  }

  /** Without headings and titles, what is spoken goes to the open buffer. */
  lemma {:induction false} RunFlat(s: State, f: Forest)
    requires s.skip == 0 && Flat(f)
    ensures Run(s, Events(f)) == Push(s, Spoken(f))
    decreases f
  {
    match f
    case Nil => PushNothing(s);
    case Cons(n, rest) =>
      RunAppend(s, NodeEvents(n), Events(rest));
      RunFlatNode(s, n);
      RunFlat(Push(s, SpokenNode(n)), rest);
      PushPush(s, SpokenNode(n), Spoken(rest));
  }

  lemma {:induction false} RunFlatNode(s: State, n: Node)
    requires s.skip == 0
    requires n.Elem? ==> !n.tag.Heading? && !n.tag.Title? && Flat(n.kids)
    ensures Run(s, NodeEvents(n)) == Push(s, SpokenNode(n))
    decreases n
  {
    PushNothing(s);
    match n {
      case Elem(tag, alts, kids) =>
        RunElem(s, tag, alts, kids);
        if Skipped(tag) {
          RunSkipped(Next(s, Start(tag, alts)), kids);
        } else {
          RunFlat(s, kids);
        }
      case Void(tag, alts) => RunOne(s, EmptyTag(tag, alts));
      case Leaf(text) => RunOne(s, Text(text));
      case Aside => RunOne(s, Other);
    }
  }

  /** What one piece does to the machine between headings and titles. */
  function ApplyOne(s: State, p: Piece): State {
    match p
    case Body(text) => Push(s, text)
    case Head(text) =>
      s.(sections := s.sections + Flush(s.curHeading, s.curText), curText := "",
         curHeading := NormalHeading(text), headingBuf := text)
    case TitleText(text) =>
      if s.title.Some? then Push(s, text)
      else s.(titleBuf := text, title := if Normalize(text) != "" then Some(Normalize(text)) else None)
  }

  function Apply(s: State, pieces: seq<Piece>): State
    decreases |pieces|
  {
    if pieces == [] then s else Apply(ApplyOne(s, pieces[0]), pieces[1..])
  }

  lemma {:induction false} ApplyAppend(s: State, a: seq<Piece>, b: seq<Piece>)
    ensures Apply(s, a + b) == Apply(Apply(s, a), b)
    decreases |a|
  {
    if a == [] {
      assert a + b == b;
    } else {
      assert (a + b)[1..] == a[1..] + b;
      ApplyAppend(ApplyOne(s, a[0]), a[1..], b);
    }
  }

  predicate Open(s: State) {
    s.skip == 0 && !s.inTitle && !s.inHeading
  }

  lemma {:induction false} ApplyStaysOpen(s: State, pieces: seq<Piece>)
    requires Open(s)
    ensures Open(Apply(s, pieces))
    decreases |pieces|
  {
    if pieces != [] {
      ApplyStaysOpen(ApplyOne(s, pieces[0]), pieces[1..]);
    }
  }

  lemma RunHeading(s: State, alts: seq<string>, kids: Forest)
    requires Open(s) && Flat(kids)
    ensures Run(s, NodeEvents(Elem(Heading, alts, kids))) == ApplyOne(s, Head(Spoken(kids)))
  {
    RunElem(s, Heading, alts, kids);
    var t := Next(s, Start(Heading, alts));
    RunFlat(t, kids);
    assert t.headingBuf + Spoken(kids) == Spoken(kids);
  }

  lemma RunTitle(s: State, alts: seq<string>, kids: Forest)
    requires Open(s) && Flat(kids)
    ensures Run(s, NodeEvents(Elem(Title, alts, kids))) == ApplyOne(s, TitleText(Spoken(kids)))
  {
    RunElem(s, Title, alts, kids);
    var t := Next(s, Start(Title, alts));
    RunFlat(t, kids);
    if s.title.None? {
      assert t.titleBuf + Spoken(kids) == Spoken(kids);
    }
  }

  lemma {:induction false} RunDocument(s: State, f: Forest)
    requires Open(s) && WellFormed(f)
    ensures Run(s, Events(f)) == Apply(s, Pieces(f))
    decreases f
  {
    match f
    case Nil =>
    case Cons(n, rest) =>
      RunAppend(s, NodeEvents(n), Events(rest));
      var first := NodePieces(n);
      ApplyAppend(s, first, Pieces(rest));
      assert Run(s, NodeEvents(n)) == Apply(s, first) by {
        if n.Elem? && n.tag.Heading? {
          RunHeading(s, n.alts, n.kids);
        } else if n.Elem? && n.tag.Title? {
          RunTitle(s, n.alts, n.kids);
        } else if n.Elem? && n.tag.Plain? {
          RunElem(s, n.tag, n.alts, n.kids);
          RunDocument(s, n.kids);
        } else {
          RunFlatNode(s, n);
        }
      }
      ApplyStaysOpen(s, first);
      RunDocument(Apply(s, first), rest);
  }

  function SectionsAfter(heading: Option<string>, text: string, pieces: seq<Piece>): seq<TextSection> {
    var rest := FromHeading(pieces);
    Flush(heading, text + Lead(pieces)) +
    if rest == [] then [] else Sections(NormalHeading(rest[0].text), rest[1..])
  }

  function Resolved(titled: bool, pieces: seq<Piece>): seq<Piece> {
    if titled then LaterTitlesAsBody(pieces) else WithoutTitle(pieces)
  }

  lemma SectionsAfterBody(heading: Option<string>, text: string, p: Piece, rest: seq<Piece>)
    requires !p.Head?
    ensures SectionsAfter(heading, text, [p] + rest) == SectionsAfter(heading, text + p.text, rest)
  {
    assert ([p] + rest)[1..] == rest;
    assert text + (p.text + Lead(rest)) == text + p.text + Lead(rest);
  }

  lemma SectionsAfterHead(heading: Option<string>, text: string, p: Piece, rest: seq<Piece>)
    requires p.Head?
    ensures SectionsAfter(heading, text, [p] + rest)
         == Flush(heading, text) + SectionsAfter(NormalHeading(p.text), "", rest)
  {
    assert ([p] + rest)[1..] == rest;
    assert text + "" == text;
    assert "" + Lead(rest) == Lead(rest);
  }

  lemma ResolvedStep(titled: bool, p: Piece, rest: seq<Piece>)
    ensures Resolved(titled, [p] + rest) ==
            if !p.TitleText? then [p] + Resolved(titled, rest)
            else if titled then [Body(p.text)] + Resolved(titled, rest)
            else Resolved(!Blank(p.text), rest)
  {
    assert ([p] + rest)[1..] == rest;
    if titled {
      var all := LaterTitlesAsBody([p] + rest);
      assert all == [all[0]] + LaterTitlesAsBody(rest);
    }
  }

  lemma {:induction false} ApplyTitle(s: State, pieces: seq<Piece>)
    ensures Apply(s, pieces).title == if s.title.Some? then s.title else DocTitle(pieces)
    decreases |pieces|
  {
    if pieces != [] {
      ApplyTitle(ApplyOne(s, pieces[0]), pieces[1..]);
      NormalizeKeepsWords(pieces[0].text);
    }
  }

  /** The sections a state holds once it is closed. */
  function Closed(s: State): seq<TextSection> {
    s.sections + Flush(s.curHeading, s.curText)
  }

  /** The sections there will be once the remaining pieces are read. */
  function Outcome(s: State, pieces: seq<Piece>): seq<TextSection> {
    s.sections + SectionsAfter(s.curHeading, s.curText, Resolved(s.title.Some?, pieces))
  }

  lemma OutcomeHead(s: State, text: string, rest: seq<Piece>)
    requires Open(s)
    ensures Outcome(ApplyOne(s, Head(text)), rest) == Outcome(s, [Head(text)] + rest)
  {
    var later, u := Resolved(s.title.Some?, rest), ApplyOne(s, Head(text));
    assert Outcome(u, rest) == u.sections + SectionsAfter(u.curHeading, u.curText, later);
    assert Outcome(s, [Head(text)] + rest)
        == s.sections + SectionsAfter(s.curHeading, s.curText, [Head(text)] + later) by {
      ResolvedStep(s.title.Some?, Head(text), rest);
    }
    SectionsAfterHead(s.curHeading, s.curText, Head(text), later);
    SectionsAssoc(s.sections, Flush(s.curHeading, s.curText), SectionsAfter(NormalHeading(text), "", later));
  }

  lemma SectionsAssoc(a: seq<TextSection>, b: seq<TextSection>, c: seq<TextSection>)
    ensures (a + b) + c == a + (b + c)
  {
  }

  lemma OutcomeBody(s: State, p: Piece, rest: seq<Piece>)
    requires Open(s) && (p.Body? || (p.TitleText? && s.title.Some?))
    ensures Outcome(ApplyOne(s, p), rest) == Outcome(s, [p] + rest)
  {
    ResolvedStep(s.title.Some?, p, rest);
    SectionsAfterBody(s.curHeading, s.curText, Body(p.text), Resolved(s.title.Some?, rest));
  }

  lemma OutcomeTitle(s: State, text: string, rest: seq<Piece>)
    requires Open(s) && s.title.None?
    ensures Outcome(ApplyOne(s, TitleText(text)), rest) == Outcome(s, [TitleText(text)] + rest)
  {
    ResolvedStep(false, TitleText(text), rest);
    NormalizeKeepsWords(text);
  }

  lemma {:induction false} ApplySections(s: State, pieces: seq<Piece>)
    requires Open(s)
    ensures Closed(Apply(s, pieces)) == Outcome(s, pieces)
    decreases |pieces|
  {
    if pieces == [] {
      assert s.curText + "" == s.curText;
    } else {
      var p, rest := pieces[0], pieces[1..];
      ApplySections(ApplyOne(s, p), rest);
      assert pieces == [p] + rest;
      if p.Head? {
        OutcomeHead(s, p.text, rest);
      } else if p.Body? || s.title.Some? {
        OutcomeBody(s, p, rest);
      } else {
        OutcomeTitle(s, p.text, rest);
      }
    }
  }

  /** The extractor's answer for every well-nested document in which headings,
      titles and skipped elements hold no headings or titles: its title, and
      the rest cut at the headings in document order. */
  lemma ExtractsTheDocument(f: Forest)
    requires WellFormed(f)
    ensures Extracted(Events(f)) == (DocTitle(Pieces(f)), Sections(None, WithoutTitle(Pieces(f))))
  {
    RunDocument(INITIAL, f);
    ApplyTitle(INITIAL, Pieces(f));
    ApplySections(INITIAL, Pieces(f));
    var rest := WithoutTitle(Pieces(f));
    assert "" + Lead(rest) == Lead(rest);
    assert SectionsAfter(None, "", rest) == Sections(None, rest);
    assert [] + Sections(None, rest) == Sections(None, rest);
  }

  // ---- Every word lands once, in order ----

  function PieceWords(pieces: seq<Piece>): seq<string> {
    if pieces == [] then [] else Words(pieces[0].text) + PieceWords(pieces[1..])
  }

  function HeadingWords(heading: Option<string>): seq<string> {
    if heading.Some? then Words(heading.value) else []
  }

  function SectionWords(sections: seq<TextSection>): seq<string> {
    if sections == [] then [] else
      HeadingWords(sections[0].heading) + Words(sections[0].text) + SectionWords(sections[1..])
  }

  lemma {:induction false} SpokenEndsInSpace(f: Forest)
    ensures EndsInSpace(Spoken(f))
  {
    match f
    case Nil =>
    case Cons(n, rest) =>
      SpokenNodeEndsInSpace(n);
      SpokenEndsInSpace(rest);
  }

  lemma {:induction false} SpokenNodeEndsInSpace(n: Node)
    ensures EndsInSpace(SpokenNode(n))
  {
    if n.Elem? && !Skipped(n.tag) {
      SpokenEndsInSpace(n.kids);
    }
  }

  lemma {:induction false} PieceWordsAppend(a: seq<Piece>, b: seq<Piece>)
    ensures PieceWords(a + b) == PieceWords(a) + PieceWords(b)
  {
    if a == [] {
      assert a + b == b;
    } else {
      assert (a + b)[1..] == a[1..] + b;
      PieceWordsAppend(a[1..], b);
    }
  }

  ghost predicate Spaced(pieces: seq<Piece>) {
    forall i :: 0 <= i < |pieces| ==> EndsInSpace(pieces[i].text)
  }

  /** The pieces carry the spoken words of the document, in order. */
  lemma {:induction false} PiecesCarryTheWords(f: Forest)
    ensures PieceWords(Pieces(f)) == Words(Spoken(f)) && Spaced(Pieces(f))
    decreases f, 1
  {
    match f
    case Nil =>
    case Cons(n, rest) =>
      PiecesCarryTheWords(rest);
      NodePiecesCarryTheWords(n);
      SpokenNodeEndsInSpace(n);
      WordsAppend(SpokenNode(n), Spoken(rest));
      assert Pieces(f) == NodePieces(n) + Pieces(rest);
      PieceWordsAppend(NodePieces(n), Pieces(rest));
  }

  lemma {:induction false} NodePiecesCarryTheWords(n: Node)
    ensures PieceWords(NodePieces(n)) == Words(SpokenNode(n)) && Spaced(NodePieces(n))
    decreases n, 0
  {
    if n.Elem? && n.tag.Plain? {
      PiecesCarryTheWords(n.kids);
    } else {
      OnePiece(NodePieces(n)[0]);
      SpokenNodeEndsInSpace(n);
    }
  }

  lemma OnePiece(p: Piece)
    ensures PieceWords([p]) == Words(p.text)
  {
    assert [p][1..] == [];
  }

  lemma {:induction false} LeadWords(pieces: seq<Piece>)
    requires Spaced(pieces)
    ensures Words(Lead(pieces)) + PieceWords(FromHeading(pieces)) == PieceWords(pieces)
    ensures Spaced(FromHeading(pieces))
  {
    if pieces != [] && !pieces[0].Head? {
      LeadWords(pieces[1..]);
      WordsAppend(pieces[0].text, Lead(pieces[1..]));
    }
  }

  lemma FlushWords(heading: Option<string>, text: string)
    ensures SectionWords(Flush(heading, text)) == HeadingWords(heading) + Words(text)
  {
    NormalizeKeepsWords(text);
    WordsAreWords(text);
    var all := Flush(heading, text);
    if all != [] {
      assert all[1..] == [];
    }
  }

  lemma {:induction false} SectionWordsAppend(a: seq<TextSection>, b: seq<TextSection>)
    ensures SectionWords(a + b) == SectionWords(a) + SectionWords(b)
  {
    if a == [] {
      assert a + b == b;
    } else {
      assert (a + b)[1..] == a[1..] + b;
      SectionWordsAppend(a[1..], b);
      Regroup(HeadingWords(a[0].heading) + Words(a[0].text), SectionWords(a[1..]), SectionWords(b));
    }
  }

  lemma HeadingKeepsWords(text: string)
    ensures HeadingWords(NormalHeading(text)) == Words(text)
  {
    NormalizeKeepsWords(text);
    WordsAreWords(text);
  }

  lemma Regroup(a: seq<string>, b: seq<string>, c: seq<string>)
    ensures (a + b) + c == a + (b + c)
  {
  }

  lemma {:induction false} SectionsCarryTheWords(heading: Option<string>, pieces: seq<Piece>)
    requires Spaced(pieces)
    ensures SectionWords(Sections(heading, pieces)) == HeadingWords(heading) + PieceWords(pieces)
    decreases |pieces|
  {
    var rest := FromHeading(pieces);
    LeadWords(pieces);
    FlushWords(heading, Lead(pieces));
    if rest == [] {
      SectionWordsAppend(Flush(heading, Lead(pieces)), []);
    } else {
      var later := Sections(NormalHeading(rest[0].text), rest[1..]);
      SectionWordsAppend(Flush(heading, Lead(pieces)), later);
      SectionsCarryTheWords(NormalHeading(rest[0].text), rest[1..]);
      HeadingKeepsWords(rest[0].text);
    }
    Regroup(HeadingWords(heading), Words(Lead(pieces)), PieceWords(rest));
  }

  /** The words before the title that is taken out, and those after it. */
  function BeforeTitle(pieces: seq<Piece>): seq<Piece> {
    if pieces == [] || (pieces[0].TitleText? && !Blank(pieces[0].text)) then []
    else if pieces[0].TitleText? then BeforeTitle(pieces[1..])
    else [pieces[0]] + BeforeTitle(pieces[1..])
  }

  function AfterTitle(pieces: seq<Piece>): seq<Piece> {
    if pieces == [] then []
    else if pieces[0].TitleText? && !Blank(pieces[0].text) then LaterTitlesAsBody(pieces[1..])
    else AfterTitle(pieces[1..])
  }

  lemma {:induction false} TitleTakenOut(pieces: seq<Piece>)
    requires Spaced(pieces)
    ensures Spaced(BeforeTitle(pieces)) && Spaced(AfterTitle(pieces))
    ensures WithoutTitle(pieces) == BeforeTitle(pieces) + AfterTitle(pieces)
  {
    if pieces != [] {
      var rest := pieces[1..];
      TitleTakenOut(rest);
      assert [pieces[0]] + (BeforeTitle(rest) + AfterTitle(rest)) == [pieces[0]] + BeforeTitle(rest) + AfterTitle(rest);
    }
  }

  lemma {:induction false} TitleWords(pieces: seq<Piece>)
    ensures PieceWords(pieces) ==
            PieceWords(BeforeTitle(pieces)) + (HeadingWords(DocTitle(pieces)) + PieceWords(AfterTitle(pieces)))
  {
    if pieces != [] {
      var p, rest := pieces[0], pieces[1..];
      if p.TitleText? && !Blank(p.text) {
        SameWords(rest);
        NormalizeKeepsWords(p.text);
      } else {
        TitleWords(rest);
        WordsAreWords(p.text);
        if !p.TitleText? {
          PieceWordsAppend([p], BeforeTitle(rest));
          OnePiece(p);
          Regroup(Words(p.text), PieceWords(BeforeTitle(rest)),
                  HeadingWords(DocTitle(rest)) + PieceWords(AfterTitle(rest)));
        }
      }
    }
  }

  lemma {:induction false} SameWords(pieces: seq<Piece>)
    ensures PieceWords(LaterTitlesAsBody(pieces)) == PieceWords(pieces)
  {
    if pieces != [] {
      SameWords(pieces[1..]);
      assert LaterTitlesAsBody(pieces)[1..] == LaterTitlesAsBody(pieces[1..]);
    }
  }

  /** Every spoken word of the document lands in exactly one place and in order:
      the words of the sections, with those of the title put back in at one
      point, are the words of the document. */
  lemma EveryWordLandsOnce(f: Forest)
    requires WellFormed(f)
    ensures var (title, sections) := Extracted(Events(f));
            var before, after := PieceWords(BeforeTitle(Pieces(f))), PieceWords(AfterTitle(Pieces(f)));
            && SectionWords(sections) == before + after
            && DocWords(f) == before + (HeadingWords(title) + after)
  {
    SpokenIsDocWords(f);
    var pieces := Pieces(f);
    ExtractsTheDocument(f);
    PiecesCarryTheWords(f);
    TitleTakenOut(pieces);
    TitleWords(pieces);
    PieceWordsAppend(BeforeTitle(pieces), AfterTitle(pieces));
    SectionsCarryTheWords(None, BeforeTitle(pieces) + AfterTitle(pieces));
  }

  // ---- Which words those are ----

  /** The words of a formula: of its first `alttext` with any, between the marks
      of inline mathematics. */
  function FormulaWords(alts: seq<string>): seq<string> {
    if alts == [] then []
    else if Words(alts[0]) != [] then Words("\\(" + alts[0] + "\\)")
    else FormulaWords(alts[1..])
  }

  /** The words of a part of the document, by its own values. */
  function DocWords(f: Forest): seq<string> {
    match f
    case Nil => []
    case Cons(n, rest) => NodeWords(n) + DocWords(rest)
  }

  function NodeWords(n: Node): seq<string> {
    match n
    case Leaf(text) => if text.Some? then Words(text.value) else []
    case Void(tag, alts) => if tag == Math then FormulaWords(alts) else []
    case Elem(tag, alts, kids) =>
      if tag == Math then FormulaWords(alts) else if tag == ScriptOrStyle then [] else DocWords(kids)
    case Aside => []
  }

  lemma {:induction false} MathFragWords(alts: seq<string>)
    ensures Words(MathFrag(alts)) == FormulaWords(alts)
  {
    if alts != [] {
      WordsAreWords(alts[0]);
      if Blank(alts[0]) {
        MathFragWords(alts[1..]);
      } else {
        var formula := "\\(" + alts[0] + "\\)";
        WordsThenBlank(formula, " ");
        assert formula + " " == "\\(" + alts[0] + "\\) ";
      }
    }
  }

  lemma TextFragWords(text: Option<string>)
    ensures Words(TextFrag(text)) == if text.Some? then Words(text.value) else []
  {
    if text.Some? {
      WordsThenBlank(text.value, " ");
    }
  }

  lemma {:induction false} SpokenIsDocWords(f: Forest)
    ensures Words(Spoken(f)) == DocWords(f)
  {
    match f
    case Nil =>
    case Cons(n, rest) =>
      SpokenNodeIsNodeWords(n);
      SpokenIsDocWords(rest);
      SpokenNodeEndsInSpace(n);
      WordsAppend(SpokenNode(n), Spoken(rest));
  }

  lemma {:induction false} SpokenNodeIsNodeWords(n: Node)
    ensures Words(SpokenNode(n)) == NodeWords(n)
  {
    match n
    case Leaf(text) => TextFragWords(text);
    case Void(tag, alts) => MathFragWords(alts);
    case Elem(tag, alts, kids) =>
      MathFragWords(alts);
      SpokenIsDocWords(kids);
    case Aside =>
  }

  /** A document as headings, titles and the body text between them, in words. */
  datatype Entry = BodyWords(words: seq<string>) | HeadWords(words: seq<string>) | TitleEntry(words: seq<string>)

  function Outline(f: Forest): seq<Entry> {
    match f
    case Nil => []
    case Cons(n, rest) => NodeOutline(n) + Outline(rest)
  }

  function NodeOutline(n: Node): seq<Entry> {
    match n
    case Elem(tag, alts, kids) =>
      (match tag
       case Heading => [HeadWords(DocWords(kids))]
       case Title => [TitleEntry(DocWords(kids))]
       case Plain => Outline(kids)
       case _ => [BodyWords(NodeWords(n))])
    case _ => [BodyWords(NodeWords(n))]
  }

  function EntryOf(p: Piece): Entry {
    match p
    case Body(text) => BodyWords(Words(text))
    case Head(text) => HeadWords(Words(text))
    case TitleText(text) => TitleEntry(Words(text))
  }

  function Entries(pieces: seq<Piece>): (entries: seq<Entry>)
    ensures |entries| == |pieces|
  {
    seq(|pieces|, i requires 0 <= i < |pieces| => EntryOf(pieces[i]))
  }

  lemma {:induction false} PiecesAreOutline(f: Forest)
    ensures Entries(Pieces(f)) == Outline(f)
  {
    match f
    case Nil =>
    case Cons(n, rest) =>
      NodePiecesAreOutline(n);
      PiecesAreOutline(rest);
  }

  lemma {:induction false} NodePiecesAreOutline(n: Node)
    ensures Entries(NodePieces(n)) == NodeOutline(n)
  {
    SpokenNodeIsNodeWords(n);
    if n.Elem? {
      SpokenIsDocWords(n.kids);
      PiecesAreOutline(n.kids);
    }
  }

  /** The words of the first title with any. */
  function TitleOf(entries: seq<Entry>): seq<string> {
    if entries == [] then []
    else if entries[0].TitleEntry? && entries[0].words != [] then entries[0].words
    else TitleOf(entries[1..])
  }

  /** The entries without the titles up to that one; any later one is body. */
  function Untitled(entries: seq<Entry>): seq<Entry> {
    if entries == [] then []
    else if !entries[0].TitleEntry? then [entries[0]] + Untitled(entries[1..])
    else if entries[0].words == [] then Untitled(entries[1..])
    else Plainly(entries[1..])
  }

  /** Titles as body. */
  function Plainly(entries: seq<Entry>): (r: seq<Entry>)
    ensures |r| == |entries|
  {
    seq(|entries|, i requires 0 <= i < |entries| =>
      if entries[i].TitleEntry? then BodyWords(entries[i].words) else entries[i])
  }

  /** Heading and body of the sections, in words: a new one begins at each heading,
      and one without words in either is left out. */
  function SectionOutline(heading: seq<string>, body: seq<string>, entries: seq<Entry>): seq<(seq<string>, seq<string>)>
    decreases |entries|
  {
    var here := if heading == [] && body == [] then [] else [(heading, body)];
    if entries == [] then here
    else if entries[0].HeadWords? then here + SectionOutline(entries[0].words, [], entries[1..])
    else SectionOutline(heading, body + entries[0].words, entries[1..])
  }

  function WordsOfSection(s: TextSection): (seq<string>, seq<string>) {
    (HeadingWords(s.heading), Words(s.text))
  }

  function WordsOfSections(sections: seq<TextSection>): (all: seq<(seq<string>, seq<string>)>)
    ensures |all| == |sections|
  {
    seq(|sections|, i requires 0 <= i < |sections| => WordsOfSection(sections[i]))
  }

  lemma LaterEntries(pieces: seq<Piece>)
    ensures Entries(LaterTitlesAsBody(pieces)) == Plainly(Entries(pieces))
  {
  }

  lemma EntriesCons(p: Piece, rest: seq<Piece>)
    ensures Entries([p] + rest) == [EntryOf(p)] + Entries(rest)
  {
  }

  lemma {:induction false} TitleOutline(pieces: seq<Piece>)
    ensures HeadingWords(DocTitle(pieces)) == TitleOf(Entries(pieces))
    ensures DocTitle(pieces).Some? <==> TitleOf(Entries(pieces)) != []
    ensures Entries(WithoutTitle(pieces)) == Untitled(Entries(pieces))
  {
    if pieces != [] {
      var p, rest := pieces[0], pieces[1..];
      TitleOutline(rest);
      assert pieces == [p] + rest;
      EntriesCons(p, rest);
      WordsAreWords(p.text);
      NormalizeKeepsWords(p.text);
      LaterEntries(rest);
      EntriesCons(p, WithoutTitle(rest));
      assert Entries(pieces)[1..] == Entries(rest);
    }
  }

  lemma FlushOutline(heading: Option<string>, text: string)
    requires heading.Some? ==> Words(heading.value) != []
    ensures WordsOfSections(Flush(heading, text))
         == if heading.None? && Words(text) == [] then [] else [(HeadingWords(heading), Words(text))]
  {
    NormalizeKeepsWords(text);
    WordsAreWords(text);
  }

  lemma WordsOfSectionsAppend(a: seq<TextSection>, b: seq<TextSection>)
    ensures WordsOfSections(a + b) == WordsOfSections(a) + WordsOfSections(b)
  {
  }

  lemma SectionOutlineHead(heading: seq<string>, body: seq<string>, words: seq<string>, rest: seq<Entry>)
    ensures SectionOutline(heading, body, [HeadWords(words)] + rest)
         == (if heading == [] && body == [] then [] else [(heading, body)]) + SectionOutline(words, [], rest)
  {
    assert ([HeadWords(words)] + rest)[1..] == rest;
  }

  lemma HeadOutline(heading: Option<string>, text: string, p: Piece, rest: seq<Piece>)
    requires p.Head? && (heading.Some? ==> Words(heading.value) != [])
    requires WordsOfSections(SectionsAfter(NormalHeading(p.text), "", rest))
          == SectionOutline(Words(p.text), [], Entries(rest))
    ensures WordsOfSections(SectionsAfter(heading, text, [p] + rest))
         == SectionOutline(HeadingWords(heading), Words(text), [EntryOf(p)] + Entries(rest))
  {
    var later := SectionsAfter(NormalHeading(p.text), "", rest);
    SectionOutlineHead(HeadingWords(heading), Words(text), Words(p.text), Entries(rest));
    SectionsAfterHead(heading, text, p, rest);
    FlushOutline(heading, text);
    WordsOfSectionsAppend(Flush(heading, text), later);
  }

  lemma BodyOutline(heading: Option<string>, text: string, p: Piece, rest: seq<Piece>)
    requires !p.Head? && EndsInSpace(text)
    requires WordsOfSections(SectionsAfter(heading, text + p.text, rest))
          == SectionOutline(HeadingWords(heading), Words(text + p.text), Entries(rest))
    ensures WordsOfSections(SectionsAfter(heading, text, [p] + rest))
         == SectionOutline(HeadingWords(heading), Words(text), [EntryOf(p)] + Entries(rest))
  {
    var entries := [EntryOf(p)] + Entries(rest);
    assert entries[1..] == Entries(rest);
    SectionsAfterBody(heading, text, p, rest);
    WordsAppend(text, p.text);
  }

  lemma {:induction false} SectionsAreOutline(heading: Option<string>, text: string, pieces: seq<Piece>)
    requires Spaced(pieces) && EndsInSpace(text) && (heading.Some? ==> Words(heading.value) != [])
    ensures WordsOfSections(SectionsAfter(heading, text, pieces))
         == SectionOutline(HeadingWords(heading), Words(text), Entries(pieces))
    decreases |pieces|
  {
    if pieces == [] {
      FlushOutline(heading, text);
      assert text + "" == text;
    } else {
      var p, rest := pieces[0], pieces[1..];
      assert pieces == [p] + rest;
      EntriesCons(p, rest);
      if p.Head? {
        HeadingKeepsWords(p.text);
        NormalizeKeepsWords(p.text);
        WordsAreWords(p.text);
        SectionsAreOutline(NormalHeading(p.text), "", rest);
        HeadOutline(heading, text, p, rest);
      } else {
        SectionsAreOutline(heading, text + p.text, rest);
        BodyOutline(heading, text, p, rest);
      }
    }
  }

  /** For every well-nested document: the words of the title are those of its
      first title with any, and the sections are, in words, the document cut at
      its headings. */
  lemma WordsOfTheDocument(f: Forest)
    requires WellFormed(f)
    ensures var (title, sections) := Extracted(Events(f));
            && HeadingWords(title) == TitleOf(Outline(f)) && (title.Some? <==> TitleOf(Outline(f)) != [])
            && WordsOfSections(sections) == SectionOutline([], [], Untitled(Outline(f)))
  {
    var pieces := Pieces(f);
    ExtractsTheDocument(f);
    PiecesCarryTheWords(f);
    PiecesAreOutline(f);
    TitleOutline(pieces);
    TitleTakenOut(pieces);
    assert Spaced(BeforeTitle(pieces) + AfterTitle(pieces));
    SectionsAreOutline(None, "", WithoutTitle(pieces));
    assert "" + Lead(WithoutTitle(pieces)) == Lead(WithoutTitle(pieces));
  }

  ghost predicate TidySection(s: TextSection) {
    Tidy(s.text) && (s.heading.Some? ==> s.heading.value != "" && Tidy(s.heading.value))
  }

  ghost predicate TidyState(s: State) {
    && (forall i :: 0 <= i < |s.sections| ==> TidySection(s.sections[i]))
    && (s.curHeading.Some? ==> s.curHeading.value != "" && Tidy(s.curHeading.value))
    && (s.title.Some? ==> s.title.value != "" && Tidy(s.title.value))
  }

  lemma FlushIsTidy(s: State)
    requires TidyState(s)
    ensures TidyState(s.(sections := s.sections + Flush(s.curHeading, s.curText)))
  {
    NormalizeIsTidy(s.curText);
  }

  lemma PushIsTidy(s: State, frag: string)
    requires TidyState(s)
    ensures TidyState(Push(s, frag))
  {
  }

  lemma StartIsTidy(s: State, tag: Tag, alts: seq<string>)
    requires TidyState(s)
    ensures TidyState(Next(s, Start(tag, alts)))
  {
    PushIsTidy(s, MathFrag(alts));
    FlushIsTidy(s);
  }

  lemma EndIsTidy(s: State, tag: Tag)
    requires TidyState(s)
    ensures TidyState(Next(s, End(tag)))
  {
    NormalizeIsTidy(s.headingBuf);
    NormalizeIsTidy(s.titleBuf);
  }

  lemma NextIsTidy(s: State, e: Event)
    requires TidyState(s)
    ensures TidyState(Next(s, e))
  {
    match e
    case Start(tag, alts) => StartIsTidy(s, tag, alts);
    case EmptyTag(tag, alts) => PushIsTidy(s, MathFrag(alts));
    case Text(text) => PushIsTidy(s, TextFrag(text));
    case End(tag) => EndIsTidy(s, tag);
    case Other =>
  }

  lemma {:induction false} FedIsTidy(events: seq<Event>, n: nat)
    requires n <= |events|
    ensures TidyState(Fed(INITIAL, events, n))
  {
    if n > 0 {
      FedIsTidy(events, n - 1);
      NextIsTidy(Fed(INITIAL, events, n - 1), events[n - 1]);
    }
  }

  /** Whatever the reader delivers, title, headings and texts come with single
      spaces inside and none at the ends, and an empty title or heading is none. */
  lemma ExtractedIsTidy(events: seq<Event>)
    ensures var (title, sections) := Extracted(events);
            && (title.Some? ==> title.value != "" && Tidy(title.value))
            && forall i :: 0 <= i < |sections| ==> TidySection(sections[i])
  {
    FedIsTidy(events, |events|);
    FlushIsTidy(Fed(INITIAL, events, |events|));
  }

  /** The title is the words of the document's first title with any, one space between;
      the sections are, in words, the document without it, cut at its headings. */
  ghost predicate IsTextOf(f: Forest, title: Option<string>, sections: seq<TextSection>) {
    var words := TitleOf(Outline(f));
    && title == (if words == [] then None else Some(Join(words)))
    && WordsOfSections(sections) == SectionOutline([], [], Untitled(Outline(f)))
  }

  lemma TextOfTheDocument(f: Forest)
    requires WellFormed(f)
    ensures IsTextOf(f, Extracted(Events(f)).0, Extracted(Events(f)).1)
  {
    WordsOfTheDocument(f);
    ExtractedIsTidy(Events(f));
    var title := Extracted(Events(f)).0;
    if title.Some? {
      TidyIsNormalized(title.value);
    }
  }

  lemma TextOfEvents(events: seq<Event>)
    ensures forall f :: WellFormed(f) && events == Events(f) ==> IsTextOf(f, Extracted(events).0, Extracted(events).1)
    ensures forall i :: 0 <= i < |Extracted(events).1| ==> TidySection(Extracted(events).1[i])
  {
    ExtractedIsTidy(events);
    forall f | WellFormed(f) && events == Events(f) ensures IsTextOf(f, Extracted(events).0, Extracted(events).1) {
      TextOfTheDocument(f);
    }
  }

  /** The document with everything inside scripts, styles and formulas removed. */
  function Stripped(f: Forest): Forest {
    match f
    case Nil => Nil
    case Cons(n, rest) =>
      Cons(if !n.Elem? then n
           else if Skipped(n.tag) then Elem(n.tag, n.alts, Nil)
           else Elem(n.tag, n.alts, Stripped(n.kids)),
           Stripped(rest))
  }

  lemma {:induction false} StrippedSpeaksTheSame(f: Forest)
    ensures Spoken(Stripped(f)) == Spoken(f) && Pieces(Stripped(f)) == Pieces(f)
    ensures Flat(f) ==> Flat(Stripped(f))
    ensures WellFormed(f) ==> WellFormed(Stripped(f))
  {
    match f
    case Nil =>
    case Cons(n, rest) =>
      StrippedSpeaksTheSame(rest);
      if n.Elem? {
        StrippedSpeaksTheSame(n.kids);
      }
  }

  /** Nothing inside a script, a style or a formula shows in the answer. */
  lemma HiddenContentIsIrrelevant(f: Forest)
    requires WellFormed(f)
    ensures Extracted(Events(Stripped(f))) == Extracted(Events(f))
  {
    StrippedSpeaksTheSame(f);
    ExtractsTheDocument(f);
    ExtractsTheDocument(Stripped(f));
  }

  // ---- The view a caller's character limit gives ----

  datatype View = View(sections: seq<TextSection>, charCount: nat, truncated: bool)

  /** The first sections, `used` characters already taken. */
  function Cut(sections: seq<TextSection>, max: nat, used: nat): View
    requires used <= max
    decreases |sections|
  {
    if sections == [] then View([], used, false)
    else if used >= max then View([], used, true)
    else
      var sec, remaining := sections[0], max - used;
      if |sec.text| <= remaining then
        var rest := Cut(sections[1..], max, used + |sec.text|);
        rest.(sections := [sec] + rest.sections)
      else View([sec.(text := sec.text[..remaining])], max, true)
  }

  method ApplyMaxChars(full: seq<TextSection>, max: nat) returns (view: View)
    ensures view == Cut(full, max, 0)
  {
    var out, truncated := [], false;
    var used: nat := 0;
    for i := 0 to |full|
      invariant used <= max && !truncated
      invariant var rest := Cut(full[i..], max, used);
                Cut(full, max, 0) == rest.(sections := out + rest.sections)
    {
      var sec := full[i];
      assert full[i..][0] == sec && full[i..][1..] == full[i + 1..];
      if used >= max {
        truncated := true;
        assert out + [] == out;
        return View(out, used, truncated);
      }
      var remaining := max - used;
      if |sec.text| <= remaining {
        used := used + |sec.text|;
        ghost var rest := Cut(full[i + 1..], max, used).sections;
        assert out + ([sec] + rest) == out + [sec] + rest;
        out := out + [sec];
      } else {
        used := used + remaining;
        out := out + [TextSection(sec.heading, sec.text[..remaining])];
        truncated := true;
        return View(out, used, truncated);
      }
    }
    assert full[|full|..] == [];
    assert out + [] == out;
    view := View(out, used, truncated);
  }

  function AllText(sections: seq<TextSection>): string {
    if sections == [] then "" else sections[0].text + AllText(sections[1..])
  }

  /** The view's text is the full text cut at the limit, its count is that
      text's length, and the flag is down exactly when all sections came back
      whole. */
  lemma {:induction false} CutIsPrefix(sections: seq<TextSection>, max: nat, used: nat)
    requires used <= max
    ensures var v, text := Cut(sections, max, used), AllText(sections);
            && AllText(v.sections) == (if |text| <= max - used then text else text[..max - used])
            && v.charCount == used + |AllText(v.sections)| <= max
            && (!v.truncated <==> v.sections == sections)
    decreases |sections|
  {
    if sections != [] && used < max && |sections[0].text| <= max - used {
      var rest := sections[1..];
      CutIsPrefix(rest, max, used + |sections[0].text|);
      var v := Cut(rest, max, used + |sections[0].text|);
      assert ([sections[0]] + v.sections)[1..] == v.sections;
      assert sections == [sections[0]] + rest;
    } else if sections != [] && used < max {
      var cut := sections[0].(text := sections[0].text[..max - used]);
      assert [cut][1..] == [];
      assert AllText([cut]) == cut.text + "";
      assert AllText(sections)[..max - used] == cut.text;
    }
  }

  /** The view is the sections from the first on, each with its heading, and all
      but the last of them whole. */
  lemma {:induction false} CutKeepsSections(sections: seq<TextSection>, max: nat, used: nat)
    requires used <= max
    ensures var v := Cut(sections, max, used).sections;
            && |v| <= |sections|
            && (forall i :: 0 <= i < |v| ==> v[i].heading == sections[i].heading && v[i].text <= sections[i].text)
            && (forall i :: 0 <= i < |v| - 1 ==> v[i] == sections[i])
    decreases |sections|
  {
    if sections != [] && used < max && |sections[0].text| <= max - used {
      CutKeepsSections(sections[1..], max, used + |sections[0].text|);
    }
  }

  /** A section is in the view exactly when the text before it leaves room. */
  lemma {:induction false} CutReaches(sections: seq<TextSection>, max: nat, used: nat, i: nat)
    requires used <= max && i < |sections|
    ensures i < |Cut(sections, max, used).sections| <==> used + |AllText(sections[..i])| < max
    decreases i
  {
    if i > 0 {
      var rest, len := sections[1..], |sections[0].text|;
      assert sections[..i][1..] == rest[..i - 1];
      assert |AllText(sections[..i])| == len + |AllText(rest[..i - 1])|;
      if used < max && len <= max - used {
        CutReaches(rest, max, used + len, i - 1);
      }
    }
  }

  /** One cached full text serves every limit: cutting a view again at a lower
      limit gives the sections the lower limit gives. */
  lemma {:induction false} CutOfCut(sections: seq<TextSection>, max: nat, lower: nat, used: nat)
    requires used <= lower <= max
    ensures Cut(Cut(sections, max, used).sections, lower, used).sections == Cut(sections, lower, used).sections
    decreases |sections|
  {
    if sections != [] && used < max && |sections[0].text| <= max - used {
      var sec, rest := sections[0], sections[1..];
      var v := Cut(rest, max, used + |sec.text|);
      assert ([sec] + v.sections)[1..] == v.sections;
      if used + |sec.text| <= lower {
        CutOfCut(rest, max, lower, used + |sec.text|);
      }
    } else if sections != [] && used < max {
      var sec := sections[0];
      var cut := sec.(text := sec.text[..max - used]);
      assert [cut][1..] == [];
      if used < lower {
        assert sec.text[..max - used][..lower - used] == sec.text[..lower - used];
        assert cut.text[..|cut.text|] == cut.text;
      }
    }
  }
}
