/**
 Titles with inline markup: the tag scanner, and the text without the tags.

 Alphanumeric, alphabetic and lower-case are Unicode tables, given as `classes`.
 */
module Markup {
  import opened Wrappers
  import opened Strings
  import opened Whitespace

  // ---- The tag grammar ----

  predicate IsNameChar(c: char) {
    IsAlpha(c) || IsDigit(c) || c == ':' || c == '.' || c == '_' || c == '-'
  }

  predicate IsAsciiSpace(c: char) {
    c == ' ' || c == '\t' || c == '\n' || c == '\r' || c == '\U{000C}'
  }

  predicate NoAngle(s: string, from: nat, to: nat)
    requires from <= to <= |s|
  {
    forall j :: from <= j < to ==> s[j] != '<'
  }

  function NameEnd(s: string, i: nat): (k: nat)
    requires i <= |s|
    ensures i <= k <= |s|
    ensures NoAngle(s, i, k)
    ensures i < |s| && IsNameChar(s[i]) ==> k > i
    decreases |s| - i
  {
    if i == |s| || !IsNameChar(s[i]) then i else NameEnd(s, i + 1)
  }

  function SpaceEnd(s: string, i: nat): (k: nat)
    requires i <= |s|
    ensures i <= k <= |s|
    ensures NoAngle(s, i, k)
    decreases |s| - i
  {
    if i == |s| || !IsAsciiSpace(s[i]) then i else SpaceEnd(s, i + 1)
  }

  /** The end of the attribute at `i`, with its quoted value. */
  function AttributeEnd(s: string, i: nat): (end: Option<nat>)
    requires i < |s| && IsNameChar(s[i])
    ensures end.Some? ==> i < end.value <= |s| && NoAngle(s, i, end.value)
  {
    var eq := SpaceEnd(s, NameEnd(s, i));
    if eq == |s| || s[eq] != '=' then None
    else
      var open := SpaceEnd(s, eq + 1);
      if open == |s| || (s[open] != '"' && s[open] != '\'') then None
      else
        var close := IndexFrom(s, open + 1, s[open]);
        if close == |s| || !NoAngle(s, open + 1, close) then None else Some(close + 1)
  }

  datatype Close = Close(end: nat, selfClosing: bool)

  /** Attributes from `i` on and the end of the tag behind them. */
  function TagClose(s: string, i: nat, closing: bool): (r: Option<Close>)
    requires i <= |s|
    ensures r.Some? ==> i < r.value.end <= |s| && s[r.value.end - 1] == '>' && NoAngle(s, i, r.value.end)
    decreases |s| - i
  {
    var j := SpaceEnd(s, i);
    if j == |s| then None
    else if s[j] == '>' then Some(Close(j + 1, false))
    else if s[j] == '/' && !closing && j + 1 < |s| && s[j + 1] == '>' then Some(Close(j + 2, true))
    else if !closing && (IsAlpha(s[j]) || s[j] == '_') then
      match AttributeEnd(s, j)
      case Some(end) => TagClose(s, end, closing)
      case None => None
    else None
  }

  const INLINE_ELEMENTS := {
    "b", "bold", "br", "em", "i", "inline-formula", "italic", "math", "monospace", "sc", "scp",
    "small", "span", "strong", "sub", "sup", "tex-math", "tt", "u", "underline" }

  predicate OccursFrom(s: string, i: nat, pattern: string) {
    exists k: nat :: i <= k <= |s| && StartsWith(s[k..], pattern)
  }

  /** Whether a tag of this name is markup: closing, empty, known, namespaced or
      closed further on. */
  predicate Plausible(s: string, name: string, closing: bool, close: Close) {
    || closing || close.selfClosing || Lowered(name) in INLINE_ELEMENTS || ':' in name
    || OccursFrom(s, close.end, "</" + name)
  }

  /** The end of the tag that starts at `at`, if a tag starts there. */
  function TagEnd(s: string, at: nat): (end: Option<nat>)
    requires at < |s| && s[at] == '<'
    ensures end.Some? ==> at < end.value <= |s| && s[end.value - 1] == '>' && NoAngle(s, at + 1, end.value)
  {
    var closing := at + 1 < |s| && s[at + 1] == '/';
    var start := if closing then at + 2 else at + 1;
    if start == |s| || !IsAlpha(s[start]) then None
    else
      var stop := NameEnd(s, start);
      match TagClose(s, stop, closing)
      case None => None
      case Some(close) =>
        if Plausible(s, s[start..stop], closing, close) then Some(close.end) else None
  }

  method ScanName(s: string, from: nat) returns (i: nat)
    requires from <= |s|
    ensures i == NameEnd(s, from)
  {
    i := from;
    while i < |s| && IsNameChar(s[i])
      invariant from <= i <= |s| && NameEnd(s, i) == NameEnd(s, from)
    {
      i := i + 1;
    }
  }

  method ScanSpace(s: string, from: nat) returns (i: nat)
    requires from <= |s|
    ensures i == SpaceEnd(s, from)
  {
    i := from;
    while i < |s| && IsAsciiSpace(s[i])
      invariant from <= i <= |s| && SpaceEnd(s, i) == SpaceEnd(s, from)
    {
      i := i + 1;
    }
  }

  method ScanAttribute(s: string, from: nat) returns (end: Option<nat>)
    requires from < |s| && IsNameChar(s[from])
    ensures end == AttributeEnd(s, from)
  {
    var i := ScanName(s, from);
    i := ScanSpace(s, i);
    if i == |s| || s[i] != '=' {
      return None;
    }
    i := ScanSpace(s, i + 1);
    if i == |s| {
      return None;
    }
    var quote := s[i];
    if quote != '"' && quote != '\'' {
      return None;
    }
    var close := IndexFrom(s, i + 1, quote);
    if close == |s| || !NoAngle(s, i + 1, close) {
      return None;
    }
    return Some(close + 1);
  }

  method ScanClose(s: string, from: nat, closing: bool) returns (r: Option<Close>)
    requires from <= |s|
    ensures r == TagClose(s, from, closing)
  {
    var i := from;
    ghost var whole := TagClose(s, from, closing);
    while true
      invariant from <= i <= |s| && TagClose(s, i, closing) == whole
      decreases |s| - i
    {
      var j := ScanSpace(s, i);
      if j == |s| {
        return None;
      }
      if s[j] == '>' {
        return Some(Close(j + 1, false));
      }
      if s[j] == '/' && !closing && j + 1 < |s| && s[j + 1] == '>' {
        return Some(Close(j + 2, true));
      }
      if closing || !(IsAlpha(s[j]) || s[j] == '_') {
        return None;
      }
      var attribute := ScanAttribute(s, j);
      if attribute.None? {
        return None;
      }
      i := attribute.value;
    }
  }

  method TagLen(s: string, at: nat) returns (end: Option<nat>)
    requires at < |s| && s[at] == '<'
    ensures end == TagEnd(s, at)
  {
    var i := at + 1;
    var closing := i < |s| && s[i] == '/';
    if closing {
      i := i + 1;
    }
    if i == |s| || !IsAlpha(s[i]) {
      return None;
    }
    var stop := ScanName(s, i);
    var close := ScanClose(s, stop, closing);
    if close.None? || !Plausible(s, s[i..stop], closing, close.value) {
      return None;
    }
    return Some(close.value.end);
  }

  // ---- Tags and the text between them ----

  /** A text run knows how many elements enclose it. A tag's text is kept here
      to say that nothing is lost; the scanner drops it. */
  datatype Chunk = Tag(text: string) | Run(text: string, depth: nat)

  function DepthAfter(tag: string, depth: nat): nat {
    if StartsWith(tag, "</") then (if depth == 0 then 0 else depth - 1)
    else if |tag| >= 2 && tag[|tag| - 2..] == "/>" then depth
    else depth + 1
  }

  function RunOf(raw: string, start: nat, end: nat, depth: nat): seq<Chunk>
    requires start <= end <= |raw|
  {
    if start < end then [Run(raw[start..end], depth)] else []
  }

  function TagAt(raw: string, p: nat): (end: Option<nat>)
    requires p < |raw|
    ensures end.Some? ==> WholeTagAt(raw, p, end.value)
  {
    if raw[p] == '<' then TagEnd(raw, p) else None
  }

  /** For each position, the end of the tag that starts there, if one does. */
  function TagEnds(raw: string): (ends: seq<Option<nat>>)
    ensures Fits(raw, ends)
  {
    seq(|raw|, p requires 0 <= p < |raw| => TagAt(raw, p))
  }

  ghost predicate Fits(raw: string, ends: seq<Option<nat>>) {
    |ends| == |raw| && forall p: nat :: p < |ends| && ends[p].Some? ==> WholeTagAt(raw, p, ends[p].value)
  }

  ghost predicate WholeTagAt(raw: string, p: nat, end: nat) {
    p < end <= |raw| && raw[p] == '<' && raw[end - 1] == '>' && NoAngle(raw, p + 1, end)
  }

  /** The chunks from `start` on, of which nothing before `i` is a tag. */
  function ChunksFrom(raw: string, ends: seq<Option<nat>>, start: nat, i: nat, depth: nat): seq<Chunk>
    requires Fits(raw, ends) && start <= i <= |raw|
    decreases |raw| - i
  {
    var at := IndexFrom(raw, i, '<');
    if at == |raw| then RunOf(raw, start, |raw|, depth)
    else match ends[at]
         case Some(end) =>
           assert WholeTagAt(raw, at, end);
           RunOf(raw, start, at, depth) + [Tag(raw[at..end])]
           + ChunksFrom(raw, ends, end, end, DepthAfter(raw[at..end], depth))
         case None => ChunksFrom(raw, ends, start, at + 1, depth)
  }

  function Chunks(raw: string): seq<Chunk> {
    ChunksFrom(raw, TagEnds(raw), 0, 0, 0)
  }

  /** What is still to come from `start` on, behind the chunks so far. */
  ghost predicate Remaining(raw: string, chunks: seq<Chunk>, start: nat, i: nat, depth: nat) {
    start <= i <= |raw| && Chunks(raw) == chunks + ChunksFrom(raw, TagEnds(raw), start, i, depth)
  }

  lemma TagComesNext(raw: string, chunks: seq<Chunk>, start: nat, i: nat, depth: nat, at: nat, end: nat)
    requires Remaining(raw, chunks, start, i, depth)
    requires at == IndexFrom(raw, i, '<') < |raw| && TagEnd(raw, at) == Some(end)
    ensures start <= at < end <= |raw|
    ensures var before := if start < at then chunks + [Run(raw[start..at], depth)] else chunks;
            Remaining(raw, before + [Tag(raw[at..end])], end, end, DepthAfter(raw[at..end], depth))
  {
    var ends, tag := TagEnds(raw), raw[at..end];
    assert ends[at] == Some(end);
    assert chunks + [] == chunks;
    Regroup(chunks, RunOf(raw, start, at, depth), [Tag(tag)], ChunksFrom(raw, ends, end, end, DepthAfter(tag, depth)));
  }

  lemma NoTagComesNext(raw: string, chunks: seq<Chunk>, start: nat, i: nat, depth: nat, at: nat)
    requires Remaining(raw, chunks, start, i, depth)
    requires at == IndexFrom(raw, i, '<') < |raw| && TagEnd(raw, at) == None
    ensures Remaining(raw, chunks, start, at + 1, depth)
  {
    assert TagEnds(raw)[at] == None;
  }

  lemma NothingComesNext(raw: string, chunks: seq<Chunk>, start: nat, i: nat, depth: nat)
    requires Remaining(raw, chunks, start, i, depth) && IndexFrom(raw, i, '<') == |raw|
    ensures Chunks(raw) == if start < |raw| then chunks + [Run(raw[start..], depth)] else chunks
  {
    assert raw[start..|raw|] == raw[start..] && chunks + [] == chunks;
  }

  lemma Regroup(a: seq<Chunk>, b: seq<Chunk>, c: seq<Chunk>, d: seq<Chunk>)
    ensures a + (b + c + d) == a + b + c + d
  {
  }

  method SplitOnTags(raw: string) returns (chunks: seq<Chunk>)
    ensures chunks == Chunks(raw)
  {
    chunks := [];
    var depth: nat, start: nat, i: nat := 0, 0, 0;
    while true
      invariant Remaining(raw, chunks, start, i, depth)
      decreases |raw| - i
    {
      var at := IndexFrom(raw, i, '<');
      if at == |raw| {
        break;
      }
      var end := TagLen(raw, at);
      match end {
        case Some(e) =>
          TagComesNext(raw, chunks, start, i, depth, at, e);
          if start < at {
            chunks := chunks + [Run(raw[start..at], depth)];
          }
          chunks := chunks + [Tag(raw[at..e])];
          depth := DepthAfter(raw[at..e], depth);
          i := e;
          start := i;
        case None =>
          NoTagComesNext(raw, chunks, start, i, depth, at);
          i := at + 1;
      }
    }
    NothingComesNext(raw, chunks, start, i, depth);
    if start < |raw| {
      chunks := chunks + [Run(raw[start..], depth)];
    }
  }

  function Text(chunks: seq<Chunk>): string {
    if chunks == [] then "" else chunks[0].text + Text(chunks[1..])
  }

  /** Where the tags start, counting from `from`. */
  function TagStarts(chunks: seq<Chunk>, from: nat): set<nat> {
    if chunks == [] then {} else
      (if chunks[0].Tag? then {from} else {}) + TagStarts(chunks[1..], from + |chunks[0].text|)
  }

  lemma {:induction false} TextAppend(a: seq<Chunk>, b: seq<Chunk>)
    ensures Text(a + b) == Text(a) + Text(b)
  {
    if a == [] {
      assert a + b == b;
    } else {
      assert (a + b)[1..] == a[1..] + b;
      TextAppend(a[1..], b);
      assert a[0].text + (Text(a[1..]) + Text(b)) == a[0].text + Text(a[1..]) + Text(b);
    }
  }

  lemma {:induction false} TagStartsAppend(a: seq<Chunk>, b: seq<Chunk>, from: nat)
    ensures TagStarts(a + b, from) == TagStarts(a, from) + TagStarts(b, from + |Text(a)|)
    decreases |a|
  {
    if a == [] {
      assert a + b == b;
    } else {
      assert (a + b)[1..] == a[1..] + b;
      TagStartsAppend(a[1..], b, from + |a[0].text|);
    }
  }

  lemma FirstChunks(raw: string, start: nat, at: nat, end: nat, depth: nat)
    requires start <= at < end <= |raw|
    ensures var first := RunOf(raw, start, at, depth) + [Tag(raw[at..end])];
            Text(first) == raw[start..end] && TagStarts(first, start) == {at}
  {
    var tag := [Tag(raw[at..end])];
    assert tag[1..] == [];
    assert Text(tag) == raw[at..end] + "";
    TextAppend(RunOf(raw, start, at, depth), tag);
    TagStartsAppend(RunOf(raw, start, at, depth), tag, start);
    assert raw[start..end] == raw[start..at] + raw[at..end];
    if start < at {
      var run := [Run(raw[start..at], depth)];
      assert run[1..] == [];
      assert Text(run) == raw[start..at] + "";
    }
  }

  ghost predicate OpensTag(raw: string, p: nat) {
    p < |raw| && raw[p] == '<' && TagEnd(raw, p).Some?
  }

  /** Chunks that rebuild the text from `from` on, with its tags at `ends`. */
  ghost predicate ExactFrom(raw: string, ends: seq<Option<nat>>, chunks: seq<Chunk>, from: nat) {
    && from <= |raw| && Text(chunks) == raw[from..]
    && forall p: nat :: from <= p ==> (p in TagStarts(chunks, from) <==> p < |ends| && ends[p].Some?)
  }

  lemma NoTagHere(raw: string, ends: seq<Option<nat>>, p: nat)
    requires Fits(raw, ends) && p < |raw| && raw[p] != '<'
    ensures ends[p].None?
  {
    assert ends[p].Some? ==> WholeTagAt(raw, p, ends[p].value);
  }

  lemma OnlyTagUpTo(raw: string, ends: seq<Option<nat>>, start: nat, at: nat, p: nat)
    requires Fits(raw, ends) && start <= at < |raw| && ends[at].Some?
    requires forall q :: start <= q < at ==> ends[q].None?
    requires start <= p < ends[at].value
    ensures p < |ends| && (ends[p].Some? <==> p == at)
  {
    assert WholeTagAt(raw, at, ends[at].value);
    if p > at {
      NoTagHere(raw, ends, p);
    }
  }

  lemma TagThenExact(raw: string, ends: seq<Option<nat>>, start: nat, at: nat, depth: nat, later: seq<Chunk>)
    requires Fits(raw, ends) && start <= at < |raw| && ends[at].Some?
    requires forall p :: start <= p < at ==> ends[p].None?
    requires ExactFrom(raw, ends, later, ends[at].value)
    ensures var end := ends[at].value;
            end <= |raw| && at < end
            && ExactFrom(raw, ends, RunOf(raw, start, at, depth) + [Tag(raw[at..end])] + later, start)
  {
    var end := ends[at].value;
    assert WholeTagAt(raw, at, end);
    var first := RunOf(raw, start, at, depth) + [Tag(raw[at..end])];
    FirstChunks(raw, start, at, end, depth);
    TextAppend(first, later);
    assert raw[start..] == raw[start..end] + raw[end..];
    TagStartsAppend(first, later, start);
    TagStartsBeyond(later, end);
    forall p: nat | start <= p
      ensures p in TagStarts(first + later, start) <==> p < |ends| && ends[p].Some?
    {
      OneStartMore(raw, ends, start, at, TagStarts(later, end), p);
    }
  }

  lemma OneStartMore(raw: string, ends: seq<Option<nat>>, start: nat, at: nat, later: set<nat>, p: nat)
    requires Fits(raw, ends) && start <= at < |raw| && ends[at].Some?
    requires forall q :: start <= q < at ==> ends[q].None?
    requires start <= p && forall q :: q in later ==> q >= ends[at].value
    requires ends[at].value <= p ==> (p in later <==> p < |ends| && ends[p].Some?)
    ensures p in {at} + later <==> p < |ends| && ends[p].Some?
  {
    assert WholeTagAt(raw, at, ends[at].value);
    if p < ends[at].value {
      OnlyTagUpTo(raw, ends, start, at, p);
    }
  }

  lemma {:induction false} ChunksFromExact(raw: string, ends: seq<Option<nat>>, start: nat, i: nat, depth: nat)
    requires Fits(raw, ends) && start <= i <= |raw|
    requires forall p :: start <= p < i ==> ends[p].None?
    ensures ExactFrom(raw, ends, ChunksFrom(raw, ends, start, i, depth), start)
    decreases |raw| - i
  {
    var at := IndexFrom(raw, i, '<');
    forall p: nat | i <= p < at ensures ends[p].None? {
      NoTagHere(raw, ends, p);
    }
    if at == |raw| {
      LastRunExact(raw, ends, start, depth);
    } else if ends[at].Some? {
      var end := ends[at].value;
      assert WholeTagAt(raw, at, end);
      ChunksFromExact(raw, ends, end, end, DepthAfter(raw[at..end], depth));
      TagThenExact(raw, ends, start, at, depth, ChunksFrom(raw, ends, end, end, DepthAfter(raw[at..end], depth)));
    } else {
      ChunksFromExact(raw, ends, start, at + 1, depth);
    }
  }

  lemma LastRunExact(raw: string, ends: seq<Option<nat>>, start: nat, depth: nat)
    requires start <= |raw| == |ends| && forall p :: start <= p < |raw| ==> ends[p].None?
    ensures ExactFrom(raw, ends, RunOf(raw, start, |raw|, depth), start)
  {
    var run := RunOf(raw, start, |raw|, depth);
    if start < |raw| {
      assert run[1..] == [];
      assert Text(run) == raw[start..] + "";
    }
  }

  lemma {:induction false} TagStartsBeyond(chunks: seq<Chunk>, from: nat)
    ensures forall p :: p in TagStarts(chunks, from) ==> p >= from
    decreases |chunks|
  {
    if chunks != [] {
      TagStartsBeyond(chunks[1..], from + |chunks[0].text|);
    }
  }

  predicate WholeTag(text: string) {
    && |text| >= 2 && text[0] == '<' && text[|text| - 1] == '>'
    && forall j :: 1 <= j < |text| ==> text[j] != '<'
  }

  /** Tags are whole, runs are not empty, and no two runs stand side by side. */
  ghost predicate Proper(chunks: seq<Chunk>) {
    && (forall i :: 0 <= i < |chunks| ==> if chunks[i].Tag? then WholeTag(chunks[i].text) else chunks[i].text != "")
    && (forall i: nat :: i + 1 < |chunks| ==> SeparatedAt(chunks, i))
  }

  ghost predicate SeparatedAt(chunks: seq<Chunk>, i: nat)
    requires i + 1 < |chunks|
  {
    chunks[i].Tag? || chunks[i + 1].Tag?
  }

  lemma {:induction false} ChunksFromProper(raw: string, ends: seq<Option<nat>>, start: nat, i: nat, depth: nat)
    requires Fits(raw, ends) && start <= i <= |raw|
    ensures Proper(ChunksFrom(raw, ends, start, i, depth))
    decreases |raw| - i
  {
    var at := IndexFrom(raw, i, '<');
    if at < |raw| && ends[at].Some? {
      var end := ends[at].value;
      assert WholeTagAt(raw, at, end);
      TagIsWhole(raw, at, end);
      var tag := Tag(raw[at..end]);
      ChunksFromProper(raw, ends, end, end, DepthAfter(tag.text, depth));
      ProperAppend(RunOf(raw, start, at, depth), tag, ChunksFrom(raw, ends, end, end, DepthAfter(tag.text, depth)));
    } else if at < |raw| {
      ChunksFromProper(raw, ends, start, at + 1, depth);
    }
  }

  lemma TagIsWhole(raw: string, at: nat, end: nat)
    requires WholeTagAt(raw, at, end)
    ensures WholeTag(raw[at..end])
  {
    var text := raw[at..end];
    forall j | 1 <= j < |text| ensures text[j] != '<' {
      assert raw[at + j] == text[j];
    }
    assert text[|text| - 1] == raw[end - 1];
  }

  lemma ProperAppend(first: seq<Chunk>, tag: Chunk, later: seq<Chunk>)
    requires |first| <= 1 && (first != [] ==> first[0].Run? && first[0].text != "")
    requires tag.Tag? && WholeTag(tag.text) && Proper(later)
    ensures Proper(first + [tag] + later)
  {
    var all, n := first + [tag] + later, |first|;
    assert all[n] == tag;
    forall i: nat | i + 1 < |all| ensures SeparatedAt(all, i) {
      if i > n {
        assert SeparatedAt(later, i - n - 1);
        assert all[i] == later[i - n - 1] && all[i + 1] == later[i - n];
      }
    }
  }

  /** The split is lossless and proper, and its tags start at exactly the
      positions where the grammar finds a tag. */
  lemma SplitIsExact(raw: string)
    ensures Text(Chunks(raw)) == raw && Proper(Chunks(raw))
    ensures forall p: nat :: p in TagStarts(Chunks(raw), 0) <==> OpensTag(raw, p)
  {
    ChunksFromExact(raw, TagEnds(raw), 0, 0, 0);
    ChunksFromProper(raw, TagEnds(raw), 0, 0, 0);
    assert raw[0..] == raw;
  }

  // ---- The text without the tags ----

  /** What lies between two runs. */
  datatype Gap = Gap(tag: bool, space: bool, lineBreak: bool)
  {
    function Absorb(ws: string): Gap {
      Gap(tag, space || ws != "", lineBreak || exists i :: 0 <= i < |ws| && (ws[i] == '\n' || ws[i] == '\r'))
    }
  }

  const NO_GAP := Gap(false, false, false)

  datatype Classes = Classes(alphanumeric: char -> bool, alphabetic: char -> bool, lowercase: char -> bool)

  function CountAlphanumeric(s: string, classes: Classes): nat {
    if s == "" then 0 else CountAlphanumeric(s[1..], classes) + if classes.alphanumeric(s[0]) then 1 else 0
  }

  function LettersFromStart(s: string, classes: Classes): string {
    if s == "" || !classes.alphabetic(s[0]) then "" else [s[0]] + LettersFromStart(s[1..], classes)
  }

  function LettersToEnd(s: string, classes: Classes): string {
    if s == "" || !classes.alphabetic(s[|s| - 1]) then ""
    else LettersToEnd(s[..|s| - 1], classes) + [s[|s| - 1]]
  }

  predicate LowercaseWordAtEdge(outer: string, atEnd: bool, classes: Classes) {
    IsLowerWord(if atEnd then LettersToEnd(outer, classes) else LettersFromStart(outer, classes), classes)
  }

  predicate IsLowerWord(letters: string, classes: Classes) {
    |letters| >= 2 && forall i :: 0 <= i < |letters| ==> classes.lowercase(letters[i])
  }

  /** The separator for a line break that crosses a tag. */
  function Boundary(left: string, leftDepth: nat, right: string, rightDepth: nat, classes: Classes): (r: string)
    ensures r == "" || r == " "
  {
    if leftDepth == rightDepth then ""
    else
      var outerIsLeft := rightDepth > leftDepth;
      var inner, outer := if outerIsLeft then right else left, if outerIsLeft then left else right;
      if outer == "" then ""
      else
        var edge := if outerIsLeft then outer[|outer| - 1] else outer[0];
        var operator := edge in {'=', '<', '>', '\U{2264}', '\U{2265}', '\U{00B1}', '&'};
        var sentencePunct := outerIsLeft && edge in {'.', ',', ';', ':'};
        var space := if CountAlphanumeric(inner, classes) >= 2 then classes.alphanumeric(edge) || sentencePunct
                     else LowercaseWordAtEdge(outer, outerIsLeft, classes) || sentencePunct || operator;
        if space then " " else ""
  }

  /** The text so far, the run it ends in, and the gap since. */
  datatype Draft = Draft(out: string, prev: Option<(string, nat)>, gap: Gap)

  function Separator(d: Draft, body: string, depth: nat, gap: Gap, classes: Classes): (r: string)
    ensures r == "" || r == " "
  {
    if d.prev.None? then ""
    else if gap.tag && gap.lineBreak then Boundary(d.prev.value.0, d.prev.value.1, body, depth, classes)
    else if gap.space then " "
    else ""
  }

  function Drafted(d: Draft, c: Chunk, classes: Classes): Draft {
    match c
    case Tag(_) => d.(gap := d.gap.(tag := true))
    case Run(text, depth) =>
      var body := Trim(text);
      if body == "" then d.(gap := d.gap.Absorb(text))
      else
        var gap := d.gap.Absorb(Leading(text));
        Draft(d.out + Separator(d, body, depth, gap, classes) + Normalize(body),
              Some((body, depth)), NO_GAP.Absorb(Trailing(text)))
  }

  const BLANK_DRAFT := Draft("", None, NO_GAP)

  function DraftUpTo(chunks: seq<Chunk>, n: nat, classes: Classes): Draft
    requires n <= |chunks|
  {
    if n == 0 then BLANK_DRAFT else Drafted(DraftUpTo(chunks, n - 1, classes), chunks[n - 1], classes)
  }

  /** The title before its entities are decoded. */
  function PlainText(raw: string, classes: Classes): string {
    DraftUpTo(Chunks(raw), |Chunks(raw)|, classes).out
  }

  method PlainTitle(raw: string, classes: Classes, decode: string -> string) returns (title: string)
    ensures title == if exists i :: 0 <= i < |raw| && raw[i] in {'<', '&', '\n', '\r'}
                     then decode(PlainText(raw, classes)) else raw
  {
    if !exists i :: 0 <= i < |raw| && raw[i] in {'<', '&', '\n', '\r'} {
      return raw;
    }
    var out := "";
    var prev: Option<(string, nat)> := None;
    var gap := NO_GAP;
    var chunks := SplitOnTags(raw);
    for i := 0 to |chunks|
      invariant Draft(out, prev, gap) == DraftUpTo(chunks, i, classes)
    {
      ghost var d := Draft(out, prev, gap);
      match chunks[i] {
        case Tag(_) =>
          gap := gap.(tag := true);
        case Run(text, depth) =>
          var body := Trim(text);
          if body == "" {
            gap := gap.Absorb(text);
            continue;
          }
          gap := gap.Absorb(Leading(text));
          ghost var separator := Separator(d, body, depth, gap, classes);
          assert out + "" == out;
          if prev.Some? {
            if gap.tag && gap.lineBreak {
              out := out + Boundary(prev.value.0, prev.value.1, body, depth, classes);
            } else if gap.space {
              out := out + " ";
            }
          }
          assert out == d.out + separator;
          out := out + Normalize(body);
          prev := Some((body, depth));
          gap := NO_GAP.Absorb(Trailing(text));
      }
    }
    return decode(out);
  }

  // ---- What the text keeps, and its shape ----

  /** The characters that are not white space. */
  function Ink(s: string): string {
    if s == "" then "" else Ink(s[..|s| - 1]) + if IsSpace(s[|s| - 1]) then "" else [s[|s| - 1]]
  }

  lemma {:induction false} InkAppend(a: string, b: string)
    ensures Ink(a + b) == Ink(a) + Ink(b)
  {
    if b == "" {
      assert a + b == a;
    } else {
      assert (a + b)[..|a + b| - 1] == a + b[..|b| - 1];
      InkAppend(a, b[..|b| - 1]);
    }
  }

  lemma {:induction false} InkOfBlank(s: string)
    requires Blank(s)
    ensures Ink(s) == ""
  {
    if s != "" {
      InkOfBlank(s[..|s| - 1]);
    }
  }

  lemma {:induction false} InkOfWord(s: string)
    requires forall i :: 0 <= i < |s| ==> !IsSpace(s[i])
    ensures Ink(s) == s
  {
    if s != "" {
      InkOfWord(s[..|s| - 1]);
      assert s == s[..|s| - 1] + [s[|s| - 1]];
    }
  }

  function Concat(ws: seq<string>): string {
    if ws == [] then "" else ws[0] + Concat(ws[1..])
  }

  lemma {:induction false} InkIsWords(s: string)
    ensures Ink(s) == Concat(Words(s))
    decreases |s|
  {
    if s != "" {
      var k := if IsSpace(s[0]) then 1 else WordEnd(s, 0);
      assert s == s[..k] + s[k..];
      InkAppend(s[..k], s[k..]);
      InkIsWords(s[k..]);
      if IsSpace(s[0]) {
        InkOfBlank(s[..k]);
      } else {
        InkOfWord(s[..k]);
        assert ([s[..k]] + Words(s[k..]))[1..] == Words(s[k..]);
      }
    }
  }

  lemma InkOfNormalized(s: string)
    ensures Ink(Normalize(s)) == Ink(s)
  {
    InkIsWords(s);
    InkIsWords(Normalize(s));
    NormalizeKeepsWords(s);
  }

  lemma {:induction false} InkOfTrimLeft(s: string)
    ensures Ink(TrimLeft(s)) == Ink(s) && Words(TrimLeft(s)) == Words(s)
  {
    if s != "" && IsSpace(s[0]) {
      assert s == s[..1] + s[1..];
      InkAppend(s[..1], s[1..]);
      InkOfBlank(s[..1]);
      InkOfTrimLeft(s[1..]);
    }
  }

  lemma {:induction false} InkOfTrimRight(s: string)
    ensures Ink(TrimRight(s)) == Ink(s) && Words(TrimRight(s)) == Words(s)
  {
    if s != "" && IsSpace(s[|s| - 1]) {
      var front, last := s[..|s| - 1], s[|s| - 1..];
      assert s == front + last;
      WordsThenBlank(front, last);
      InkOfTrimRight(front);
    }
  }

  /** Trimming keeps the words, and leaves something exactly if there are any. */
  lemma TrimKeeps(s: string)
    ensures Ink(Trim(s)) == Ink(s) && Words(Trim(s)) == Words(s)
    ensures Trim(s) == "" <==> Words(s) == []
  {
    InkOfTrimLeft(s);
    InkOfTrimRight(TrimLeft(s));
    var r := Trim(s);
    WordsAreWords(r);
    TrimRightSplits(TrimLeft(s));
    if r != "" {
      assert !IsSpace(r[|r| - 1]);
    }
  }

  function RunPart(c: Chunk): string {
    if c.Run? then c.text else ""
  }

  /** The text of the runs alone. */
  function RunText(chunks: seq<Chunk>, n: nat): string
    requires n <= |chunks|
  {
    if n == 0 then "" else RunText(chunks, n - 1) + RunPart(chunks[n - 1])
  }

  lemma DraftStepInk(d: Draft, c: Chunk, classes: Classes)
    ensures Ink(Drafted(d, c, classes).out) == Ink(d.out) + Ink(RunPart(c))
  {
    if c.Run? {
      var body := Trim(c.text);
      TrimKeeps(c.text);
      if body == "" {
        assert Ink(body) == "" && d.out + "" == d.out;
      } else {
        var separator := Separator(d, body, c.depth, d.gap.Absorb(Leading(c.text)), classes);
        InkAppend(d.out + separator, Normalize(body));
        InkAppend(d.out, separator);
        InkOfBlank(separator);
        InkOfNormalized(body);
      }
    }
  }

  lemma DraftStep(chunks: seq<Chunk>, n: nat, classes: Classes)
    requires 0 < n <= |chunks|
    ensures Ink(DraftUpTo(chunks, n, classes).out)
         == Ink(DraftUpTo(chunks, n - 1, classes).out) + Ink(RunPart(chunks[n - 1]))
  {
    DraftStepInk(DraftUpTo(chunks, n - 1, classes), chunks[n - 1], classes);
  }

  lemma InkStep(a: string, b: string, more: string, part: string)
    requires Ink(a) == Ink(b) && Ink(more) == Ink(a) + Ink(part)
    ensures Ink(more) == Ink(b + part)
  {
    InkAppend(b, part);
  }

  lemma {:induction false} DraftKeepsInk(chunks: seq<Chunk>, n: nat, classes: Classes, out: string, text: string)
    requires n <= |chunks| && out == DraftUpTo(chunks, n, classes).out && text == RunText(chunks, n)
    ensures Ink(out) == Ink(text)
  {
    if n > 0 {
      var out', text' := DraftUpTo(chunks, n - 1, classes).out, RunText(chunks, n - 1);
      DraftKeepsInk(chunks, n - 1, classes, out', text');
      DraftStep(chunks, n, classes);
      InkStep(out', text', out, RunPart(chunks[n - 1]));
    }
  }

  lemma NormalizedIsTidy(s: string)
    ensures Tidy(Normalize(s)) && (Normalize(s) == "" <==> Trim(s) == "")
  {
    TrimKeeps(s);
    NormalizeIsTidy(s);
    WordsAreWords(s);
    WordsOfJoin(Words(s));
  }

  lemma DraftStaysTidy(d: Draft, c: Chunk, classes: Classes)
    requires Tidy(d.out) && (d.prev.Some? <==> d.out != "")
    ensures var more := Drafted(d, c, classes); Tidy(more.out) && (more.prev.Some? <==> more.out != "")
  {
    if c.Run? && Trim(c.text) != "" {
      var body := Trim(c.text);
      var separator := Separator(d, body, c.depth, d.gap.Absorb(Leading(c.text)), classes);
      NormalizedIsTidy(c.text);
      TrimKeeps(c.text);
      TidyJoin(d.out, separator, Normalize(body));
    }
  }

  lemma {:induction false} DraftIsTidy(chunks: seq<Chunk>, n: nat, classes: Classes, d: Draft)
    requires n <= |chunks| && d == DraftUpTo(chunks, n, classes)
    ensures Tidy(d.out) && (d.prev.Some? <==> d.out != "")
  {
    if n > 0 {
      DraftIsTidy(chunks, n - 1, classes, DraftUpTo(chunks, n - 1, classes));
      DraftStaysTidy(DraftUpTo(chunks, n - 1, classes), chunks[n - 1], classes);
    }
  }

  /** The title's text has the same characters in the same order as the text
      between the tags, white space aside, and single spaces inside only. */
  lemma PlainTextKeepsInk(raw: string, classes: Classes)
    ensures Ink(PlainText(raw, classes)) == Ink(RunText(Chunks(raw), |Chunks(raw)|))
    ensures Tidy(PlainText(raw, classes))
  {
    var chunks := Chunks(raw);
    DraftKeepsInk(chunks, |chunks|, classes, PlainText(raw, classes), RunText(chunks, |chunks|));
    DraftIsTidy(chunks, |chunks|, classes, DraftUpTo(chunks, |chunks|, classes));
  }

  predicate OneLine(s: string) {
    forall i :: 0 <= i < |s| ==> s[i] != '\n' && s[i] != '\r'
  }

  predicate SpaceBehind(s: string) {
    s != "" && IsSpace(s[|s| - 1])
  }

  // ---- Where a line break crosses a tag ----

  /** A run with more than white space in it. */
  predicate Spoken(c: Chunk) {
    c.Run? && Trim(c.text) != ""
  }

  predicate SpokenBefore(chunks: seq<Chunk>, n: nat)
    requires n <= |chunks|
  {
    n > 0 && (Spoken(chunks[n - 1]) || SpokenBefore(chunks, n - 1))
  }

  /** The white space between the last spoken run before chunk `n` and that chunk. */
  function SpaceBefore(chunks: seq<Chunk>, n: nat): string
    requires n <= |chunks|
  {
    if n == 0 then ""
    else if Spoken(chunks[n - 1]) then Trailing(chunks[n - 1].text)
    else SpaceBefore(chunks, n - 1) + RunPart(chunks[n - 1])
  }

  /** There is a tag between them. */
  predicate TagBefore(chunks: seq<Chunk>, n: nat)
    requires n <= |chunks|
  {
    n > 0 && !Spoken(chunks[n - 1]) && (chunks[n - 1].Tag? || TagBefore(chunks, n - 1))
  }

  /** Between two spoken runs, of which chunk `n` is the second, stand both a tag
      and a line break. */
  predicate BrokenAt(chunks: seq<Chunk>, n: nat)
    requires n < |chunks|
  {
    && Spoken(chunks[n]) && SpokenBefore(chunks, n) && TagBefore(chunks, n)
    && !OneLine(SpaceBefore(chunks, n) + Leading(chunks[n].text))
  }

  /** What the draft knows of the gap it ends in. */
  predicate KnowsGap(d: Draft, chunks: seq<Chunk>, n: nat)
    requires n <= |chunks|
  {
    && (d.prev.Some? <==> SpokenBefore(chunks, n))
    && (d.gap.tag <==> TagBefore(chunks, n))
    && (d.gap.lineBreak <==> !OneLine(SpaceBefore(chunks, n)))
  }

  lemma OneLineIff(a: string, b: string)
    ensures OneLine(a + b) <==> OneLine(a) && OneLine(b)
  {
    assert forall i :: 0 <= i < |a| ==> (a + b)[i] == a[i];
    assert forall i :: 0 <= i < |b| ==> (a + b)[|a| + i] == b[i];
  }

  lemma AbsorbIff(g: Gap, ws: string)
    ensures g.Absorb(ws).lineBreak <==> g.lineBreak || !OneLine(ws)
  {
  }

  lemma KnowsNextGap(d: Draft, chunks: seq<Chunk>, n: nat, classes: Classes)
    requires n < |chunks| && KnowsGap(d, chunks, n)
    ensures KnowsGap(Drafted(d, chunks[n], classes), chunks, n + 1)
  {
    var c := chunks[n];
    if Spoken(c) {
      AbsorbIff(NO_GAP, Trailing(c.text));
    } else if c.Run? {
      AbsorbIff(d.gap, c.text);
      OneLineIff(SpaceBefore(chunks, n), c.text);
    } else {
      assert SpaceBefore(chunks, n) + "" == SpaceBefore(chunks, n);
    }
  }

  /** The draft is the normalized text of the runs so far. */
  predicate Faithful(d: Draft, text: string) {
    && d.out == Normalize(text) && (d.prev.Some? <==> Words(text) != [])
    && (d.gap.space <==> SpaceBehind(text))
  }

  lemma EdgesOfTrim(s: string)
    ensures Leading(s) != "" <==> s != "" && IsSpace(s[0])
    ensures Trailing(s) != "" <==> SpaceBehind(s)
  {
  }

  lemma BlankRunFaithful(d: Draft, c: Chunk, text: string, classes: Classes)
    requires Faithful(d, text) && c.Run? && !Spoken(c)
    ensures Faithful(Drafted(d, c, classes), text + c.text)
  {
    TrimKeeps(c.text);
    WordsAreWords(c.text);
    WordsThenBlank(text, c.text);
    assert c.text == "" ==> text + c.text == text;
    assert c.text != "" ==> (text + c.text)[|text + c.text| - 1] == c.text[|c.text| - 1];
  }

  /** What a run that is not blank adds to the normalized text. */
  lemma RunAdds(text: string, run: string)
    requires Words(run) != []
    ensures Words(text + run) != []
    ensures var apart := SpaceBehind(text) || Leading(run) != "";
            Normalize(text + run)
            == Normalize(text) + (if Words(text) != [] && apart then " " else "") + Normalize(run)
  {
    EdgesOfTrim(run);
    WordsAreWords(text);
    WordsAreWords(run);
    WordsAreWords(text + run);
    var i :| 0 <= i < |run| && !IsSpace(run[i]);
    assert (text + run)[|text| + i] == run[i];
    if EndsInSpace(text) || IsSpace(run[0]) {
      NormalizeApart(text, run);
      assert Words(text) == [] ==> Normalize(text) == "";
    } else {
      NormalizeGlued(text, run);
    }
  }

  lemma SpokenRunFaithful(d: Draft, c: Chunk, text: string, classes: Classes)
    requires Faithful(d, text) && Spoken(c)
    requires d.prev.Some? && d.gap.tag ==> !d.gap.Absorb(Leading(c.text)).lineBreak
    ensures Faithful(Drafted(d, c, classes), text + c.text)
  {
    var run := c.text;
    TrimKeeps(run);
    EdgesOfTrim(run);
    RunAdds(text, run);
    assert (text + run)[|text + run| - 1] == run[|run| - 1];
    assert Normalize(Trim(run)) == Normalize(run);
  }

  lemma StaysFaithful(d: Draft, chunks: seq<Chunk>, n: nat, text: string, classes: Classes)
    requires n < |chunks| && KnowsGap(d, chunks, n) && !BrokenAt(chunks, n) && Faithful(d, text)
    ensures Faithful(Drafted(d, chunks[n], classes), text + RunPart(chunks[n]))
  {
    var c := chunks[n];
    if c.Tag? {
      assert text + "" == text;
    } else if !Spoken(c) {
      BlankRunFaithful(d, c, text, classes);
    } else {
      AbsorbIff(d.gap, Leading(c.text));
      OneLineIff(SpaceBefore(chunks, n), Leading(c.text));
      SpokenRunFaithful(d, c, text, classes);
    }
  }

  lemma FaithfulStep(chunks: seq<Chunk>, n: nat, classes: Classes, d: Draft, text: string)
    requires n < |chunks| && d == DraftUpTo(chunks, n, classes) && text == RunText(chunks, n)
    requires KnowsGap(d, chunks, n) && Faithful(d, text) && !BrokenAt(chunks, n)
    ensures Faithful(DraftUpTo(chunks, n + 1, classes), RunText(chunks, n + 1))
    ensures KnowsGap(DraftUpTo(chunks, n + 1, classes), chunks, n + 1)
  {
    StaysFaithful(d, chunks, n, text, classes);
    KnowsNextGap(d, chunks, n, classes);
  }

  lemma {:induction false} DraftIsFaithful(chunks: seq<Chunk>, n: nat, classes: Classes, d: Draft, text: string)
    requires n <= |chunks| && d == DraftUpTo(chunks, n, classes) && text == RunText(chunks, n)
    requires forall k: nat :: k < n ==> !BrokenAt(chunks, k)
    ensures Faithful(d, text) && KnowsGap(d, chunks, n)
  {
    if n > 0 {
      var d', text' := DraftUpTo(chunks, n - 1, classes), RunText(chunks, n - 1);
      DraftIsFaithful(chunks, n - 1, classes, d', text');
      FaithfulStep(chunks, n - 1, classes, d', text');
    }
  }

  /** Unless a line break and a tag stand between the same two runs, taking the
      tags out is all that happens: the title is the text of the runs,
      normalized as a whole. */
  lemma UnbrokenIsNormalized(raw: string, classes: Classes)
    requires forall k: nat :: k < |Chunks(raw)| ==> !BrokenAt(Chunks(raw), k)
    ensures PlainText(raw, classes) == Normalize(RunText(Chunks(raw), |Chunks(raw)|))
  {
    var chunks := Chunks(raw);
    DraftIsFaithful(chunks, |chunks|, classes, DraftUpTo(chunks, |chunks|, classes), RunText(chunks, |chunks|));
  }

  /** Without tags only the white space is normalized. */
  lemma PlainTextWithoutTags(raw: string, classes: Classes)
    requires forall p: nat :: !OpensTag(raw, p)
    ensures PlainText(raw, classes) == Normalize(raw)
  {
    ChunksFromExact(raw, TagEnds(raw), 0, 0, 0);
    forall p: nat | p < |raw| ensures TagEnds(raw)[p].None? {
      assert !OpensTag(raw, p);
    }
    NoTagsOneRun(raw, TagEnds(raw), 0);
    assert raw[0..] == raw;
    TrimKeeps(raw);
    var chunks := Chunks(raw);
    assert raw[0..|raw|] == raw;
    if raw != "" {
      assert chunks[0] == Run(raw, 0) && |chunks| == 1;
      assert DraftUpTo(chunks, 0, classes) == BLANK_DRAFT;
      assert "" + "" + Normalize(Trim(raw)) == Normalize(Trim(raw));
    }
  }

  lemma {:induction false} NoTagsOneRun(raw: string, ends: seq<Option<nat>>, i: nat)
    requires Fits(raw, ends) && i <= |raw| && forall p: nat :: p < |raw| ==> ends[p].None?
    ensures ChunksFrom(raw, ends, 0, i, 0) == RunOf(raw, 0, |raw|, 0)
    decreases |raw| - i
  {
    var at := IndexFrom(raw, i, '<');
    if at < |raw| {
      NoTagsOneRun(raw, ends, at + 1);
    }
  }
}
