/**
 The tag grammar as text: what the scanner of titles takes for a tag, and what a
 title with tags reads as.
 */
module TagGrammar {
  import opened Wrappers
  import opened Strings
  import opened Whitespace
  import opened Markup

  // ---- The grammar, as text ----

  predicate Letter(c: char) {
    'a' <= c <= 'z' || 'A' <= c <= 'Z'
  }

  predicate NameLetter(c: char) {
    Letter(c) || '0' <= c <= '9' || c == ':' || c == '.' || c == '_' || c == '-'
  }

  predicate AllSpace(s: string) {
    forall i :: 0 <= i < |s| ==> s[i] == ' ' || s[i] == '\t' || s[i] == '\n' || s[i] == '\r' || s[i] == '\U{000C}'
  }

  predicate AllName(s: string) {
    forall i :: 0 <= i < |s| ==> NameLetter(s[i])
  }

  /** A name, an equals sign and a quoted value, with white space before and
      around the sign. */
  datatype Attribute = Attribute(before: string, key: string, left: string, right: string, quote: char, value: string)

  predicate ValidAttribute(a: Attribute) {
    && AllSpace(a.before) && AllSpace(a.left) && AllSpace(a.right)
    && a.key != "" && (Letter(a.key[0]) || a.key[0] == '_') && AllName(a.key)
    && (a.quote == '"' || a.quote == '\'')
    && forall i :: 0 <= i < |a.value| ==> a.value[i] != a.quote && a.value[i] != '<'
  }

  function Quoted(a: Attribute): string {
    [a.quote] + (a.value + [a.quote])
  }

  function Core(a: Attribute): string {
    a.key + (a.left + ("=" + (a.right + Quoted(a))))
  }

  datatype TagParts = TagParts(closing: bool, name: string, attributes: seq<Attribute>, space: string, empty: bool)

  predicate AllValid(attributes: seq<Attribute>) {
    forall i :: 0 <= i < |attributes| ==> ValidAttribute(attributes[i])
  }

  predicate ValidTag(t: TagParts) {
    && t.name != "" && Letter(t.name[0]) && AllName(t.name) && AllSpace(t.space)
    && AllValid(t.attributes)
    && (t.attributes != [] ==> t.attributes[0].before != "")
    && (t.closing ==> t.attributes == [] && !t.empty)
  }

  /** What stands behind the name. */
  function Tail(t: TagParts): string {
    Listed(t.attributes, t.space + Last(t))
  }

  function Listed(attributes: seq<Attribute>, last: string): string {
    if attributes == [] then last
    else attributes[0].before + (Core(attributes[0]) + Listed(attributes[1..], last))
  }

  function Last(t: TagParts): string {
    if t.empty then "/>" else ">"
  }

  function WrittenTag(t: TagParts): string {
    (if t.closing then "</" else "<") + (t.name + Tail(t))
  }

  predicate Occurs(pattern: string, s: string) {
    exists k: nat :: k + |pattern| <= |s| && s[k..][..|pattern|] == pattern
  }

  const LISTED := {
    "b", "bold", "br", "em", "i", "inline-formula", "italic", "math", "monospace", "sc", "scp",
    "small", "span", "strong", "sub", "sup", "tex-math", "tt", "u", "underline" }

  /** What makes a tag markup rather than a comparison: closing, empty, a listed name in
      any case, a namespaced one, or one that is closed in the rest of the title. */
  predicate Meant(t: TagParts, rest: string) {
    || t.closing || t.empty || ':' in t.name || Occurs("</" + t.name, rest)
    || exists name :: name in LISTED && SameLetters(t.name, name)
  }

  predicate CharAt(s: string, i: int, w: string, k: int)
    requires 0 <= i <= k < |s| && k - i < |w|
  {
    s[k] == w[k - i]
  }

  /** `w` stands in `s` at `i`. */
  predicate At(s: string, i: nat, w: string) {
    i + |w| <= |s| && forall k {:trigger CharAt(s, i, w, k)} :: i <= k < i + |w| ==> CharAt(s, i, w, k)
  }

  lemma AtParts(s: string, i: nat, a: string, b: string)
    ensures At(s, i, a + b) <==> At(s, i, a) && At(s, i + |a|, b)
  {
    var w, m := a + b, i + |a|;
    if At(s, i, w) {
      forall k | i <= k < m ensures CharAt(s, i, a, k) {
        assert CharAt(s, i, w, k);
      }
      forall k | m <= k < m + |b| ensures CharAt(s, m, b, k) {
        assert CharAt(s, i, w, k);
      }
    }
    if At(s, i, a) && At(s, m, b) {
      forall k | i <= k < i + |w| ensures CharAt(s, i, w, k) {
        assert if k < m then CharAt(s, i, a, k) else CharAt(s, m, b, k);
      }
    }
  }

  lemma AtFirst(s: string, i: nat, w: string)
    requires At(s, i, w) && w != ""
    ensures i < |s| && s[i] == w[0]
  {
    assert CharAt(s, i, w, i);
  }

  lemma AtIsSlice(s: string, i: nat, w: string)
    requires At(s, i, w)
    ensures s[i..i + |w|] == w
  {
    var slice := s[i..i + |w|];
    forall j | 0 <= j < |w| ensures slice[j] == w[j] {
      assert CharAt(s, i, w, i + j);
    }
  }

  lemma AtSlice(s: string, i: nat, k: nat)
    requires i <= k <= |s|
    ensures At(s, i, s[i..k])
  {
    var w := s[i..k];
    assert forall j :: i <= j < k ==> w[j - i] == s[j];
  }

  lemma {:induction false} NameEndIs(s: string, i: nat, w: string)
    requires At(s, i, w) && AllName(w) && (i + |w| < |s| ==> !NameLetter(s[i + |w|]))
    ensures NameEnd(s, i) == i + |w|
    decreases |w|
  {
    if w != "" {
      var head, rest := w[..1], w[1..];
      assert w == head + rest;
      AtParts(s, i, head, rest);
      AtFirst(s, i, w);
      NameEndIs(s, i + 1, rest);
    }
  }

  lemma {:induction false} SpaceEndIs(s: string, i: nat, w: string)
    requires At(s, i, w) && AllSpace(w) && (i + |w| < |s| ==> !IsAsciiSpace(s[i + |w|]))
    ensures SpaceEnd(s, i) == i + |w|
    decreases |w|
  {
    if w != "" {
      var head, rest := w[..1], w[1..];
      assert w == head + rest;
      AtParts(s, i, head, rest);
      AtFirst(s, i, w);
      SpaceEndIs(s, i + 1, rest);
    }
  }

  lemma {:induction false} IndexFromIs(s: string, i: nat, k: nat, c: char)
    requires i <= k <= |s| && (k < |s| ==> s[k] == c) && forall j :: i <= j < k ==> s[j] != c
    ensures IndexFrom(s, i, c) == k
    decreases k - i
  {
    if i < k {
      IndexFromIs(s, i + 1, k, c);
    }
  }

  lemma {:induction false} NameEndChars(s: string, i: nat)
    requires i <= |s|
    ensures AllName(s[i..NameEnd(s, i)]) && (NameEnd(s, i) < |s| ==> !NameLetter(s[NameEnd(s, i)]))
    decreases |s| - i
  {
    if i < |s| && IsNameChar(s[i]) {
      NameEndChars(s, i + 1);
      var k := NameEnd(s, i);
      assert s[i..k] == [s[i]] + s[i + 1..k];
    }
  }

  lemma {:induction false} SpaceEndChars(s: string, i: nat)
    requires i <= |s|
    ensures AllSpace(s[i..SpaceEnd(s, i)])
    decreases |s| - i
  {
    if i < |s| && IsAsciiSpace(s[i]) {
      SpaceEndChars(s, i + 1);
      var k := SpaceEnd(s, i);
      assert s[i..k] == [s[i]] + s[i + 1..k];
    }
  }

  // ---- What is written is scanned ----

  lemma ValueEndIs(s: string, i: nat, a: Attribute)
    requires ValidAttribute(a) && At(s, i, Quoted(a))
    ensures var k := i + 1 + |a.value|;
            k < |s| && s[i] == a.quote && IndexFrom(s, i + 1, a.quote) == k && NoAngle(s, i + 1, k)
  {
    var from := i + 1;
    var k := from + |a.value|;
    AtParts(s, i, [a.quote], a.value + [a.quote]);
    AtParts(s, from, a.value, [a.quote]);
    AtFirst(s, i, [a.quote]);
    AtFirst(s, k, [a.quote]);
    forall j | from <= j < k ensures s[j] != a.quote && s[j] != '<' {
      assert CharAt(s, from, a.value, j);
    }
    IndexFromIs(s, from, k, a.quote);
  }

  lemma CoreParts(s: string, i: nat, a: Attribute)
    requires At(s, i, Core(a))
    ensures var l := i + |a.key|;
            var e := l + |a.left|;
            var q := e + 1 + |a.right|;
            && At(s, i, a.key) && At(s, l, a.left) && e < |s| && s[e] == '=' && At(s, e + 1, a.right)
            && At(s, q, Quoted(a)) && q + |Quoted(a)| == i + |Core(a)|
  {
    var e := i + |a.key| + |a.left|;
    AtParts(s, i, a.key, a.left + ("=" + (a.right + Quoted(a))));
    AtParts(s, i + |a.key|, a.left, "=" + (a.right + Quoted(a)));
    AtParts(s, e, "=", a.right + Quoted(a));
    AtParts(s, e + 1, a.right, Quoted(a));
    AtFirst(s, e, "=");
  }

  lemma SpaceOrNot(s: string, i: nat, w: string, k: nat)
    requires At(s, i, w) && AllSpace(w) && k == i + |w| < |s|
    ensures i < |s| && s[i] == if w == "" then s[k] else w[0]
    ensures w != "" ==> IsAsciiSpace(s[i]) && !NameLetter(s[i])
  {
    if w != "" {
      AtFirst(s, i, w);
    }
  }

  lemma AttributeEndAt(s: string, i: nat, l: nat, e: nat, q: nat, k: nat)
    requires i < l <= e < q < k < |s| && IsNameChar(s[i])
    requires NameEnd(s, i) == l && SpaceEnd(s, l) == e && s[e] == '=' && SpaceEnd(s, e + 1) == q
    requires (s[q] == '"' || s[q] == '\'') && IndexFrom(s, q + 1, s[q]) == k && NoAngle(s, q + 1, k)
    ensures AttributeEnd(s, i) == Some(k + 1)
  {
  }

  lemma KeyEndIs(s: string, i: nat, a: Attribute, l: nat, e: nat)
    requires ValidAttribute(a) && At(s, i, a.key) && l == i + |a.key| && At(s, l, a.left) && e == l + |a.left| < |s|
    requires s[e] == '='
    ensures i < l && s[i] == a.key[0] && IsNameChar(s[i]) && NameEnd(s, i) == l && SpaceEnd(s, l) == e
  {
    AtFirst(s, i, a.key);
    SpaceOrNot(s, l, a.left, e);
    NameEndIs(s, i, a.key);
    SpaceEndIs(s, l, a.left);
  }

  lemma AttributeEndIs(s: string, i: nat, a: Attribute)
    requires ValidAttribute(a) && At(s, i, Core(a))
    ensures i < |s| && s[i] == a.key[0] && IsNameChar(s[i]) && AttributeEnd(s, i) == Some(i + |Core(a)|)
  {
    CoreParts(s, i, a);
    var l := i + |a.key|;
    var e := l + |a.left|;
    var q := e + 1 + |a.right|;
    ValueEndIs(s, q, a);
    KeyEndIs(s, i, a, l, e);
    SpaceEndIs(s, e + 1, a.right);
    AttributeEndAt(s, i, l, e, q, q + 1 + |a.value|);
  }

  lemma LastCloseIs(s: string, i: nat, t: TagParts)
    requires AllSpace(t.space) && (t.closing ==> !t.empty) && At(s, i, t.space + Last(t))
    ensures i <= |s| && TagClose(s, i, t.closing) == Some(Close(i + |t.space + Last(t)|, t.empty))
  {
    var j := i + |t.space|;
    AtParts(s, i, t.space, Last(t));
    AtFirst(s, j, Last(t));
    if t.empty {
      assert "/>" == "/" + ">";
      AtParts(s, j, "/", ">");
      AtFirst(s, j + 1, ">");
    }
    SpaceEndIs(s, i, t.space);
  }

  /** A tag goes on behind an attribute. */
  lemma TagCloseGoesOn(s: string, i: nat, j: nat, end: nat)
    requires i <= j < end <= |s| && SpaceEnd(s, i) == j && (IsAlpha(s[j]) || s[j] == '_')
    requires AttributeEnd(s, j) == Some(end)
    ensures TagClose(s, i, false) == TagClose(s, end, false)
  {
  }

  lemma AttributeNext(s: string, i: nat, j: nat, a: Attribute, tail: string)
    requires ValidAttribute(a) && At(s, i, a.before + (Core(a) + tail)) && j == i + |a.before|
    ensures j < j + |Core(a)| <= |s| && At(s, j + |Core(a)|, tail)
    ensures TagClose(s, i, false) == TagClose(s, j + |Core(a)|, false)
  {
    AtParts(s, i, a.before, Core(a) + tail);
    AtParts(s, j, Core(a), tail);
    AttributeEndIs(s, j, a);
    SpaceEndIs(s, i, a.before);
    TagCloseGoesOn(s, i, j, j + |Core(a)|);
  }

  lemma FirstValid(attributes: seq<Attribute>, a: Attribute, rest: seq<Attribute>)
    requires attributes == [a] + rest
    ensures attributes[1..] == rest && attributes[0] == a
    ensures AllValid(attributes) <==> ValidAttribute(a) && AllValid(rest)
  {
    assert attributes[1..] == rest;
    assert forall i :: 0 <= i < |rest| ==> attributes[i + 1] == rest[i];
  }

  lemma {:induction false} AttributesAreSkipped(s: string, i: nat, attributes: seq<Attribute>, last: string)
    returns (j: nat)
    requires AllValid(attributes) && At(s, i, Listed(attributes, last))
    ensures j + |last| == i + |Listed(attributes, last)| && j <= |s|
    ensures At(s, j, last) && TagClose(s, i, false) == TagClose(s, j, false)
    decreases |attributes|
  {
    if attributes == [] {
      j := i;
    } else {
      var a, rest := attributes[0], attributes[1..];
      var k := i + |a.before|;
      FirstValid(attributes, a, rest);
      AttributeNext(s, i, k, a, Listed(rest, last));
      j := AttributesAreSkipped(s, k + |Core(a)|, rest, last);
    }
  }

  lemma TagCloseIs(s: string, i: nat, t: TagParts)
    requires ValidTag(t) && At(s, i, Tail(t))
    ensures i <= |s| && TagClose(s, i, t.closing) == Some(Close(i + |Tail(t)|, t.empty))
  {
    var j := i;
    if !t.closing {
      j := AttributesAreSkipped(s, i, t.attributes, t.space + Last(t));
    }
    LastCloseIs(s, j, t);
  }

  lemma OccursFromIff(s: string, end: nat, pattern: string)
    requires end <= |s|
    ensures OccursFrom(s, end, pattern) <==> Occurs(pattern, s[end..])
  {
    if k: nat :| end <= k <= |s| && StartsWith(s[k..], pattern) {
      assert s[end..][k - end..] == s[k..];
    }
    if k: nat :| k + |pattern| <= |s[end..]| && s[end..][k..][..|pattern|] == pattern {
      assert s[end..][k..] == s[end + k..];
      assert StartsWith(s[end + k..], pattern);
    }
  }

  predicate NoCapital(s: string) {
    forall i :: 0 <= i < |s| ==> !IsUpper(s[i])
  }

  lemma ListedIsSmall(name: string)
    requires name in LISTED
    ensures NoCapital(name)
  {
    assert NoCapital("inline-formula") && NoCapital("monospace") && NoCapital("underline") && NoCapital("tex-math");
    assert NoCapital("italic") && NoCapital("strong") && NoCapital("small") && NoCapital("bold") && NoCapital("math");
    assert NoCapital("span") && NoCapital("scp") && NoCapital("sub") && NoCapital("sup") && NoCapital("br");
  }

  lemma LoweredSmall(s: string)
    requires NoCapital(s)
    ensures Lowered(s) == s
  {
  }

  lemma ListedIff(name: string)
    ensures Lowered(name) in LISTED <==> exists listed :: listed in LISTED && SameLetters(name, listed)
  {
    if Lowered(name) in LISTED {
      var listed := Lowered(name);
      ListedIsSmall(listed);
      LoweredSmall(listed);
      LoweredIff(name, listed);
    }
    if listed :| listed in LISTED && SameLetters(name, listed) {
      ListedIsSmall(listed);
      LoweredSmall(listed);
      LoweredIff(name, listed);
    }
  }

  lemma PlausibleIff(s: string, t: TagParts, close: Close)
    requires close.end <= |s| && close.selfClosing == t.empty
    ensures Plausible(s, t.name, t.closing, close) <==> Meant(t, s[close.end..])
  {
    OccursFromIff(s, close.end, "</" + t.name);
    ListedIff(t.name);
  }

  lemma NameStops(s: string, i: nat, t: TagParts)
    requires ValidTag(t) && At(s, i, Tail(t))
    ensures i < |s| && !NameLetter(s[i])
  {
    AtFirst(s, i, Tail(t));
    if t.attributes != [] {
      var before := t.attributes[0].before;
      assert ValidAttribute(t.attributes[0]) && Tail(t)[0] == before[0] && IsAsciiSpace(before[0]);
    } else {
      assert Tail(t)[0] == if t.space != "" then t.space[0] else Last(t)[0];
    }
  }

  /** Where a tag's name begins. */
  function NameStart(at: nat, closing: bool): nat {
    if closing then at + 2 else at + 1
  }

  lemma OpensWith(s: string, at: nat, t: TagParts)
    requires ValidTag(t) && At(s, at, WrittenTag(t))
    ensures var start := NameStart(at, t.closing);
            && start < |s| && s[at] == '<' && (t.closing <==> s[at + 1] == '/') && s[start] == t.name[0]
            && At(s, start, t.name) && At(s, start + |t.name|, Tail(t))
  {
    var open, start := if t.closing then "</" else "<", NameStart(at, t.closing);
    AtParts(s, at, open, t.name + Tail(t));
    AtParts(s, start, t.name, Tail(t));
    AtFirst(s, at, open);
    AtFirst(s, start, t.name);
    if t.closing {
      assert "</" == "<" + "/";
      AtParts(s, at, "<", "/");
      AtFirst(s, at + 1, "/");
    }
  }

  lemma TagEndAt(s: string, at: nat, closing: bool, name: string, stop: nat, close: Close)
    requires at < |s| && s[at] == '<' && (closing <==> at + 1 < |s| && s[at + 1] == '/')
    requires var start := NameStart(at, closing);
             && start < |s| && IsAlpha(s[start]) && stop == NameEnd(s, start) && s[start..stop] == name
             && TagClose(s, stop, closing) == Some(close)
    ensures TagEnd(s, at) == if Plausible(s, name, closing, close) then Some(close.end) else None
  {
  }

  lemma NameAndTailAreFound(s: string, start: nat, stop: nat, t: TagParts)
    requires ValidTag(t) && At(s, start, t.name) && stop == start + |t.name| && At(s, stop, Tail(t))
    ensures stop + |Tail(t)| <= |s| && NameEnd(s, start) == stop && s[start..stop] == t.name
    ensures TagClose(s, stop, t.closing) == Some(Close(stop + |Tail(t)|, t.empty))
  {
    NameStops(s, stop, t);
    NameEndIs(s, start, t.name);
    TagCloseIs(s, stop, t);
    AtIsSlice(s, start, t.name);
  }

  lemma LengthOfTag(at: nat, t: TagParts)
    ensures at + |WrittenTag(t)| == NameStart(at, t.closing) + |t.name| + |Tail(t)|
  {
  }

  /** A tag from `at` to `end`, its name from `start` to `stop`. */
  ghost predicate Scanned(s: string, at: nat, start: nat, stop: nat, end: nat, t: TagParts) {
    && at < start < stop <= end <= |s| && s[at] == '<' && start == NameStart(at, t.closing)
    && (t.closing <==> s[at + 1] == '/')
    && IsAlpha(s[start]) && NameEnd(s, start) == stop && s[start..stop] == t.name
    && TagClose(s, stop, t.closing) == Some(Close(end, t.empty))
  }

  lemma WrittenIsScanned(s: string, at: nat, t: TagParts, start: nat, stop: nat, end: nat)
    requires ValidTag(t) && At(s, at, WrittenTag(t))
    requires start == NameStart(at, t.closing) && stop == start + |t.name| && end == stop + |Tail(t)|
    ensures Scanned(s, at, start, stop, end, t)
  {
    OpensWith(s, at, t);
    NameAndTailAreFound(s, start, stop, t);
  }

  lemma ScannedIsFound(s: string, at: nat, t: TagParts, start: nat, stop: nat, end: nat)
    requires Scanned(s, at, start, stop, end, t)
    ensures TagEnd(s, at) == if Meant(t, s[end..]) then Some(end) else None
  {
    PlausibleIff(s, t, Close(end, t.empty));
    TagEndAt(s, at, t.closing, t.name, stop, Close(end, t.empty));
  }

  /** A tag that is written at some place is found there if it is meant as one, and
      nothing is found there otherwise. */
  lemma WrittenTagIsFound(s: string, at: nat, t: TagParts, end: nat)
    requires ValidTag(t) && At(s, at, WrittenTag(t)) && end == at + |WrittenTag(t)|
    ensures at < |s| && s[at] == '<' && end <= |s|
    ensures TagEnd(s, at) == if Meant(t, s[end..]) then Some(end) else None
  {
    var start := NameStart(at, t.closing);
    var stop := start + |t.name|;
    LengthOfTag(at, t);
    WrittenIsScanned(s, at, t, start, stop, end);
    ScannedIsFound(s, at, t, start, stop, end);
  }

  // ---- What is scanned is written ----

  lemma QuotedIsWritten(s: string, q: nat, k: nat)
    requires q < k < |s| && s[q] == s[k]
    ensures At(s, q, [s[q]] + (s[q + 1..k] + [s[q]]))
  {
    AtSlice(s, q + 1, k);
    assert CharAt(s, k, [s[q]], k) && CharAt(s, q, [s[q]], q);
    AtParts(s, q + 1, s[q + 1..k], [s[q]]);
    AtParts(s, q, [s[q]], s[q + 1..k] + [s[q]]);
  }

  lemma CoreIsWritten(s: string, i: nat, l: nat, e: nat, q: nat, k: nat, a: Attribute)
    requires i <= l <= e < q < k < |s| && s[e] == '=' && s[q] == s[k]
    requires a == Attribute(a.before, s[i..l], s[l..e], s[e + 1..q], s[q], s[q + 1..k])
    ensures At(s, i, Core(a)) && i + |Core(a)| == k + 1
  {
    QuotedIsWritten(s, q, k);
    AtSlice(s, e + 1, q);
    AtParts(s, e + 1, a.right, Quoted(a));
    assert CharAt(s, e, "=", e);
    AtParts(s, e, "=", a.right + Quoted(a));
    AtSlice(s, l, e);
    AtParts(s, l, a.left, "=" + (a.right + Quoted(a)));
    AtSlice(s, i, l);
    AtParts(s, i, a.key, a.left + ("=" + (a.right + Quoted(a))));
  }

  lemma AttributeIsWritten(s: string, i: nat) returns (a: Attribute)
    requires i < |s| && (Letter(s[i]) || s[i] == '_') && AttributeEnd(s, i).Some?
    ensures ValidAttribute(a) && a.before == "" && At(s, i, Core(a)) && i + |Core(a)| == AttributeEnd(s, i).value
  {
    var l := NameEnd(s, i);
    var e := SpaceEnd(s, l);
    var q := SpaceEnd(s, e + 1);
    var k := IndexFrom(s, q + 1, s[q]);
    NameEndChars(s, i);
    SpaceEndChars(s, l);
    SpaceEndChars(s, e + 1);
    a := Attribute("", s[i..l], s[l..e], s[e + 1..q], s[q], s[q + 1..k]);
    assert a.key[0] == s[i];
    CoreIsWritten(s, i, l, e, q, k, a);
  }

  lemma MoreIsWritten(s: string, i: nat, j: nat, a: Attribute, core: string, tail: string)
    requires i <= j <= |s| && a.before == s[i..j] && At(s, j, core) && At(s, j + |core|, tail)
    ensures At(s, i, a.before + (core + tail)) && i + |a.before + (core + tail)| == j + |core| + |tail|
  {
    AtSlice(s, i, j);
    AtParts(s, j, core, tail);
    AtParts(s, i, a.before, core + tail);
  }

  lemma TagCloseCases(s: string, i: nat, closing: bool, j: nat, close: Close)
    requires i <= |s| && TagClose(s, i, closing) == Some(close) && j == SpaceEnd(s, i)
    ensures i <= j < |s| && i < close.end <= |s|
    ensures s[j] == '>' ==> close == Close(j + 1, false)
    ensures s[j] == '/' ==> !closing && j + 1 < |s| && s[j + 1] == '>' && close == Close(j + 2, true)
    ensures s[j] != '>' && s[j] != '/' ==>
              && !closing && (Letter(s[j]) || s[j] == '_') && AttributeEnd(s, j).Some?
              && j < AttributeEnd(s, j).value <= |s| && TagClose(s, AttributeEnd(s, j).value, closing) == Some(close)
  {
  }

  /** A tag that ends at `close` has these attributes from `i` on, and none from `j` on. */
  ghost predicate Lists(s: string, i: nat, closing: bool, attributes: seq<Attribute>, j: nat, close: Close) {
    && i <= j < close.end <= |s| && TagClose(s, j, closing) == Some(close)
    && SpaceEnd(s, j) < |s| && (s[SpaceEnd(s, j)] == '>' || s[SpaceEnd(s, j)] == '/')
    && AllValid(attributes) && (closing ==> attributes == [])
    && At(s, i, Listed(attributes, s[j..close.end])) && i + |Listed(attributes, s[j..close.end])| == close.end
    && (attributes != [] && !NameLetter(s[i]) ==> attributes[0].before != "")
  }

  lemma ListsNone(s: string, i: nat, closing: bool, close: Close)
    requires i < close.end <= |s| && TagClose(s, i, closing) == Some(close)
    requires SpaceEnd(s, i) < |s| && (s[SpaceEnd(s, i)] == '>' || s[SpaceEnd(s, i)] == '/')
    ensures Lists(s, i, closing, [], i, close)
  {
    AtSlice(s, i, close.end);
  }

  lemma ListsMore(s: string, i: nat, k: nat, a: Attribute, rest: seq<Attribute>, j: nat, close: Close)
    returns (attributes: seq<Attribute>)
    requires i <= k < |s| && NameLetter(s[k]) && AllSpace(s[i..k]) && ValidAttribute(a) && At(s, k, Core(a))
    requires Lists(s, k + |Core(a)|, false, rest, j, close)
    ensures Lists(s, i, false, attributes, j, close)
  {
    var first, last := a.(before := s[i..k]), s[j..close.end];
    assert ValidAttribute(first) && Core(first) == Core(a);
    MoreIsWritten(s, i, k, first, Core(first), Listed(rest, last));
    attributes := [first] + rest;
    FirstValid(attributes, first, rest);
  }

  /** The attributes between `i` and the white space that ends the tag. */
  lemma {:induction false} AttributesAreWritten(s: string, i: nat, closing: bool, close: Close)
    returns (attributes: seq<Attribute>, j: nat)
    requires i <= |s| && TagClose(s, i, closing) == Some(close)
    ensures Lists(s, i, closing, attributes, j, close)
    decreases |s| - i
  {
    var k := SpaceEnd(s, i);
    TagCloseCases(s, i, closing, k, close);
    if s[k] == '>' || s[k] == '/' {
      ListsNone(s, i, closing, close);
      return [], i;
    }
    var a := AttributeIsWritten(s, k);
    var rest: seq<Attribute>;
    rest, j := AttributesAreWritten(s, k + |Core(a)|, closing, close);
    SpaceEndChars(s, i);
    attributes := ListsMore(s, i, k, a, rest, j, close);
  }

  lemma LastIsWritten(s: string, j: nat, k: nat, close: Close)
    requires j <= k < |s| && (s[k] == '>' ==> close == Close(k + 1, false))
    requires s[k] == '>' || (s[k] == '/' && k + 1 < |s| && s[k + 1] == '>' && close == Close(k + 2, true))
    ensures s[j..close.end] == s[j..k] + if close.selfClosing then "/>" else ">"
  {
    assert s[k..close.end] == if close.selfClosing then "/>" else ">";
    assert s[j..close.end] == s[j..k] + s[k..close.end];
  }

  lemma TagCloseIsWritten(s: string, i: nat, closing: bool, name: string) returns (t: TagParts)
    requires i <= |s| && TagClose(s, i, closing).Some? && (i < |s| ==> !NameLetter(s[i]))
    requires name != "" && Letter(name[0]) && AllName(name)
    ensures t.closing == closing && t.name == name && t.empty == TagClose(s, i, closing).value.selfClosing
    ensures ValidTag(t) && At(s, i, Tail(t)) && i + |Tail(t)| == TagClose(s, i, closing).value.end
  {
    var close := TagClose(s, i, closing).value;
    var attributes, j := AttributesAreWritten(s, i, closing, close);
    var k := SpaceEnd(s, j);
    TagCloseCases(s, j, closing, k, close);
    SpaceEndChars(s, j);
    LastIsWritten(s, j, k, close);
    t := TagParts(closing, name, attributes, s[j..k], close.selfClosing);
  }

  lemma FoundTagParts(s: string, at: nat, closing: bool, stop: nat)
    requires at < |s| && s[at] == '<' && TagEnd(s, at).Some? && (closing <==> at + 1 < |s| && s[at + 1] == '/')
    requires NameStart(at, closing) <= |s| && stop == NameEnd(s, NameStart(at, closing))
    ensures var start := NameStart(at, closing);
            && start < stop && IsAlpha(s[start]) && stop < |s| && TagClose(s, stop, closing).Some?
            && TagClose(s, stop, closing).value.end == TagEnd(s, at).value
            && Plausible(s, s[start..stop], closing, TagClose(s, stop, closing).value)
  {
    assert IsNameChar(s[NameStart(at, closing)]);
  }

  lemma OpeningIsWritten(s: string, at: nat, closing: bool, stop: nat, tail: string)
    requires at < |s| && s[at] == '<' && (closing ==> at + 1 < |s| && s[at + 1] == '/')
    requires NameStart(at, closing) <= stop <= |s| && At(s, stop, tail)
    ensures var whole := (if closing then "</" else "<") + (s[NameStart(at, closing)..stop] + tail);
            At(s, at, whole) && at + |whole| == stop + |tail|
  {
    var start, open := NameStart(at, closing), if closing then "</" else "<";
    AtSlice(s, start, stop);
    AtParts(s, start, s[start..stop], tail);
    AtSlice(s, at, start);
    assert s[at..start] == open;
    AtParts(s, at, open, s[start..stop] + tail);
  }

  /** Where the scanner finds a tag, one is written that is meant as such. */
  lemma FoundTagIsWritten(s: string, at: nat) returns (t: TagParts)
    requires at < |s| && s[at] == '<' && TagEnd(s, at).Some?
    ensures var end := TagEnd(s, at).value;
            ValidTag(t) && At(s, at, WrittenTag(t)) && at + |WrittenTag(t)| == end && Meant(t, s[end..])
  {
    var closing := at + 1 < |s| && s[at + 1] == '/';
    var start := NameStart(at, closing);
    var stop := NameEnd(s, start);
    FoundTagParts(s, at, closing, stop);
    NameEndChars(s, start);
    t := TagCloseIsWritten(s, stop, closing, s[start..stop]);
    PlausibleIff(s, t, TagClose(s, stop, closing).value);
    OpeningIsWritten(s, at, closing, stop, Tail(t));
    assert t.name[0] == s[start];
  }

  /** A tag that counts as one is written at the front. */
  ghost predicate MarkAhead(s: string, end: nat) {
    end <= |s| && exists t :: ValidTag(t) && s[..end] == WrittenTag(t) && Meant(t, s[end..])
  }

  lemma AheadSlices(s: string, at: nat, end: nat)
    requires at <= end <= |s|
    ensures s[at..][..end - at] == s[at..end] && s[at..][end - at..] == s[end..]
  {
  }

  lemma FoundIsAhead(s: string, at: nat, end: nat)
    requires at < |s| && s[at] == '<' && TagEnd(s, at) == Some(end)
    ensures MarkAhead(s[at..], end - at)
  {
    var t := FoundTagIsWritten(s, at);
    AtIsSlice(s, at, WrittenTag(t));
    AheadSlices(s, at, end);
  }

  lemma AheadIsFound(s: string, at: nat, length: nat)
    requires at < |s| && MarkAhead(s[at..], length)
    ensures s[at] == '<' && TagEnd(s, at) == Some(at + length)
  {
    var end := at + length;
    AheadSlices(s, at, end);
    var t :| ValidTag(t) && s[at..end] == WrittenTag(t) && Meant(t, s[end..]);
    MarkIsFound(s, at, end, t);
  }

  lemma MarkIsFound(s: string, at: nat, end: nat, t: TagParts)
    requires at <= end <= |s| && ValidTag(t) && s[at..end] == WrittenTag(t) && Meant(t, s[end..])
    ensures at < |s| && s[at] == '<' && TagEnd(s, at) == Some(end)
  {
    AtSlice(s, at, end);
    WrittenTagIsFound(s, at, t, end);
  }

  /** The scanner finds a tag, and that end of it, exactly where one is written. */
  lemma TagEndIff(s: string, at: nat, length: nat)
    requires at < |s| && s[at] == '<'
    ensures TagEnd(s, at) == Some(at + length) <==> MarkAhead(s[at..], length)
  {
    if TagEnd(s, at) == Some(at + length) {
      FoundIsAhead(s, at, at + length);
    }
    if MarkAhead(s[at..], length) {
      AheadIsFound(s, at, length);
    }
  }

  // ---- Titles, piece by piece ----

  /** Text without an angle bracket, a bracket that opens no tag, and a tag. */
  datatype Piece = Plain(text: string) | Stray | Mark(tag: TagParts)

  function PieceText(p: Piece): string {
    match p
    case Plain(text) => text
    case Stray => "<"
    case Mark(tag) => WrittenTag(tag)
  }

  function Written(ps: seq<Piece>): string {
    if ps == [] then "" else PieceText(ps[0]) + Written(ps[1..])
  }

  ghost predicate Fitting(p: Piece, rest: string) {
    match p
    case Plain(text) => '<' !in text
    case Stray => forall end :: !MarkAhead("<" + rest, end)
    case Mark(tag) => ValidTag(tag) && Meant(tag, rest)
  }

  ghost predicate Parsed(ps: seq<Piece>) {
    ps == [] || (Fitting(ps[0], Written(ps[1..])) && Parsed(ps[1..]))
  }

  /** How many elements are open behind a tag. */
  function Nested(tag: TagParts, depth: nat): nat {
    if tag.closing then (if depth == 0 then 0 else depth - 1)
    else if tag.empty then depth else depth + 1
  }

  function RunIf(text: string, depth: nat): seq<Chunk> {
    if text == "" then [] else [Run(text, depth)]
  }

  /** Tags and the text between them, with the text not yet in a run. */
  function Split(ps: seq<Piece>, pending: string, depth: nat): seq<Chunk> {
    if ps == [] then RunIf(pending, depth)
    else match ps[0]
         case Plain(text) => Split(ps[1..], pending + text, depth)
         case Stray => Split(ps[1..], pending + "<", depth)
         case Mark(tag) =>
           RunIf(pending, depth) + [Tag(WrittenTag(tag))] + Split(ps[1..], "", Nested(tag, depth))
  }

  /** What is left when the tags are taken out. */
  function Visible(ps: seq<Piece>): string {
    if ps == [] then "" else (if ps[0].Mark? then "" else PieceText(ps[0])) + Visible(ps[1..])
  }

  /** The end of a tag tells whether it is empty. */
  predicate EndsEmpty(s: string) {
    |s| >= 2 && s[|s| - 2..] == "/>"
  }

  lemma CoreEnds(a: Attribute)
    ensures Core(a) != "" && Core(a)[|Core(a)| - 1] == a.quote
  {
    var s, k := Core(a), |a.key + a.left| + 1 + |a.right|;
    assert s[k..] == Quoted(a);
    assert s[k..][|Quoted(a)| - 1] == s[|s| - 1];
  }

  predicate Solid(before: string) {
    before != "" && before[|before| - 1] != '/'
  }

  lemma LastEnds(before: string, t: TagParts)
    requires AllSpace(t.space) && Solid(before)
    ensures EndsEmpty(before + (t.space + Last(t))) <==> t.empty
  {
    var front := before + t.space;
    assert Solid(front);
    assert before + (t.space + Last(t)) == front + Last(t);
    var s := front + Last(t);
    assert s[|s| - 2] == if t.empty then '/' else front[|front| - 1];
    if t.empty {
      assert s[|s| - 2..] == "/>";
    } else {
      assert s[|s| - 2..][0] != '/';
    }
  }

  lemma {:induction false} ListedEnds(before: string, attributes: seq<Attribute>, last: string) returns (front: string)
    requires AllValid(attributes) && Solid(before)
    ensures Solid(front) && before + Listed(attributes, last) == front + last
    decreases |attributes|
  {
    if attributes == [] {
      front := before;
    } else {
      var a, rest := attributes[0], Listed(attributes[1..], last);
      CoreEnds(a);
      front := ListedEnds(before + a.before + Core(a), attributes[1..], last);
      assert before + (a.before + (Core(a) + rest)) == before + a.before + Core(a) + rest;
    }
  }

  lemma NameIsSolid(t: TagParts)
    requires ValidTag(t)
    ensures Solid((if t.closing then "</" else "<") + t.name)
  {
    assert NameLetter(t.name[|t.name| - 1]);
  }

  lemma OpensClosing(t: TagParts)
    requires ValidTag(t)
    ensures StartsWith(WrittenTag(t), "</") <==> t.closing
  {
    var s := WrittenTag(t);
    if t.closing {
      assert s[..2] == "</";
    } else {
      assert s[1] == t.name[0];
      assert s[..2][1] == s[1];
    }
  }

  lemma TagEndsEmpty(t: TagParts)
    requires ValidTag(t)
    ensures EndsEmpty(WrittenTag(t)) <==> t.empty
  {
    var open, last := if t.closing then "</" else "<", t.space + Last(t);
    NameIsSolid(t);
    var front := ListedEnds(open + t.name, t.attributes, last);
    LastEnds(front, t);
    assert WrittenTag(t) == open + t.name + Listed(t.attributes, last);
  }

  lemma NestedIsDepthAfter(t: TagParts, depth: nat)
    requires ValidTag(t)
    ensures DepthAfter(WrittenTag(t), depth) == Nested(t, depth)
  {
    OpensClosing(t);
    TagEndsEmpty(t);
  }

  lemma {:induction false} SkipsTo(raw: string, i: nat, k: nat)
    requires i <= k <= |raw| && NoAngle(raw, i, k)
    ensures IndexFrom(raw, i, '<') == IndexFrom(raw, k, '<')
    decreases k - i
  {
    if i < k {
      SkipsTo(raw, i + 1, k);
    }
  }

  /** From `i` on the title is these pieces. */
  ghost predicate ReadFrom(raw: string, i: nat, ps: seq<Piece>) {
    i <= |raw| && raw[i..] == Written(ps) && Parsed(ps)
  }

  lemma NextPiece(raw: string, i: nat, ps: seq<Piece>)
    requires ReadFrom(raw, i, ps) && ps != []
    ensures var end := i + |PieceText(ps[0])|;
            ReadFrom(raw, end, ps[1..]) && raw[i..end] == PieceText(ps[0]) && Fitting(ps[0], raw[end..])
  {
    var text, rest := PieceText(ps[0]), Written(ps[1..]);
    assert |text + rest| == |raw| - i;
    AheadSlices(raw, i, i + |text|);
    assert (text + rest)[..|text|] == text && (text + rest)[|text|..] == rest;
  }

  lemma SameNext(raw: string, ends: seq<Option<nat>>, start: nat, i: nat, k: nat, depth: nat)
    requires Fits(raw, ends) && start <= i <= k <= |raw| && IndexFrom(raw, i, '<') == IndexFrom(raw, k, '<')
    ensures ChunksFrom(raw, ends, start, i, depth) == ChunksFrom(raw, ends, start, k, depth)
  {
  }

  /** Text without a tag in it joins the run. */
  lemma TextPending(raw: string, start: nat, i: nat, k: nat, depth: nat)
    requires start <= i <= k <= |raw| && NoAngle(raw, i, k)
    ensures ChunksFrom(raw, TagEnds(raw), start, i, depth) == ChunksFrom(raw, TagEnds(raw), start, k, depth)
    ensures raw[start..k] == raw[start..i] + raw[i..k]
  {
    SkipsTo(raw, i, k);
    SameNext(raw, TagEnds(raw), start, i, k, depth);
  }

  lemma PastStray(raw: string, ends: seq<Option<nat>>, start: nat, i: nat, depth: nat)
    requires Fits(raw, ends) && start <= i < |raw| && raw[i] == '<' && ends[i] == None
    ensures ChunksFrom(raw, ends, start, i, depth) == ChunksFrom(raw, ends, start, i + 1, depth)
  {
  }

  lemma StrayIsNoTag(raw: string, i: nat)
    requires i < |raw| && raw[i] == '<' && forall end :: !MarkAhead(raw[i..], end)
    ensures TagEnd(raw, i) == None
  {
    match TagEnd(raw, i) {
      case Some(end) => FoundIsAhead(raw, i, end);
      case None =>
    }
  }

  lemma StrayPending(raw: string, start: nat, i: nat, depth: nat)
    requires start <= i < |raw| && raw[i] == '<' && forall end :: !MarkAhead(raw[i..], end)
    ensures ChunksFrom(raw, TagEnds(raw), start, i, depth) == ChunksFrom(raw, TagEnds(raw), start, i + 1, depth)
    ensures raw[start..i + 1] == raw[start..i] + "<"
  {
    StrayIsNoTag(raw, i);
    assert TagEnds(raw)[i] == TagAt(raw, i);
    PastStray(raw, TagEnds(raw), start, i, depth);
  }

  lemma MarkEndsRun(raw: string, start: nat, i: nat, end: nat, t: TagParts, depth: nat)
    requires start <= i <= end <= |raw| && ValidTag(t) && raw[i..end] == WrittenTag(t) && Meant(t, raw[end..])
    ensures ChunksFrom(raw, TagEnds(raw), start, i, depth)
         == RunIf(raw[start..i], depth) + [Tag(WrittenTag(t))]
            + ChunksFrom(raw, TagEnds(raw), end, end, Nested(t, depth))
  {
    AtSlice(raw, i, end);
    WrittenTagIsFound(raw, i, t, end);
    NestedIsDepthAfter(t, depth);
    assert TagEnds(raw)[i] == Some(end);
  }

  ghost predicate Splits(raw: string, start: nat, i: nat, depth: nat, ps: seq<Piece>)
    requires start <= i <= |raw|
  {
    ChunksFrom(raw, TagEnds(raw), start, i, depth) == Split(ps, raw[start..i], depth)
  }

  /** One piece more, from `i` to `end`, in front of pieces that split as they should. */
  ghost predicate Ready(raw: string, start: nat, i: nat, end: nat, depth: nat, ps: seq<Piece>) {
    && start <= i <= end <= |raw| && ps != [] && Fitting(ps[0], raw[end..]) && raw[i..end] == PieceText(ps[0])
    && Splits(raw, NextStart(ps[0], start, end), end, NextDepth(ps[0], depth), ps[1..])
  }

  function NextStart(p: Piece, start: nat, end: nat): nat {
    if p.Mark? then end else start
  }

  function NextDepth(p: Piece, depth: nat): nat {
    if p.Mark? then Nested(p.tag, depth) else depth
  }

  lemma PlainNext(raw: string, start: nat, i: nat, end: nat, depth: nat, ps: seq<Piece>)
    requires Ready(raw, start, i, end, depth, ps) && ps[0].Plain?
    ensures Splits(raw, start, i, depth, ps)
  {
    assert forall j :: i <= j < end ==> raw[i..end][j - i] == raw[j];
    TextPending(raw, start, i, end, depth);
  }

  lemma StrayIsAhead(raw: string, i: nat)
    requires i < |raw| && raw[i..i + 1] == "<"
    ensures raw[i] == '<' && raw[i..] == "<" + raw[i + 1..]
  {
    assert raw[i..i + 1][0] == raw[i];
    assert raw[i..] == raw[i..i + 1] + raw[i + 1..];
  }

  lemma StrayNext(raw: string, start: nat, i: nat, end: nat, depth: nat, ps: seq<Piece>)
    requires Ready(raw, start, i, end, depth, ps) && ps[0].Stray?
    ensures Splits(raw, start, i, depth, ps)
  {
    assert end == i + 1;
    StrayIsAhead(raw, i);
    StrayPending(raw, start, i, depth);
  }

  lemma MarkNext(raw: string, start: nat, i: nat, end: nat, depth: nat, ps: seq<Piece>)
    requires Ready(raw, start, i, end, depth, ps) && ps[0].Mark?
    ensures Splits(raw, start, i, depth, ps)
  {
    MarkEndsRun(raw, start, i, end, ps[0].tag, depth);
    assert raw[end..end] == "";
  }

  lemma {:induction false} ChunksAreSplit(raw: string, start: nat, i: nat, depth: nat, ps: seq<Piece>)
    requires start <= i && ReadFrom(raw, i, ps)
    ensures Splits(raw, start, i, depth, ps)
    decreases |ps|
  {
    if ps == [] {
      assert i == |raw|;
    } else {
      NextPiece(raw, i, ps);
      var end := i + |PieceText(ps[0])|;
      ChunksAreSplit(raw, NextStart(ps[0], start, end), end, NextDepth(ps[0], depth), ps[1..]);
      match ps[0] {
        case Plain(_) => PlainNext(raw, start, i, end, depth, ps);
        case Stray => StrayNext(raw, start, i, end, depth, ps);
        case Mark(_) => MarkNext(raw, start, i, end, depth, ps);
      }
    }
  }

  /** The scanner takes exactly the tags of the title for tags, and counts the elements
      that enclose each run. */
  lemma SplitsAsParsed(ps: seq<Piece>)
    requires Parsed(ps)
    ensures Chunks(Written(ps)) == Split(ps, "", 0)
  {
    var raw := Written(ps);
    assert raw[0..] == raw && raw[0..0] == "";
    ChunksAreSplit(raw, 0, 0, 0, ps);
  }

  /** Every title has its pieces. */
  lemma {:induction false} EveryTitleParses(raw: string) returns (ps: seq<Piece>)
    ensures Parsed(ps) && Written(ps) == raw
    decreases |raw|
  {
    if raw == "" {
      return [];
    }
    if raw[0] != '<' {
      var rest := EveryTitleParses(raw[1..]);
      ps := [Plain(raw[..1])] + rest;
      assert ps[1..] == rest;
      return;
    }
    if end, t :| 0 <= end <= |raw| && ValidTag(t) && raw[..end] == WrittenTag(t) && Meant(t, raw[end..]) {
      var rest := EveryTitleParses(raw[end..]);
      ps := [Mark(t)] + rest;
      assert ps[1..] == rest;
      return;
    }
    var rest := EveryTitleParses(raw[1..]);
    ps := [Stray] + rest;
    assert ps[1..] == rest;
    assert "<" + raw[1..] == raw;
  }

  // ---- What a title with tags reads as ----

  lemma {:induction false} RunTextAppend(a: seq<Chunk>, b: seq<Chunk>, n: nat)
    requires n <= |b|
    ensures RunText(a + b, |a| + n) == RunText(a, |a|) + RunText(b, n)
    decreases n
  {
    if n == 0 {
      RunTextOfPrefix(a, b, |a|);
    } else {
      RunTextAppend(a, b, n - 1);
      assert (a + b)[|a| + n - 1] == b[n - 1];
      var x, y, z := RunText(a, |a|), RunText(b, n - 1), RunPart(b[n - 1]);
      assert x + y + z == x + (y + z);
    }
  }

  lemma {:induction false} RunTextOfPrefix(a: seq<Chunk>, b: seq<Chunk>, n: nat)
    requires n <= |a|
    ensures RunText(a + b, n) == RunText(a, n)
  {
    if n > 0 {
      RunTextOfPrefix(a, b, n - 1);
    }
  }

  lemma RunTextOfTag(run: seq<Chunk>, tag: string)
    ensures RunText(run + [Tag(tag)], |run| + 1) == RunText(run, |run|)
  {
    RunTextOfPrefix(run, [Tag(tag)], |run|);
    var text := RunText(run, |run|);
    assert text + "" == text;
  }

  lemma RunTextOfMark(pending: string, depth: nat, tag: string, later: seq<Chunk>, text: string)
    requires RunText(later, |later|) == text
    ensures var all := RunIf(pending, depth) + [Tag(tag)] + later; RunText(all, |all|) == pending + text
  {
    var first := RunIf(pending, depth) + [Tag(tag)];
    RunTextOfRun(pending, depth);
    RunTextOfTag(RunIf(pending, depth), tag);
    RunTextAppend(first, later, |later|);
  }

  lemma RunTextOfRun(text: string, depth: nat)
    ensures RunText(RunIf(text, depth), |RunIf(text, depth)|) == text
  {
    if text != "" {
      assert RunText([Run(text, depth)], 0) == "";
      assert "" + text == text;
    }
  }

  lemma {:induction false} RunsAreVisible(ps: seq<Piece>, pending: string, depth: nat)
    ensures RunText(Split(ps, pending, depth), |Split(ps, pending, depth)|) == pending + Visible(ps)
    decreases |ps|
  {
    if ps == [] {
      RunTextOfRun(pending, depth);
      assert pending + "" == pending;
    } else if ps[0].Mark? {
      var later := Split(ps[1..], "", Nested(ps[0].tag, depth));
      RunsAreVisible(ps[1..], "", Nested(ps[0].tag, depth));
      assert "" + Visible(ps[1..]) == Visible(ps[1..]) == Visible(ps);
      RunTextOfMark(pending, depth, WrittenTag(ps[0].tag), later, Visible(ps));
    } else {
      var more := PieceText(ps[0]);
      RunsAreVisible(ps[1..], pending + more, depth);
      assert pending + more + Visible(ps[1..]) == pending + (more + Visible(ps[1..]));
    }
  }

  lemma {:induction false} OneLineBefore(chunks: seq<Chunk>, n: nat, text: string)
    requires n <= |chunks| && text == RunText(chunks, n) && OneLine(text)
    ensures OneLine(SpaceBefore(chunks, n))
  {
    if n > 0 {
      var c := chunks[n - 1];
      OneLineIff(RunText(chunks, n - 1), RunPart(c));
      if Spoken(c) {
        assert Trailing(c.text) == c.text[|TrimRight(c.text)|..];
      } else {
        OneLineBefore(chunks, n - 1, RunText(chunks, n - 1));
        OneLineIff(SpaceBefore(chunks, n - 1), RunPart(c));
      }
    }
  }

  lemma {:induction false} OneLineUpTo(chunks: seq<Chunk>, n: nat, m: nat)
    requires n <= m <= |chunks| && OneLine(RunText(chunks, m))
    ensures OneLine(RunText(chunks, n))
    decreases m
  {
    if n < m {
      OneLineIff(RunText(chunks, m - 1), RunPart(chunks[m - 1]));
      OneLineUpTo(chunks, n, m - 1);
    }
  }

  lemma OneLineLeading(text: string)
    requires OneLine(text)
    ensures OneLine(Leading(text))
  {
    assert Leading(text) == text[..|text| - |TrimLeft(text)|];
  }

  lemma OneLineIsUnbroken(chunks: seq<Chunk>, n: nat)
    requires n < |chunks| && OneLine(RunText(chunks, |chunks|)) && Spoken(chunks[n])
    ensures OneLine(SpaceBefore(chunks, n) + Leading(chunks[n].text))
  {
    var text, before := chunks[n].text, RunText(chunks, n);
    OneLineUpTo(chunks, n + 1, |chunks|);
    OneLineIff(before, text);
    OneLineBefore(chunks, n, before);
    OneLineLeading(text);
    OneLineIff(SpaceBefore(chunks, n), Leading(text));
  }

  /** A title without line breaks reads as it is written, its tags taken out. */
  lemma TitleReadsAs(ps: seq<Piece>, classes: Classes)
    requires Parsed(ps) && OneLine(Visible(ps))
    ensures PlainText(Written(ps), classes) == Normalize(Visible(ps))
  {
    var raw := Written(ps);
    SplitsAsParsed(ps);
    RunsAreVisible(ps, "", 0);
    assert "" + Visible(ps) == Visible(ps);
    forall k: nat | k < |Chunks(raw)| ensures !BrokenAt(Chunks(raw), k) {
      if BrokenAt(Chunks(raw), k) {
        OneLineIsUnbroken(Chunks(raw), k);
      }
    }
    UnbrokenIsNormalized(raw, classes);
  }

  predicate OneRun(chunks: seq<Chunk>) {
    forall i, j :: 0 <= i < j < |chunks| ==> chunks[i].Tag? || chunks[j].Tag?
  }

  lemma {:induction false} SpokenBeforeIsRun(chunks: seq<Chunk>, n: nat) returns (i: nat)
    requires n <= |chunks| && SpokenBefore(chunks, n)
    ensures i < n && chunks[i].Run?
  {
    if Spoken(chunks[n - 1]) {
      i := n - 1;
    } else {
      i := SpokenBeforeIsRun(chunks, n - 1);
    }
  }

  lemma OneRunIsUnbroken(chunks: seq<Chunk>, n: nat)
    requires OneRun(chunks) && n < |chunks|
    ensures !BrokenAt(chunks, n)
  {
    if BrokenAt(chunks, n) {
      var i := SpokenBeforeIsRun(chunks, n);
    }
  }

  lemma OneRunReads(ps: seq<Piece>, chunks: seq<Chunk>, raw: string, visible: string, classes: Classes)
    requires Parsed(ps) && chunks == Split(ps, "", 0) && OneRun(chunks)
    requires raw == Written(ps) && visible == Visible(ps)
    ensures PlainText(raw, classes) == Normalize(visible)
  {
    SplitsAsParsed(ps);
    RunsAreVisible(ps, "", 0);
    assert "" + visible == visible;
    forall n: nat | n < |chunks| ensures !BrokenAt(chunks, n) {
      OneRunIsUnbroken(chunks, n);
    }
    UnbrokenIsNormalized(raw, classes);
  }

  lemma MarkThen(t: TagParts, rest: seq<Piece>, written: string, visible: string)
    requires ValidTag(t) && Meant(t, written) && Parsed(rest) && Written(rest) == written && Visible(rest) == visible
    ensures var ps := [Mark(t)] + rest;
            Parsed(ps) && Written(ps) == WrittenTag(t) + written && Visible(ps) == visible
            && Split(ps, "", 0) == [Tag(WrittenTag(t))] + Split(rest, "", Nested(t, 0))
  {
    var ps := [Mark(t)] + rest;
    assert ps[1..] == rest;
  }

  lemma PlainThen(text: string, rest: seq<Piece>, written: string, visible: string, depth: nat)
    requires '<' !in text && Parsed(rest) && Written(rest) == written && Visible(rest) == visible
    ensures var ps := [Plain(text)] + rest;
            Parsed(ps) && Written(ps) == text + written && Visible(ps) == text + visible
            && Split(ps, "", depth) == Split(rest, text, depth)
  {
    var ps := [Plain(text)] + rest;
    assert ps[1..] == rest;
    assert "" + text == text;
  }

  lemma ClosedIsMeant(open: TagParts, close: TagParts, text: string)
    requires open.name == close.name && close.closing
    ensures Meant(open, text + WrittenTag(close))
  {
    var rest, pattern := text + WrittenTag(close), "</" + open.name;
    assert WrittenTag(close) == pattern + Tail(close);
    assert rest[|text|..] == WrittenTag(close);
    assert rest[|text|..][..|pattern|] == pattern;
  }

  lemma CloseChunks(text: string, close: TagParts, depth: nat)
    ensures Split([Mark(close)], text, depth) == RunIf(text, depth) + [Tag(WrittenTag(close))]
  {
    var last := [Mark(close)];
    assert last[1..] == [];
    assert Split([], "", Nested(close, depth)) == [];
  }

  lemma InnerPieces(text: string, close: TagParts, depth: nat) returns (ps: seq<Piece>)
    requires ValidTag(close) && close.closing && '<' !in text
    ensures Parsed(ps) && Written(ps) == text + WrittenTag(close) && Visible(ps) == text
    ensures Split(ps, "", depth) == RunIf(text, depth) + [Tag(WrittenTag(close))]
  {
    var closed, last := WrittenTag(close), [Mark(close)];
    assert closed + "" == closed && text + "" == text && last + [] == last;
    MarkThen(close, [], "", "");
    PlainThen(text, last, closed, "", depth);
    CloseChunks(text, close, depth);
    ps := [Plain(text)] + last;
  }

  lemma ElementPieces(open: TagParts, close: TagParts, text: string)
    returns (ps: seq<Piece>, chunks: seq<Chunk>)
    requires ValidTag(open) && ValidTag(close) && close.closing && open.name == close.name && '<' !in text
    ensures Parsed(ps) && Written(ps) == WrittenTag(open) + (text + WrittenTag(close)) && Visible(ps) == text
    ensures chunks == Split(ps, "", 0) && OneRun(chunks)
  {
    var closed, depth := WrittenTag(close), Nested(open, 0);
    var inner := InnerPieces(text, close, depth);
    ClosedIsMeant(open, close, text);
    MarkThen(open, inner, text + closed, text);
    ps := [Mark(open)] + inner;
    chunks := [Tag(WrittenTag(open))] + (RunIf(text, depth) + [Tag(closed)]);
  }

  /** Text in one element reads as that text, whatever the element's name and
      attributes and however the text is broken into lines. */
  lemma ElementReadsAsText(open: TagParts, close: TagParts, text: string, classes: Classes)
    requires ValidTag(open) && ValidTag(close) && close.closing && open.name == close.name && '<' !in text
    ensures PlainText(WrittenTag(open) + (text + WrittenTag(close)), classes) == Normalize(text)
  {
    var ps, chunks := ElementPieces(open, close, text);
    OneRunReads(ps, chunks, WrittenTag(open) + (text + WrittenTag(close)), text, classes);
  }

  lemma LonePieces(t: TagParts, text: string) returns (ps: seq<Piece>, chunks: seq<Chunk>)
    requires ValidTag(t) && Meant(t, text) && '<' !in text
    ensures Parsed(ps) && Written(ps) == WrittenTag(t) + text && Visible(ps) == text
    ensures chunks == Split(ps, "", 0) && OneRun(chunks)
  {
    var rest := [Plain(text)];
    assert text + "" == text && rest + [] == rest;
    PlainThen(text, [], "", "", Nested(t, 0));
    MarkThen(t, rest, text, text);
    ps := [Mark(t)] + rest;
    chunks := [Tag(WrittenTag(t))] + RunIf(text, Nested(t, 0));
  }

  /** A tag that says by itself that it is one goes, even if nothing closes it. */
  lemma LoneTagGoes(t: TagParts, text: string, classes: Classes)
    requires ValidTag(t) && Meant(t, text) && '<' !in text
    ensures PlainText(WrittenTag(t) + text, classes) == Normalize(text)
  {
    var ps, chunks := LonePieces(t, text);
    OneRunReads(ps, chunks, WrittenTag(t) + text, text, classes);
  }

  lemma TagHasOneAngle(s: string, at: nat, t: TagParts, end: nat)
    requires ValidTag(t) && At(s, at, WrittenTag(t)) && end == at + |WrittenTag(t)|
    ensures end <= |s| && NoAngle(s, at + 1, end)
  {
    var start := NameStart(at, t.closing);
    LengthOfTag(at, t);
    WrittenIsScanned(s, at, t, start, start + |t.name|, end);
  }

  /** What is written like a tag, but is none, stays. */
  lemma UnmeantTagStays(before: string, t: TagParts, behind: string, classes: Classes)
    requires ValidTag(t) && !Meant(t, behind) && '<' !in before && '<' !in behind
    ensures var raw := before + WrittenTag(t) + behind; PlainText(raw, classes) == Normalize(raw)
  {
    var tag, at := WrittenTag(t), |before|;
    var raw, end := before + tag + behind, at + |tag|;
    assert raw[at..end] == tag && raw[end..] == behind;
    AtSlice(raw, at, end);
    WrittenTagIsFound(raw, at, t, end);
    TagHasOneAngle(raw, at, t, end);
    forall p: nat ensures !OpensTag(raw, p) {
      if p < at {
        assert raw[p] == before[p];
      } else if end <= p < |raw| {
        assert raw[p] == behind[p - end];
      }
    }
    PlainTextWithoutTags(raw, classes);
  }
}
