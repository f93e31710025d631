/** Words, and text normalized to single spaces between them. */
module Whitespace {

  /** Unicode White_Space, by ranges of code points. */
  const SPACES := [
    (0x20, 0x20), (0x9, 0xD), (0x85, 0x85), (0xA0, 0xA0), (0x1680, 0x1680), (0x2000, 0x200A),
    (0x2028, 0x2029), (0x202F, 0x202F), (0x205F, 0x205F), (0x3000, 0x3000)]

  predicate InRanges(n: int, ranges: seq<(int, int)>, k: nat)
    requires k <= |ranges|
    decreases |ranges| - k
  {
    k < |ranges| && (ranges[k].0 <= n <= ranges[k].1 || InRanges(n, ranges, k + 1))
  }

  predicate IsSpace(c: char) {
    InRanges(c as int, SPACES, 0)
  }

  /** The characters of the Unicode property White_Space. */
  lemma SpaceIff(c: char)
    ensures IsSpace(c) <==>
            || '\t' <= c <= '\r' || c == ' ' || c == '\U{0085}' || c == '\U{00A0}' || c == '\U{1680}'
            || '\U{2000}' <= c <= '\U{200A}' || c == '\U{2028}' || c == '\U{2029}' || c == '\U{202F}'
            || c == '\U{205F}' || c == '\U{3000}'
  {
    var n := c as int;
    assert !InRanges(n, SPACES, 10);
    assert InRanges(n, SPACES, 8) <==> n == 0x205F || n == 0x3000;
    assert InRanges(n, SPACES, 6) <==> 0x2028 <= n <= 0x2029 || n == 0x202F || InRanges(n, SPACES, 8);
    assert InRanges(n, SPACES, 4) <==> n == 0x1680 || 0x2000 <= n <= 0x200A || InRanges(n, SPACES, 6);
    assert InRanges(n, SPACES, 2) <==> n == 0x85 || n == 0xA0 || InRanges(n, SPACES, 4);
    assert InRanges(n, SPACES, 0) <==> n == 0x20 || 0x9 <= n <= 0xD || InRanges(n, SPACES, 2);
  }

  predicate Blank(s: string) {
    forall i :: 0 <= i < |s| ==> IsSpace(s[i])
  }

  predicate IsWord(s: string) {
    s != "" && forall i :: 0 <= i < |s| ==> !IsSpace(s[i])
  }

  predicate AllWords(ws: seq<string>) {
    forall i :: 0 <= i < |ws| ==> IsWord(ws[i])
  }

  /** The end of the run of other characters that starts at `i`. */
  function WordEnd(s: string, i: nat): (k: nat)
    requires i <= |s|
    ensures i <= k <= |s|
    ensures k < |s| ==> IsSpace(s[k])
    ensures forall j :: i <= j < k ==> !IsSpace(s[j])
    decreases |s| - i
  {
    if i == |s| || IsSpace(s[i]) then i else WordEnd(s, i + 1)
  }

  function Words(s: string): seq<string> {
    if s == "" then []
    else if IsSpace(s[0]) then Words(s[1..])
    else
      var k := WordEnd(s, 0);
      [s[..k]] + Words(s[k..])
  }

  function Join(ws: seq<string>): string {
    if ws == [] then "" else if |ws| == 1 then ws[0] else ws[0] + " " + Join(ws[1..])
  }

  function Normalize(s: string): string {
    Join(Words(s))
  }

  predicate EndsInSpace(s: string) {
    s == "" || IsSpace(s[|s| - 1])
  }

  lemma WordEndIs(s: string, k: nat)
    requires k <= |s| && (k < |s| ==> IsSpace(s[k]))
    requires forall j :: 0 <= j < k ==> !IsSpace(s[j])
    ensures WordEnd(s, 0) == k
  {
  }

  lemma {:induction false} WordsAppend(a: string, b: string)
    requires EndsInSpace(a)
    ensures Words(a + b) == Words(a) + Words(b)
    decreases |a|
  {
    if a == "" {
      assert a + b == b;
    } else if IsSpace(a[0]) {
      assert (a + b)[1..] == a[1..] + b;
      WordsAppend(a[1..], b);
    } else {
      var k := WordEnd(a, 0);
      WordEndIs(a + b, k);
      assert (a + b)[..k] == a[..k] && (a + b)[k..] == a[k..] + b;
      WordsAppend(a[k..], b);
    }
  }

  lemma {:induction false} WordsAreWords(s: string)
    ensures AllWords(Words(s))
    ensures Words(s) == [] <==> Blank(s)
    decreases |s|
  {
    if s != "" {
      if IsSpace(s[0]) {
        WordsAreWords(s[1..]);
        assert s == [s[0]] + s[1..];
      } else {
        WordsAreWords(s[WordEnd(s, 0)..]);
      }
    }
  }

  lemma {:induction false} WordsOfJoin(ws: seq<string>)
    requires AllWords(ws)
    ensures Words(Join(ws)) == ws
  {
    if ws != [] {
      var s, head := Join(ws), ws[0];
      var k := |head|;
      assert s[..k] == head;
      WordEndIs(s, k);
      if |ws| > 1 {
        WordsOfJoin(ws[1..]);
        assert s[k..] == " " + Join(ws[1..]);
        assert s[k..][1..] == Join(ws[1..]);
      } else {
        assert s[k..] == "";
      }
    }
  }

  /** A single space wherever there is space, and none at the ends. */
  predicate Tidy(s: string) {
    && (s != "" ==> !IsSpace(s[0]) && !IsSpace(s[|s| - 1]))
    && forall i :: 0 <= i < |s| && IsSpace(s[i]) ==> s[i] == ' ' && i + 1 < |s| && !IsSpace(s[i + 1])
  }

  lemma TidyJoin(a: string, separator: string, b: string)
    requires Tidy(a) && Tidy(b) && b != "" && (separator == "" || (separator == " " && a != ""))
    ensures Tidy(a + separator + b)
  {
    var s, n := a + separator + b, |a + separator|;
    assert forall i :: 0 <= i < |a| ==> s[i] == a[i];
    assert forall i :: n <= i < |s| ==> s[i] == b[i - n];
  }

  lemma {:induction false} JoinIsTidy(ws: seq<string>)
    requires AllWords(ws)
    ensures Tidy(Join(ws)) && (ws != [] ==> Join(ws) != "")
  {
    if |ws| > 1 {
      JoinIsTidy(ws[1..]);
      TidyJoin(ws[0], " ", Join(ws[1..]));
    }
  }

  /** Normalizing keeps the words. */
  lemma NormalizeKeepsWords(s: string)
    ensures Words(Normalize(s)) == Words(s)
    ensures Normalize(s) == "" <==> Blank(s)
  {
    WordsAreWords(s);
    WordsOfJoin(Words(s));
  }

  lemma NormalizeIsTidy(s: string)
    ensures Tidy(Normalize(s))
  {
    WordsAreWords(s);
    JoinIsTidy(Words(s));
  }

  lemma TidyBehind(s: string, k: nat, rest: string)
    requires Tidy(s) && k < |s| && IsSpace(s[k]) && rest == s[k + 1..]
    ensures s[k] == ' ' && rest != "" && !IsSpace(rest[0]) && Tidy(rest)
  {
    assert rest[0] == s[k + 1] && rest[|rest| - 1] == s[|s| - 1];
    assert forall i :: 0 <= i < |rest| ==> rest[i] == s[k + 1 + i];
  }

  lemma WordsOfFirst(s: string, k: nat, rest: string)
    requires s != "" && k == WordEnd(s, 0) && 0 < k < |s| && rest == s[k + 1..]
    ensures Words(s) == [s[..k]] + Words(rest)
  {
    assert s[k..][1..] == rest;
  }

  lemma JoinFirst(w: string, ws: seq<string>)
    requires ws != []
    ensures Join([w] + ws) == w + " " + Join(ws)
  {
    assert ([w] + ws)[1..] == ws;
  }

  /** Tidy text is its words and nothing else. */
  lemma {:induction false} TidyIsNormalized(s: string)
    requires Tidy(s)
    ensures Normalize(s) == s
    decreases |s|
  {
    if s != "" {
      var k := WordEnd(s, 0);
      if k == |s| {
        WordsOfWord(s);
      } else {
        var rest := s[k + 1..];
        TidyBehind(s, k, rest);
        WordsOfFirst(s, k, rest);
        WordsAreWords(rest);
        TidyIsNormalized(rest);
        JoinFirst(s[..k], Words(rest));
        assert s == s[..k] + " " + rest;
      }
    }
  }

  lemma {:induction false} WordsThenBlank(a: string, b: string)
    requires Blank(b)
    ensures Words(a + b) == Words(a)
    decreases |a|
  {
    if a == "" {
      assert a + b == b;
      WordsAreWords(b);
    } else if IsSpace(a[0]) {
      assert (a + b)[1..] == a[1..] + b;
      WordsThenBlank(a[1..], b);
    } else {
      var k := WordEnd(a, 0);
      WordEndIs(a + b, k);
      assert (a + b)[..k] == a[..k] && (a + b)[k..] == a[k..] + b;
      WordsThenBlank(a[k..], b);
    }
  }

  lemma {:induction false} JoinAppend(a: seq<string>, b: seq<string>)
    requires a != [] && b != []
    ensures Join(a + b) == Join(a) + " " + Join(b)
  {
    assert (a + b)[1..] == a[1..] + b;
    if |a| > 1 {
      JoinAppend(a[1..], b);
      assert a[0] + " " + (Join(a[1..]) + " " + Join(b)) == a[0] + " " + Join(a[1..]) + " " + Join(b);
    }
  }

  lemma WordsBehindSpace(a: string, b: string)
    requires b != "" && IsSpace(b[0])
    ensures Words(a + b) == Words(a) + Words(b)
  {
    var c := b[..1];
    assert a + b == (a + c) + b[1..];
    WordsAppend(a + c, b[1..]);
    WordsThenBlank(a, c);
  }

  /** With white space between them two texts are normalized apart. */
  lemma NormalizeApart(a: string, b: string)
    requires EndsInSpace(a) || (b != "" && IsSpace(b[0]))
    ensures Words(a + b) == Words(a) + Words(b)
    ensures Words(a) != [] && Words(b) != [] ==> Normalize(a + b) == Normalize(a) + " " + Normalize(b)
    ensures Words(a) == [] ==> Normalize(a + b) == Normalize(b)
    ensures Words(b) == [] ==> Normalize(a + b) == Normalize(a)
  {
    if EndsInSpace(a) {
      WordsAppend(a, b);
    } else {
      WordsBehindSpace(a, b);
    }
    if Words(a) != [] && Words(b) != [] {
      JoinAppend(Words(a), Words(b));
    }
    assert [] + Words(b) == Words(b) && Words(a) + [] == Words(a);
  }

  lemma WordsOfWord(a: string)
    requires IsWord(a)
    ensures Words(a) == [a]
  {
    WordEndIs(a, |a|);
    assert a[..|a|] == a && a[|a|..] == "";
  }

  lemma WordsStart(a: string, k: nat)
    requires k <= |a| && a != "" && !IsSpace(a[0]) && WordEnd(a, 0) == k
    ensures Words(a) == [a[..k]] + Words(a[k..])
  {
  }

  lemma JoinGlued(a: string, w: string, rest: seq<string>)
    ensures Join([a + w] + rest) == a + Join([w] + rest)
  {
    assert ([w] + rest)[1..] == rest && ([a + w] + rest)[1..] == rest;
    if rest != [] {
      assert a + w + " " + Join(rest) == a + (w + " " + Join(rest));
    }
  }

  lemma GluedLastWord(a: string, b: string)
    requires IsWord(a) && b != "" && !IsSpace(b[0])
    ensures Normalize(a + b) == Normalize(a) + Normalize(b)
  {
    var all, k, m := a + b, |a|, WordEnd(b, 0);
    WordEndIs(all, k + m);
    assert all[..k + m] == a + b[..m] && all[k + m..] == b[m..];
    WordsStart(all, k + m);
    WordsStart(b, m);
    WordsOfWord(a);
    JoinGlued(a, b[..m], Words(b[m..]));
  }

  lemma NotBlankBefore(a: string, b: string)
    requires !Blank(a)
    ensures Words(a) != [] && Words(a + b) != []
  {
    var i :| 0 <= i < |a| && !IsSpace(a[i]);
    assert (a + b)[i] == a[i];
    WordsAreWords(a);
    WordsAreWords(a + b);
  }

  lemma WordThenApart(w: string, rest: string)
    requires IsWord(w) && rest != "" && IsSpace(rest[0]) && Words(rest) != []
    ensures Normalize(w + rest) == w + " " + Normalize(rest)
  {
    WordsOfWord(w);
    NormalizeApart(w, rest);
    assert Normalize(w) == w;
  }

  lemma Regroup(w: string, x: string, y: string)
    ensures w + " " + (x + y) == w + " " + x + y && w + (x + y) == w + x + y
  {
  }

  lemma SkipSpace(s: string)
    requires s != "" && IsSpace(s[0])
    ensures Normalize(s) == Normalize(s[1..])
  {
  }

  lemma GluedBehindSpace(a: string, rest: string, b: string)
    requires a != "" && IsSpace(a[0]) && rest == a[1..] && Normalize(rest + b) == Normalize(rest) + Normalize(b)
    ensures Normalize(a + b) == Normalize(a) + Normalize(b)
  {
    SkipSpace(a);
    SkipSpace(a + b);
    assert (a + b)[1..] == rest + b;
  }

  lemma GluedEarlierWord(w: string, rest: string, b: string)
    requires IsWord(w) && rest != "" && IsSpace(rest[0]) && !Blank(rest)
    requires Normalize(rest + b) == Normalize(rest) + Normalize(b)
    ensures Normalize(w + rest + b) == Normalize(w + rest) + Normalize(b)
  {
    NotBlankBefore(rest, b);
    WordThenApart(w, rest);
    WordThenApart(w, rest + b);
    Regroup(w, rest, b);
    Regroup(w, Normalize(rest), Normalize(b));
  }

  /** Without it they share a word. */
  lemma {:induction false} NormalizeGlued(a: string, b: string)
    requires a != "" && !IsSpace(a[|a| - 1]) && b != "" && !IsSpace(b[0])
    ensures Normalize(a + b) == Normalize(a) + Normalize(b)
    decreases |a|
  {
    if IsWord(a) {
      GluedLastWord(a, b);
    } else {
      var k := if IsSpace(a[0]) then 1 else WordEnd(a, 0);
      var head, rest := a[..k], a[k..];
      assert a == head + rest && rest != "" && !IsSpace(rest[|rest| - 1]);
      NormalizeGlued(rest, b);
      if IsSpace(a[0]) {
        GluedBehindSpace(a, rest, b);
      } else {
        GluedEarlierWord(head, rest, b);
      }
    }
  }

  // ---- Trimming ----

  function TrimLeft(s: string): (r: string)
    ensures |r| <= |s|
  {
    if s != "" && IsSpace(s[0]) then TrimLeft(s[1..]) else s
  }

  function TrimRight(s: string): (r: string)
    ensures |r| <= |s|
  {
    if s != "" && IsSpace(s[|s| - 1]) then TrimRight(s[..|s| - 1]) else s
  }

  /** A run without the white space around it. */
  function Trim(s: string): string {
    TrimRight(TrimLeft(s))
  }

  /** The white space before a run and behind it. */
  function Leading(s: string): string {
    s[..|s| - |TrimLeft(s)|]
  }

  function Trailing(s: string): string {
    s[|TrimRight(s)|..]
  }

  lemma {:induction false} TrimLeftSplits(s: string)
    ensures s == s[..|s| - |TrimLeft(s)|] + TrimLeft(s) && Blank(s[..|s| - |TrimLeft(s)|])
    ensures TrimLeft(s) != "" ==> !IsSpace(TrimLeft(s)[0])
  {
    if s != "" && IsSpace(s[0]) {
      var rest := s[1..];
      TrimLeftSplits(rest);
      var n := |s| - |TrimLeft(s)|;
      assert s[..n] == [s[0]] + rest[..n - 1];
      assert s == [s[0]] + rest;
    }
  }

  lemma {:induction false} TrimRightIsPrefix(s: string)
    ensures TrimRight(s) <= s && forall i :: |TrimRight(s)| <= i < |s| ==> IsSpace(s[i])
    ensures TrimRight(s) != "" ==> !IsSpace(TrimRight(s)[|TrimRight(s)| - 1])
  {
    if s != "" && IsSpace(s[|s| - 1]) {
      TrimRightIsPrefix(s[..|s| - 1]);
    }
  }

  lemma TrimRightSplits(s: string)
    ensures s == TrimRight(s) + s[|TrimRight(s)|..] && Blank(s[|TrimRight(s)|..])
    ensures TrimRight(s) != "" ==> !IsSpace(TrimRight(s)[|TrimRight(s)| - 1])
  {
    TrimRightIsPrefix(s);
  }

  /** Trimming takes all the white space at the ends and nothing else. */
  lemma TrimSplits(s: string)
    ensures Blank(Leading(s)) && Blank(Trailing(s))
    ensures Trim(s) != "" ==> s == Leading(s) + (Trim(s) + Trailing(s))
    ensures Trim(s) != "" ==> !IsSpace(Trim(s)[0]) && !IsSpace(Trim(s)[|Trim(s)| - 1])
  {
    TrimLeftSplits(s);
    TrimRightSplits(s);
    TrimRightSplits(TrimLeft(s));
    if Trim(s) != "" {
      assert Trim(s)[0] == TrimLeft(s)[0];
      SameTrailing(Leading(s), TrimLeft(s), s);
    }
  }

  lemma {:induction false} SameTrailing(before: string, t: string, s: string)
    requires TrimRight(t) != "" && s == before + t
    ensures Trailing(s) == Trailing(t)
    decreases |t|
  {
    assert s[|s| - 1] == t[|t| - 1];
    if IsSpace(t[|t| - 1]) {
      var front := t[..|t| - 1];
      assert s[..|s| - 1] == before + front;
      SameTrailing(before, front, before + front);
      assert Trailing(s) == Trailing(before + front) + [t[|t| - 1]];
      assert Trailing(t) == Trailing(front) + [t[|t| - 1]];
    }
  }

  lemma {:induction false} TrimLeftIs(space: string, t: string)
    requires Blank(space) && (t != "" ==> !IsSpace(t[0]))
    ensures TrimLeft(space + t) == t
  {
    if space != "" {
      assert (space + t)[1..] == space[1..] + t;
      TrimLeftIs(space[1..], t);
    } else {
      assert space + t == t;
    }
  }

  lemma {:induction false} TrimRightIs(t: string, space: string)
    requires Blank(space) && (t != "" ==> !IsSpace(t[|t| - 1]))
    ensures TrimRight(t + space) == t
  {
    if space != "" {
      assert (t + space)[..|t + space| - 1] == t + space[..|space| - 1];
      TrimRightIs(t, space[..|space| - 1]);
    } else {
      assert t + space == t;
    }
  }

  lemma TrimIs(before: string, t: string, behind: string)
    requires Blank(before) && Blank(behind) && t != "" && !IsSpace(t[0]) && !IsSpace(t[|t| - 1])
    ensures Trim(before + (t + behind)) == t
  {
    assert (t + behind)[0] == t[0];
    TrimLeftIs(before, t + behind);
    TrimRightIs(t, behind);
  }
}
