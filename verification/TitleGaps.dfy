/**
 What comes between two runs of a title, a line break that crosses a tag included.
 */
module TitleGaps {
  import opened Wrappers
  import opened Strings
  import opened Whitespace
  import opened Markup

  predicate TwoAlphanumerics(s: string, classes: Classes) {
    exists i, j :: 0 <= i < j < |s| && classes.alphanumeric(s[i]) && classes.alphanumeric(s[j])
  }

  /** Two or more lower-case letters. */
  predicate SmallWord(s: string, classes: Classes) {
    |s| >= 2 && forall i :: 0 <= i < |s| ==> classes.alphabetic(s[i]) && classes.lowercase(s[i])
  }

  predicate EndsInSmallWord(s: string, k: nat, classes: Classes)
    requires k <= |s|
  {
    SmallWord(s[k..], classes) && (k > 0 ==> !classes.alphabetic(s[k - 1]))
  }

  predicate BeginsWithSmallWord(s: string, k: nat, classes: Classes)
    requires k <= |s|
  {
    SmallWord(s[..k], classes) && (k < |s| ==> !classes.alphabetic(s[k]))
  }

  /** A space between text and the content of an element behind it: after punctuation,
      between words, and between a lower-case word or an operator and a symbol. */
  predicate SpaceBeforeElement(outer: string, inner: string, classes: Classes)
    requires outer != ""
  {
    var edge := outer[|outer| - 1];
    || edge == '.' || edge == ',' || edge == ';' || edge == ':'
    || if TwoAlphanumerics(inner, classes) then classes.alphanumeric(edge)
       else (exists k: nat :: k <= |outer| && EndsInSmallWord(outer, k, classes)) || IsOperator(edge)
  }

  /** The same behind the element, where punctuation takes none. */
  predicate SpaceBehindElement(inner: string, outer: string, classes: Classes)
    requires outer != ""
  {
    var edge := outer[0];
    if TwoAlphanumerics(inner, classes) then classes.alphanumeric(edge)
    else (exists k: nat :: k <= |outer| && BeginsWithSmallWord(outer, k, classes)) || IsOperator(edge)
  }

  predicate IsOperator(c: char) {
    c == '=' || c == '<' || c == '>' || c == '\U{2264}' || c == '\U{2265}' || c == '\U{00B1}' || c == '&'
  }

  lemma {:induction false} CountIff(s: string, classes: Classes)
    ensures CountAlphanumeric(s, classes) >= 1 <==> exists i :: 0 <= i < |s| && classes.alphanumeric(s[i])
    ensures CountAlphanumeric(s, classes) >= 2 <==> TwoAlphanumerics(s, classes)
  {
    if s != "" {
      var rest := s[1..];
      CountIff(rest, classes);
      assert forall i :: 0 <= i < |rest| ==> rest[i] == s[i + 1];
      if i :| 0 <= i < |rest| && classes.alphanumeric(rest[i]) {
        assert classes.alphanumeric(s[i + 1]);
      }
      if i :| 0 <= i < |s| && classes.alphanumeric(s[i]) && i > 0 {
        assert classes.alphanumeric(rest[i - 1]);
      }
      if i, j :| 0 <= i < j < |rest| && classes.alphanumeric(rest[i]) && classes.alphanumeric(rest[j]) {
        assert classes.alphanumeric(s[i + 1]) && classes.alphanumeric(s[j + 1]);
      }
      if i, j :| 0 <= i < j < |s| && classes.alphanumeric(s[i]) && classes.alphanumeric(s[j]) {
        assert classes.alphanumeric(rest[j - 1]);
        assert i > 0 ==> classes.alphanumeric(rest[i - 1]);
      }
    }
  }

  lemma {:induction false} LettersToEndIs(s: string, classes: Classes) returns (k: nat)
    ensures k <= |s| && LettersToEnd(s, classes) == s[k..] && (k > 0 ==> !classes.alphabetic(s[k - 1]))
    ensures forall i :: k <= i < |s| ==> classes.alphabetic(s[i])
  {
    if s == "" || !classes.alphabetic(s[|s| - 1]) {
      k := |s|;
    } else {
      var front, last := s[..|s| - 1], s[|s| - 1];
      k := LettersToEndIs(front, classes);
      assert s == front + [last];
      assert (front + [last])[k..] == front[k..] + [last];
    }
  }

  lemma {:induction false} LettersFromStartIs(s: string, classes: Classes) returns (k: nat)
    ensures k <= |s| && LettersFromStart(s, classes) == s[..k] && (k < |s| ==> !classes.alphabetic(s[k]))
    ensures forall i :: 0 <= i < k ==> classes.alphabetic(s[i])
  {
    if s == "" || !classes.alphabetic(s[0]) {
      k := 0;
    } else {
      var n := LettersFromStartIs(s[1..], classes);
      k := n + 1;
      assert s[..k] == [s[0]] + s[1..][..n];
      assert forall i :: 1 <= i < k ==> s[i] == s[1..][i - 1];
    }
  }

  /** For letters, a lower-case word is what the search for one asks. */
  lemma SmallWordIff(word: string, classes: Classes)
    requires forall i :: 0 <= i < |word| ==> classes.alphabetic(word[i])
    ensures SmallWord(word, classes) <==> IsLowerWord(word, classes)
  {
  }

  lemma EndOfLetters(s: string, n: nat, k: nat, classes: Classes)
    requires n <= |s| && k <= |s| && (n > 0 ==> !classes.alphabetic(s[n - 1]))
    requires forall i :: n <= i < |s| ==> classes.alphabetic(s[i])
    requires EndsInSmallWord(s, k, classes)
    ensures k == n
  {
    var word := s[k..];
    assert forall i :: k <= i < |s| ==> s[i] == word[i - k];
  }

  lemma SmallWordAtEndIff(s: string, classes: Classes)
    ensures LowercaseWordAtEdge(s, true, classes)
        <==> exists k: nat :: k <= |s| && EndsInSmallWord(s, k, classes)
  {
    var n := LettersToEndIs(s, classes);
    var word := s[n..];
    assert forall i :: 0 <= i < |word| ==> word[i] == s[n + i];
    SmallWordIff(word, classes);
    if k: nat :| k <= |s| && EndsInSmallWord(s, k, classes) {
      EndOfLetters(s, n, k, classes);
    }
    assert SmallWord(word, classes) <==> EndsInSmallWord(s, n, classes);
  }

  lemma StartOfLetters(s: string, n: nat, k: nat, classes: Classes)
    requires n <= |s| && k <= |s| && (n < |s| ==> !classes.alphabetic(s[n]))
    requires forall i :: 0 <= i < n ==> classes.alphabetic(s[i])
    requires BeginsWithSmallWord(s, k, classes)
    ensures k == n
  {
    var word := s[..k];
    assert forall i :: 0 <= i < k ==> s[i] == word[i];
  }

  lemma SmallWordAtStartIff(s: string, classes: Classes)
    ensures LowercaseWordAtEdge(s, false, classes)
        <==> exists k: nat :: k <= |s| && BeginsWithSmallWord(s, k, classes)
  {
    var n := LettersFromStartIs(s, classes);
    var word := s[..n];
    assert forall i :: 0 <= i < |word| ==> word[i] == s[i];
    SmallWordIff(word, classes);
    if k: nat :| k <= |s| && BeginsWithSmallWord(s, k, classes) {
      StartOfLetters(s, n, k, classes);
    }
    assert SmallWord(word, classes) <==> BeginsWithSmallWord(s, n, classes);
  }

  /** When a line break that crosses a tag becomes a space: the run in fewer elements
      is the text around the other one. */
  lemma BoundaryIff(left: string, leftDepth: nat, right: string, rightDepth: nat, classes: Classes)
    ensures Boundary(left, leftDepth, right, rightDepth, classes)
         == if || (leftDepth < rightDepth && left != "" && SpaceBeforeElement(left, right, classes))
               || (rightDepth < leftDepth && right != "" && SpaceBehindElement(left, right, classes))
            then " " else ""
  {
    CountIff(left, classes);
    CountIff(right, classes);
    SmallWordAtEndIff(left, classes);
    SmallWordAtStartIff(right, classes);
  }

  /** The last run before chunk `n` that is not blank. */
  predicate LastSpoken(chunks: seq<Chunk>, n: nat, k: nat)
    requires n <= |chunks|
  {
    k < n && Spoken(chunks[k]) && forall i :: k < i < n ==> !Spoken(chunks[i])
  }

  lemma {:induction false} DraftKnowsGap(chunks: seq<Chunk>, n: nat, classes: Classes, d: Draft)
    requires n <= |chunks| && d == DraftUpTo(chunks, n, classes)
    ensures KnowsGap(d, chunks, n)
  {
    if n > 0 {
      DraftKnowsGap(chunks, n - 1, classes, DraftUpTo(chunks, n - 1, classes));
      KnowsNextGap(DraftUpTo(chunks, n - 1, classes), chunks, n - 1, classes);
    }
  }

  lemma SpaceStep(d: Draft, c: Chunk, before: string, classes: Classes)
    requires d.gap.space <==> before != ""
    ensures Drafted(d, c, classes).gap.space
        <==> (if Spoken(c) then Trailing(c.text) else before + RunPart(c)) != ""
  {
  }

  lemma {:induction false} DraftKnowsSpace(chunks: seq<Chunk>, n: nat, classes: Classes, d: Draft)
    requires n <= |chunks| && d == DraftUpTo(chunks, n, classes)
    ensures d.gap.space <==> SpaceBefore(chunks, n) != ""
  {
    if n > 0 {
      DraftKnowsSpace(chunks, n - 1, classes, DraftUpTo(chunks, n - 1, classes));
      SpaceStep(DraftUpTo(chunks, n - 1, classes), chunks[n - 1], SpaceBefore(chunks, n - 1), classes);
    }
  }

  lemma LastStep(d: Draft, c: Chunk, classes: Classes)
    ensures Drafted(d, c, classes).prev == if Spoken(c) then Some((Trim(c.text), c.depth)) else d.prev
  {
  }

  lemma {:induction false} DraftKnowsLast(chunks: seq<Chunk>, n: nat, k: nat, classes: Classes, d: Draft)
    requires n <= |chunks| && d == DraftUpTo(chunks, n, classes) && LastSpoken(chunks, n, k)
    ensures d.prev == Some((Trim(chunks[k].text), chunks[k].depth))
  {
    LastStep(DraftUpTo(chunks, n - 1, classes), chunks[n - 1], classes);
    if k < n - 1 {
      DraftKnowsLast(chunks, n - 1, k, classes, DraftUpTo(chunks, n - 1, classes));
    }
  }

  /** A run adds its normalized text, behind a space where white space without a tag
      or without a line break stands before it, and as `BoundaryIff` has it where
      both do. */
  lemma RunIsAdded(chunks: seq<Chunk>, n: nat, k: nat, classes: Classes)
    requires n < |chunks| && Spoken(chunks[n]) && LastSpoken(chunks, n, k)
    ensures var run, last, space := chunks[n], chunks[k], SpaceBefore(chunks, n) + Leading(chunks[n].text);
            var separator := if TagBefore(chunks, n) && !OneLine(space)
                             then Boundary(Trim(last.text), last.depth, Trim(run.text), run.depth, classes)
                             else if space != "" then " " else "";
            DraftUpTo(chunks, n + 1, classes).out
            == DraftUpTo(chunks, n, classes).out + separator + Normalize(run.text)
  {
    var d, run := DraftUpTo(chunks, n, classes), chunks[n];
    DraftKnowsGap(chunks, n, classes, d);
    DraftKnowsSpace(chunks, n, classes, d);
    DraftKnowsLast(chunks, n, k, classes, d);
    AbsorbIff(d.gap, Leading(run.text));
    OneLineIff(SpaceBefore(chunks, n), Leading(run.text));
    TrimKeeps(run.text);
  }

  /** The first run opens the text, and a tag or a blank run adds nothing. */
  lemma NothingElseIsAdded(chunks: seq<Chunk>, n: nat, classes: Classes)
    requires n < |chunks| && (Spoken(chunks[n]) ==> !SpokenBefore(chunks, n))
    ensures DraftUpTo(chunks, n + 1, classes).out
         == DraftUpTo(chunks, n, classes).out + (if Spoken(chunks[n]) then Normalize(chunks[n].text) else "")
  {
    var d := DraftUpTo(chunks, n, classes);
    assert d.out + "" == d.out;
    if chunks[n].Run? {
      DraftKnowsGap(chunks, n, classes, d);
      TrimKeeps(chunks[n].text);
    }
  }
}
