/**
 Archive entry names made safe to write below a directory of our choosing.
 */
module EntryPaths {
  import opened Wrappers
  import opened Strings

  predicate IsSeparator(c: char) {
    c == '/' || c == '\\'
  }

  /** The first separator at or after `i`, or the end. */
  function SeparatorFrom(s: string, i: nat): (k: nat)
    requires i <= |s|
    ensures i <= k <= |s| && (k < |s| ==> IsSeparator(s[k]))
    ensures forall j :: i <= j < k ==> !IsSeparator(s[j])
    decreases |s| - i
  {
    if i == |s| || IsSeparator(s[i]) then i else SeparatorFrom(s, i + 1)
  }

  /** The segments between separators of either kind; empty ones count. */
  function SplitFrom(s: string, i: nat): (segments: seq<string>)
    requires i <= |s|
    ensures segments != []
    decreases |s| - i
  {
    var k := SeparatorFrom(s, i);
    if k == |s| then [s[i..]] else [s[i..k]] + SplitFrom(s, k + 1)
  }

  function Split(s: string): (segments: seq<string>)
    ensures segments != []
  {
    SplitFrom(s, 0)
  }

  predicate Has(s: string, c: char) {
    exists i :: 0 <= i < |s| && s[i] == c
  }

  predicate HasSeparator(s: string) {
    exists i :: 0 <= i < |s| && IsSeparator(s[i])
  }

  predicate Skipped(segment: string) {
    segment == "" || segment == "."
  }

  predicate Refused(segment: string) {
    segment == ".." || Has(segment, ':') || Has(segment, '\0')
  }

  /** A segment that can stand in the result. */
  predicate Normal(segment: string) {
    !Skipped(segment) && !Refused(segment) && !HasSeparator(segment)
  }

  predicate HasDrive(raw: string) {
    |raw| >= 2 && IsAlpha(raw[0]) && raw[1] == ':'
  }

  function Kept(segments: seq<string>, n: nat): Option<seq<string>>
    requires n <= |segments|
  {
    if n == 0 then Some([]) else
      var before, segment := Kept(segments, n - 1), segments[n - 1];
      if before.None? || Skipped(segment) then before
      else if Refused(segment) then None
      else Some(before.value + [segment])
  }

  function Sanitized(raw: string): Option<seq<string>> {
    if raw == "" || Has(raw, '\0') || IsSeparator(raw[0]) || HasDrive(raw) then None
    else
      var segments := Split(raw);
      var kept := Kept(segments, |segments|);
      if kept == Some([]) then None else kept
  }

  method SanitizeEntryPath(raw: string) returns (path: Option<seq<string>>)
    ensures path == Sanitized(raw)
  {
    if raw == "" || Has(raw, '\0') {
      return None;
    }
    if raw[0] == '/' || raw[0] == '\\' {
      return None;
    }
    if |raw| >= 2 && IsAlpha(raw[0]) && raw[1] == ':' {
      return None;
    }
    var out, any := [], false;
    var segments := Split(raw);
    for i := 0 to |segments|
      invariant Kept(segments, i) == Some(out) && (any <==> out != [])
    {
      var segment := segments[i];
      if segment == "" || segment == "." {
        continue;
      }
      if segment == ".." || Has(segment, ':') || Has(segment, '\0') {
        RefusalStands(segments, i + 1, |segments|);
        return None;
      }
      out := out + [segment];
      any := true;
    }
    return if any then Some(out) else None;
  }

  lemma {:induction false} RefusalStands(segments: seq<string>, n: nat, m: nat)
    requires n <= m <= |segments| && Kept(segments, n).None?
    ensures Kept(segments, m).None?
    decreases m
  {
    if n < m {
      RefusalStands(segments, n, m - 1);
    }
  }

  // ---- What an accepted path is ----

  /** Where a walk along the segments ends, from the directory `at`: `..` goes
      up where it can. */
  function Walk(at: seq<string>, segments: seq<string>, n: nat): seq<string>
    requires n <= |segments|
  {
    if n == 0 then at else
      var here, segment := Walk(at, segments, n - 1), segments[n - 1];
      if Skipped(segment) then here
      else if segment == ".." then (if here == [] then [] else here[..|here| - 1])
      else here + [segment]
  }

  ghost predicate AllNormal(segments: seq<string>) {
    forall i :: 0 <= i < |segments| ==> Normal(segments[i])
  }

  ghost predicate SeparatorFree(segments: seq<string>) {
    forall i :: 0 <= i < |segments| ==> !HasSeparator(segments[i])
  }

  lemma {:induction false} SplitHasNoSeparator(s: string, from: nat, i: nat)
    requires from <= |s| && i < |SplitFrom(s, from)|
    ensures !HasSeparator(SplitFrom(s, from)[i])
    decreases |s| - from
  {
    var k := SeparatorFrom(s, from);
    if i == 0 {
      assert forall j :: 0 <= j < k - from ==> s[from..k][j] == s[from + j];
    } else {
      SplitHasNoSeparator(s, k + 1, i - 1);
    }
  }

  lemma {:induction false} KeptIsWalk(segments: seq<string>, n: nat, root: seq<string>)
    requires n <= |segments| && Kept(segments, n).Some?
    requires SeparatorFree(segments)
    ensures AllNormal(Kept(segments, n).value)
    ensures Walk(root, segments, n) == root + Kept(segments, n).value
  {
    if n > 0 {
      KeptIsWalk(segments, n - 1, root);
    }
  }

  /** A name of one directory or file. */
  predicate PlainName(s: string) {
    && s != "" && s != "." && s != ".."
    && '/' !in s && '\\' !in s && ':' !in s && '\0' !in s
  }

  lemma NormalIff(s: string)
    ensures Normal(s) <==> PlainName(s)
  {
  }

  lemma SanitizedIsNormal(raw: string)
    requires Sanitized(raw).Some?
    ensures AllNormal(Sanitized(raw).value)
  {
    AcceptedStaysBelow(raw, []);
    forall i | 0 <= i < |Sanitized(raw).value| ensures Normal(Sanitized(raw).value[i]) {
      NormalIff(Sanitized(raw).value[i]);
    }
  }

  /** An accepted name, followed from any root, ends at the returned segments
      below it: strictly below, and never above on the way. */
  lemma AcceptedStaysBelow(raw: string, root: seq<string>)
    requires Sanitized(raw).Some?
    ensures var out := Sanitized(raw).value;
            && out != [] && (forall i :: 0 <= i < |out| ==> PlainName(out[i]))
            && Walk(root, Split(raw), |Split(raw)|) == root + out
            && forall n :: 0 <= n <= |Split(raw)| ==> root <= Walk(root, Split(raw), n)
  {
    var segments := Split(raw);
    forall i | 0 <= i < |segments| ensures !HasSeparator(segments[i]) {
      SplitHasNoSeparator(raw, 0, i);
    }
    KeptIsWalk(segments, |segments|, root);
    var out := Sanitized(raw).value;
    forall i | 0 <= i < |out| ensures PlainName(out[i]) {
      NormalIff(out[i]);
    }
    forall n | 0 <= n <= |segments| ensures root <= Walk(root, segments, n) {
      if Kept(segments, n).None? {
        RefusalStands(segments, n, |segments|);
      } else {
        KeptIsWalk(segments, n, root);
      }
    }
  }

  function Join(segments: seq<string>, separator: char): string
    requires segments != []
  {
    if |segments| == 1 then segments[0] else segments[0] + [separator] + Join(segments[1..], separator)
  }

  /** Up to its first separator the text from `i` on is one segment. */
  lemma FirstSegment(s: string, i: nat, head: string, tail: string)
    requires i <= |s| && s[i..] == head + tail
    requires !HasSeparator(head) && (tail != "" ==> IsSeparator(tail[0]))
    ensures var k := i + |head|;
            && k <= |s| && SeparatorFrom(s, i) == k && s[i..k] == head
            && (tail == "" ==> k == |s|) && (tail != "" ==> k < |s| && s[k + 1..] == tail[1..])
  {
    var rest, k := s[i..], i + |head|;
    assert |rest| == |head| + |tail|;
    assert forall j :: i <= j < k ==> s[j] == rest[j - i] == head[j - i];
    assert forall j :: k <= j < |s| ==> s[j] == rest[j - i] == tail[j - k];
    FirstSeparator(s, i, k);
  }

  lemma LastSegment(s: string, i: nat, head: string)
    requires i <= |s| && s[i..] == head && !HasSeparator(head)
    ensures SplitFrom(s, i) == [head]
  {
    assert head + "" == head;
    FirstSegment(s, i, head, "");
  }

  lemma NextSegment(s: string, i: nat, head: string, separator: char, rest: string)
    requires i <= |s| && s[i..] == head + [separator] + rest
    requires !HasSeparator(head) && IsSeparator(separator)
    ensures var k := i + |head| + 1;
            k <= |s| && s[k..] == rest && SplitFrom(s, i) == [head] + SplitFrom(s, k)
  {
    var tail := [separator] + rest;
    assert head + [separator] + rest == head + tail && tail[1..] == rest;
    FirstSegment(s, i, head, tail);
  }

  lemma JoinParts(segments: seq<string>, separator: char)
    requires |segments| > 1
    ensures Join(segments, separator) == segments[0] + [separator] + Join(segments[1..], separator)
  {
  }

  lemma SeparatorFreeParts(head: string, others: seq<string>)
    requires SeparatorFree([head] + others)
    ensures !HasSeparator(head) && SeparatorFree(others)
  {
    assert ([head] + others)[0] == head;
    assert forall i :: 0 <= i < |others| ==> others[i] == ([head] + others)[i + 1];
  }

  /** From `i` on, the text is these segments joined; and they are what it splits into. */
  ghost predicate JoinedFrom(s: string, i: nat, segments: seq<string>, separator: char)
    requires segments != []
  {
    i <= |s| && s[i..] == Join(segments, separator)
  }

  lemma JoinedOne(s: string, i: nat, head: string, separator: char)
    requires JoinedFrom(s, i, [head], separator) && !HasSeparator(head)
    ensures SplitFrom(s, i) == [head]
  {
    LastSegment(s, i, head);
  }

  ghost predicate SplitsInto(s: string, i: nat, segments: seq<string>) {
    i <= |s| && SplitFrom(s, i) == segments
  }

  lemma JoinedMore(s: string, i: nat, head: string, others: seq<string>, separator: char)
    requires others != [] && JoinedFrom(s, i, [head] + others, separator)
    requires !HasSeparator(head) && IsSeparator(separator)
    ensures JoinedFrom(s, i + |head| + 1, others, separator)
    ensures SplitsInto(s, i + |head| + 1, others) ==> SplitsInto(s, i, [head] + others)
  {
    JoinParts([head] + others, separator);
    assert ([head] + others)[1..] == others;
    NextSegment(s, i, head, separator, Join(others, separator));
  }

  lemma {:induction false} SplitJoin(s: string, i: nat, segments: seq<string>, separator: char)
    requires segments != [] && IsSeparator(separator) && SeparatorFree(segments)
    requires JoinedFrom(s, i, segments, separator)
    ensures SplitsInto(s, i, segments)
    decreases |segments|
  {
    var head, others := segments[0], segments[1..];
    assert segments == [head] + others;
    SeparatorFreeParts(head, others);
    if others == [] {
      JoinedOne(s, i, head, separator);
    } else {
      JoinedMore(s, i, head, others, separator);
      SplitJoin(s, i + |head| + 1, others, separator);
    }
  }

  lemma FirstSeparator(s: string, i: nat, k: nat)
    requires i <= k <= |s| && (k < |s| ==> IsSeparator(s[k]))
    requires forall j :: i <= j < k ==> !IsSeparator(s[j])
    ensures SeparatorFrom(s, i) == k
  {
  }

  lemma {:induction false} NormalIsKept(segments: seq<string>, n: nat)
    requires n <= |segments| && AllNormal(segments)
    ensures Kept(segments, n) == Some(segments[..n])
  {
    if n > 0 {
      NormalIsKept(segments, n - 1);
      assert segments[..n] == segments[..n - 1] + [segments[n - 1]];
    }
  }

  lemma {:induction false} JoinHas(segments: seq<string>, separator: char, c: char)
    requires segments != [] && Has(Join(segments, separator), c) && c != separator
    ensures exists i :: 0 <= i < |segments| && Has(segments[i], c)
  {
    var s, head := Join(segments, separator), segments[0];
    var i :| 0 <= i < |s| && s[i] == c;
    if i < |head| {
      assert head[i] == c;
    } else {
      var rest := Join(segments[1..], separator);
      assert rest[i - |head| - 1] == c;
      JoinHas(segments[1..], separator, c);
      var j :| 0 <= j < |segments[1..]| && Has(segments[1..][j], c);
      assert Has(segments[j + 1], c);
    }
  }

  /** Sanitizing again changes nothing, whichever separator the path was joined
      with on the way. */
  lemma SanitizingIsIdempotent(raw: string, separator: char)
    requires Sanitized(raw).Some? && IsSeparator(separator)
    ensures Sanitized(raw).value != []
    ensures Sanitized(Join(Sanitized(raw).value, separator)) == Sanitized(raw)
  {
    AcceptedStaysBelow(raw, []);
    SanitizedIsNormal(raw);
    var out := Sanitized(raw).value;
    var s := Join(out, separator);
    assert forall i :: 0 <= i < |out| ==> Normal(out[i]);
    assert s[0..] == s;
    SplitJoin(s, 0, out, separator);
    NormalIsKept(out, |out|);
    assert out[..|out|] == out;
    if Has(s, '\0') {
      JoinHas(out, separator, '\0');
    }
    if HasDrive(s) {
      assert Has(s, ':');
      JoinHas(out, separator, ':');
    }
    assert s[0] == out[0][0] && !IsSeparator(out[0][0]);
  }

  predicate SomeHas(segments: seq<string>, c: char) {
    exists i :: 0 <= i < |segments| && Has(segments[i], c)
  }

  /** A character that is no separator lies in the split text exactly when it
      lies in one of the segments. */
  lemma {:induction false} SplitHasIff(s: string, from: nat, c: char)
    requires from <= |s| && !IsSeparator(c)
    ensures SomeHas(SplitFrom(s, from), c) <==> exists i :: from <= i < |s| && s[i] == c
    decreases |s| - from
  {
    var k, segments := SeparatorFrom(s, from), SplitFrom(s, from);
    var head := segments[0];
    assert head == s[from..k];
    assert Has(head, c) <==> exists i :: from <= i < k && s[i] == c by {
      assert forall j :: 0 <= j < |head| ==> head[j] == s[from + j];
      assert forall i :: from <= i < k ==> s[i] == head[i - from];
    }
    if k < |s| {
      var rest := SplitFrom(s, k + 1);
      SplitHasIff(s, k + 1, c);
      HeadOrRest(head, rest, c);
    } else {
      assert segments == [head];
    }
  }

  lemma HeadOrRest(head: string, rest: seq<string>, c: char)
    ensures SomeHas([head] + rest, c) <==> Has(head, c) || SomeHas(rest, c)
  {
    var all := [head] + rest;
    assert all[0] == head;
    if i :| 0 <= i < |rest| && Has(rest[i], c) {
      assert Has(all[i + 1], c);
    }
    if i :| 0 <= i < |all| && Has(all[i], c) {
      assert i > 0 ==> Has(rest[i - 1], c);
    }
  }

  predicate NoneRefused(segments: seq<string>, n: nat)
    requires n <= |segments|
  {
    forall i :: 0 <= i < n ==> !Refused(segments[i])
  }

  predicate AllSkipped(segments: seq<string>, n: nat)
    requires n <= |segments|
  {
    forall i :: 0 <= i < n ==> Skipped(segments[i])
  }

  lemma {:induction false} KeptIff(segments: seq<string>, n: nat)
    requires n <= |segments|
    ensures Kept(segments, n).Some? <==> NoneRefused(segments, n)
    ensures Kept(segments, n).Some? ==> (Kept(segments, n).value == [] <==> AllSkipped(segments, n))
  {
    if n > 0 {
      KeptIff(segments, n - 1);
      var segment := segments[n - 1];
      assert NoneRefused(segments, n) <==> NoneRefused(segments, n - 1) && !Refused(segment);
      assert AllSkipped(segments, n) <==> AllSkipped(segments, n - 1) && Skipped(segment);
      assert Skipped(segment) ==> !Refused(segment);
    }
  }

  /** What is accepted, said of the whole name: a relative one, without colon,
      NUL or `..`, that names something. */
  lemma AcceptedIff(raw: string)
    ensures Sanitized(raw).Some? <==>
            && raw != "" && raw[0] != '/' && raw[0] != '\\' && ':' !in raw && '\0' !in raw
            && (forall i :: 0 <= i < |Split(raw)| ==> Split(raw)[i] != "..")
            && (exists i :: 0 <= i < |Split(raw)| && Split(raw)[i] != "" && Split(raw)[i] != ".")
  {
    var segments := Split(raw);
    KeptIff(segments, |segments|);
    SplitHasIff(raw, 0, ':');
    SplitHasIff(raw, 0, '\0');
    assert HasDrive(raw) ==> Has(raw, ':');
    assert NoneRefused(segments, |segments|) <==>
           !Has(raw, ':') && !Has(raw, '\0') && forall i :: 0 <= i < |segments| ==> segments[i] != "..";
  }
}
