/**
 The file name under which a reference is stored and cached.

 `hash8` stands for the first eight hex digits of the SHA-256 of the raw key.
 */
module Safekeys {
  import opened Strings
  import opened Refs

  const KEY_MAX := 192

  predicate IsSafe(c: char) {
    IsAlpha(c) || IsDigit(c) || c in "._-"
  }

  /** ASCII letters and digits, dots, underscores and hyphens alone. */
  predicate Safe(s: string) {
    forall i :: 0 <= i < |s| ==>
      || 'a' <= s[i] <= 'z' || 'A' <= s[i] <= 'Z' || '0' <= s[i] <= '9'
      || s[i] == '.' || s[i] == '_' || s[i] == '-'
  }

  predicate Hex(s: string) {
    forall i :: 0 <= i < |s| ==> IsDigit(s[i]) || 'a' <= s[i] <= 'f'
  }

  ghost predicate EightHexDigits(hash8: string -> string) {
    forall s :: |hash8(s)| == 8 && Hex(hash8(s))
  }

  function Escape(s: string): (e: string)
    ensures |e| == |s|
  {
    seq(|s|, i requires 0 <= i < |s| => if IsSafe(s[i]) then s[i] else '_')
  }

  function Collapse(s: string): string {
    if s == "" then "" else
      var front, last := Collapse(s[..|s| - 1]), s[|s| - 1];
      if last == '_' && |s| > 1 && s[|s| - 2] == '_' then front else front + [last]
  }

  function TrimStart(s: string): string {
    if s != "" && s[0] == '_' then TrimStart(s[1..]) else s
  }

  function TrimEnd(s: string): string {
    if s != "" && s[|s| - 1] == '_' then TrimEnd(s[..|s| - 1]) else s
  }

  function RawKey(r: Ref): string {
    match r
    case Doi(id) => "doi_" + id
    case Arxiv(id) => "arxiv_" + id
  }

  function Trimmed(raw: string): string {
    TrimEnd(TrimStart(Collapse(Escape(raw))))
  }

  function KeyOf(r: Ref, hash8: string -> string): string {
    var raw := RawKey(r);
    var trimmed := Trimmed(raw);
    if |trimmed| > KEY_MAX then trimmed[..KEY_MAX] + "_" + hash8(raw) else trimmed
  }

  lemma CollapseNext(s: string, i: nat)
    requires i < |s|
    ensures Collapse(s[..i + 1])
         == if s[i] == '_' && i > 0 && s[i - 1] == '_' then Collapse(s[..i]) else Collapse(s[..i]) + [s[i]]
  {
    assert s[..i + 1][..i] == s[..i];
  }

  method Safekey(r: Ref, hash8: string -> string) returns (key: string)
    ensures key == KeyOf(r, hash8)
  {
    var raw := RawKey(r);
    var escaped := Escape(raw);
    var collapsed, lastWasUnderscore := "", false;
    for i := 0 to |escaped|
      invariant collapsed == Collapse(escaped[..i])
      invariant lastWasUnderscore <==> i > 0 && escaped[i - 1] == '_'
    {
      CollapseNext(escaped, i);
      if escaped[i] == '_' {
        if !lastWasUnderscore {
          collapsed := collapsed + ['_'];
        }
        lastWasUnderscore := true;
      } else {
        collapsed := collapsed + [escaped[i]];
        lastWasUnderscore := false;
      }
    }
    assert escaped[..|escaped|] == escaped;
    var trimmed := TrimEnd(TrimStart(collapsed));
    key := if |trimmed| > KEY_MAX then trimmed[..KEY_MAX] + "_" + hash8(raw) else trimmed;
  }

  // ---- What a key looks like ----

  lemma {:induction false} CollapseSafe(s: string)
    requires Safe(s)
    ensures Safe(Collapse(s)) && |Collapse(s)| <= |s|
    ensures s != "" ==> Collapse(s) != "" && Collapse(s)[0] == s[0]
  {
    if |s| > 1 {
      CollapseSafe(s[..|s| - 1]);
    }
  }

  lemma {:induction false} TrimEndSafe(s: string)
    requires Safe(s)
    ensures Safe(TrimEnd(s)) && TrimEnd(s) <= s
    ensures s != "" && s[0] != '_' ==> TrimEnd(s) != ""
  {
    if s != "" && s[|s| - 1] == '_' {
      TrimEndSafe(s[..|s| - 1]);
    }
  }

  lemma TrimmedSafe(raw: string)
    requires raw != "" && IsAlpha(raw[0])
    ensures var t := Trimmed(raw); Safe(t) && t != "" && t[0] == raw[0]
  {
    CollapseSafe(Escape(raw));
    TrimEndSafe(Collapse(Escape(raw)));
  }

  /** Every key is path-safe and bounded, and its first letter tells the kind
      of reference, so the key of a DOI is never that of an arXiv id. */
  lemma KeyIsSafe(r: Ref, hash8: string -> string)
    requires EightHexDigits(hash8)
    ensures var key := KeyOf(r, hash8);
            && Safe(key) && 0 < |key| <= 201
            && key[0] == if r.Doi? then 'd' else 'a'
  {
    TrimmedSafe(RawKey(r));
    assert |hash8(RawKey(r))| == 8 && Hex(hash8(RawKey(r)));
  }

  // ---- When two references share a key ----

  /** An underscore, and whatever becomes one. */
  predicate Separates(c: char) {
    !('a' <= c <= 'z' || 'A' <= c <= 'Z' || '0' <= c <= '9' || c == '.' || c == '-')
  }

  function Extended(parts: seq<string>, c: char): seq<string> {
    if parts == [] then [[c]] else parts[..|parts| - 1] + [parts[|parts| - 1] + [c]]
  }

  predicate EndsPart(s: string) {
    s == "" || Separates(s[|s| - 1])
  }

  /** The parts of a text between its separators. Empty ones do not count. */
  function Parts(s: string): seq<string> {
    if s == "" then [] else
      var front, last := s[..|s| - 1], s[|s| - 1];
      if Separates(last) then Parts(front)
      else if EndsPart(front) then Parts(front) + [[last]]
      else Extended(Parts(front), last)
  }

  function Joined(parts: seq<string>): string {
    if parts == [] then ""
    else if |parts| == 1 then parts[0]
    else Joined(parts[..|parts| - 1]) + "_" + parts[|parts| - 1]
  }

  predicate Solid(part: string) {
    part != "" && forall i :: 0 <= i < |part| ==> !Separates(part[i])
  }

  predicate AllSolid(parts: seq<string>) {
    forall i :: 0 <= i < |parts| ==> Solid(parts[i])
  }

  lemma {:induction false} PartsAreSolid(s: string)
    ensures AllSolid(Parts(s)) && (!EndsPart(s) ==> Parts(s) != [])
  {
    if s != "" {
      PartsAreSolid(s[..|s| - 1]);
    }
  }

  lemma {:induction false} PartsOfEscaped(s: string)
    ensures Parts(Escape(s)) == Parts(s)
  {
    if s != "" {
      var front, last := s[..|s| - 1], s[|s| - 1];
      PartsOfEscaped(front);
      assert Escape(s)[..|s| - 1] == Escape(front);
      assert Separates(Escape(s)[|s| - 1]) <==> Separates(last);
      assert EndsPart(Escape(front)) <==> EndsPart(front);
    }
  }

  lemma JoinedSnoc(parts: seq<string>, part: string)
    ensures Joined(parts + [part]) == if parts == [] then part else Joined(parts) + "_" + part
  {
    assert (parts + [part])[..|parts|] == parts;
  }

  lemma JoinedExtended(parts: seq<string>, c: char)
    ensures Joined(Extended(parts, c)) == Joined(parts) + [c]
  {
    if parts != [] {
      var front, last := parts[..|parts| - 1], parts[|parts| - 1];
      assert parts == front + [last];
      JoinedSnoc(front, last);
      JoinedSnoc(front, last + [c]);
      assert Joined(front) + "_" + (last + [c]) == Joined(front) + "_" + last + [c];
    }
  }

  /** Collapsing leaves the parts with one underscore between them, and one
      more behind the last if the text ends in some. */
  lemma {:induction false} CollapsedIs(s: string)
    requires Safe(s) && s != "" && s[0] != '_'
    ensures Parts(s) != []
    ensures Collapse(s) == Joined(Parts(s)) + if s[|s| - 1] == '_' then "_" else ""
  {
    var front, last := s[..|s| - 1], s[|s| - 1];
    assert IsSafe(last);
    if front == "" {
      assert Parts(front) == [] && Collapse(front) == "";
      assert Parts(s) == [[last]];
    } else {
      var open := front[|front| - 1] == '_';
      assert IsSafe(front[|front| - 1]) && EndsPart(front) == open;
      CollapsedIs(front);
      if last == '_' {
        assert Collapse(s) == if open then Collapse(front) else Collapse(front) + "_";
      } else if open {
        JoinedSnoc(Parts(front), [last]);
        assert Collapse(s) == Collapse(front) + [last];
      } else {
        JoinedExtended(Parts(front), last);
        assert Collapse(s) == Collapse(front) + [last];
      }
    }
  }

  lemma JoinedEnds(parts: seq<string>)
    requires parts != [] && AllSolid(parts)
    ensures Joined(parts) != "" && Joined(parts)[|Joined(parts)| - 1] != '_'
  {
    var last := parts[|parts| - 1];
    assert Solid(last);
    assert !Separates(last[|last| - 1]);
    if |parts| > 1 {
      var j := Joined(parts[..|parts| - 1]) + "_" + last;
      assert Joined(parts) == j && j[|j| - 1] == last[|last| - 1];
    }
  }

  /** The key's text before it is cut: its parts, one underscore between. */
  lemma TrimmedIsJoined(raw: string)
    requires raw != "" && IsAlpha(raw[0])
    ensures Trimmed(raw) == Joined(Parts(raw))
  {
    var e := Escape(raw);
    PartsOfEscaped(raw);
    CollapsedIs(e);
    CollapseSafe(e);
    PartsAreSolid(e);
    JoinedEnds(Parts(e));
    TrimEndIgnores(Joined(Parts(e)));
  }

  lemma PartsSnoc(s: string, c: char)
    ensures Parts(s + [c]) == if Separates(c) then Parts(s)
                              else if EndsPart(s) then Parts(s) + [[c]]
                              else Extended(Parts(s), c)
  {
    assert (s + [c])[..|s|] == s;
  }

  /** One more character goes on behind other parts as it does on its own. */
  lemma PartsGrow(a: string, front: string, c: char)
    requires EndsPart(a) && PartsAdd(a, front)
    ensures Parts(a + front + [c]) == Parts(a) + Parts(front + [c])
  {
    PartsSnoc(front, c);
    PartsSnoc(a + front, c);
    assert EndsPart(a + front) <==> EndsPart(front) by {
      assert front == "" ==> a + front == a;
      assert front != "" ==> (a + front)[|a + front| - 1] == front[|front| - 1];
    }
    if !Separates(c) && !EndsPart(front) {
      PartsAreSolid(front);
      ExtendedAppend(Parts(a), Parts(front), c);
    }
  }

  lemma SnocIs(a: string, b: string)
    requires b != ""
    ensures b == b[..|b| - 1] + [b[|b| - 1]] && a + b == a + b[..|b| - 1] + [b[|b| - 1]]
  {
  }

  ghost predicate PartsAdd(a: string, b: string) {
    Parts(a + b) == Parts(a) + Parts(b)
  }

  lemma {:induction false} PartsAppend(a: string, b: string)
    requires EndsPart(a)
    ensures PartsAdd(a, b)
    decreases |b|
  {
    if b == "" {
      assert a + b == a && Parts(a) + [] == Parts(a);
    } else {
      var front := b[..|b| - 1];
      PartsAppend(a, front);
      PartsGrow(a, front, b[|b| - 1]);
      SnocIs(a, b);
    }
  }

  lemma ExtendedAppend(x: seq<string>, y: seq<string>, c: char)
    requires y != []
    ensures Extended(x + y, c) == x + Extended(y, c)
  {
    assert (x + y)[..|x + y| - 1] == x + y[..|y| - 1];
  }

  lemma {:induction false} PartsOfSolid(part: string)
    requires Solid(part)
    ensures Parts(part) == [part]
  {
    var front := part[..|part| - 1];
    assert part == front + [part[|part| - 1]];
    if front == "" {
      assert Parts(front) == [];
    } else {
      assert forall i :: 0 <= i < |front| ==> front[i] == part[i];
      PartsOfSolid(front);
    }
  }

  lemma {:induction false} PartsOfJoined(parts: seq<string>)
    requires AllSolid(parts)
    ensures Parts(Joined(parts)) == parts
  {
    if parts != [] {
      var front, last := parts[..|parts| - 1], parts[|parts| - 1];
      assert parts == front + [last];
      assert Solid(last);
      PartsOfSolid(last);
      if front != [] {
        var head := Joined(front) + "_";
        PartsOfJoined(front);
        assert head[..|head| - 1] == Joined(front);
        PartsAppend(head, last);
      }
    }
  }

  /** Two references share a key exactly when they have the same parts; or, for
      keys that are cut, when they agree in the first 192 characters of the
      joined parts and collide on the eight hash digits. */
  lemma KeysCollideIff(q: Ref, r: Ref, hash8: string -> string)
    requires EightHexDigits(hash8)
    ensures var a, b := Parts(RawKey(q)), Parts(RawKey(r));
            KeyOf(q, hash8) == KeyOf(r, hash8) <==>
            if |Joined(a)| <= KEY_MAX && |Joined(b)| <= KEY_MAX then a == b
            else && |Joined(a)| > KEY_MAX && |Joined(b)| > KEY_MAX
                 && Joined(a)[..KEY_MAX] == Joined(b)[..KEY_MAX]
                 && hash8(RawKey(q)) == hash8(RawKey(r))
  {
    var a, b := Parts(RawKey(q)), Parts(RawKey(r));
    TrimmedIsJoined(RawKey(q));
    TrimmedIsJoined(RawKey(r));
    PartsAreSolid(RawKey(q));
    PartsAreSolid(RawKey(r));
    PartsOfJoined(a);
    PartsOfJoined(b);
    if |Joined(a)| > KEY_MAX && |Joined(b)| > KEY_MAX {
      CutEqualIff(Joined(a)[..KEY_MAX], hash8(RawKey(q)), Joined(b)[..KEY_MAX], hash8(RawKey(r)));
    }
  }

  lemma CutEqualIff(a: string, x: string, b: string, y: string)
    requires |a| == |b|
    ensures a + "_" + x == b + "_" + y <==> a == b && x == y
  {
    var p, q := a + "_" + x, b + "_" + y;
    assert p[..|a|] == a && q[..|b|] == b;
    assert p[|a| + 1..] == x && q[|b| + 1..] == y;
  }

  /** Two DOIs whose keys are not cut share one exactly when their ids have the
      same parts. */
  lemma DoiKeysCollideIff(a: string, b: string, hash8: string -> string)
    requires EightHexDigits(hash8)
    requires |Joined(["doi"] + Parts(a))| <= KEY_MAX && |Joined(["doi"] + Parts(b))| <= KEY_MAX
    ensures KeyOf(Doi(a), hash8) == KeyOf(Doi(b), hash8) <==> Parts(a) == Parts(b)
  {
    PartsOfDoi(a);
    PartsOfDoi(b);
    KeysCollideIff(Doi(a), Doi(b), hash8);
    assert (["doi"] + Parts(a))[1..] == Parts(a) && (["doi"] + Parts(b))[1..] == Parts(b);
  }

  lemma PartsOfDoi(id: string)
    ensures Parts(RawKey(Doi(id))) == ["doi"] + Parts(id)
  {
    assert "doi_"[..3] == "doi";
    PartsOfSolid("doi");
    assert Parts("doi_") == Parts("doi");
    PartsAppend("doi_", id);
  }

  /** The key of a DOI, exactly. */
  lemma DoiKeyIs(id: string, hash8: string -> string)
    ensures var text := Joined(["doi"] + Parts(id));
            KeyOf(Doi(id), hash8) == if |text| <= 192 then text else text[..192] + "_" + hash8("doi_" + id)
  {
    PartsOfDoi(id);
    TrimmedIsJoined(RawKey(Doi(id)));
  }

  // ---- What the documentation asks of a key ----

  /** The documentation allows 200 characters. A key that is cut has 201, and no
      other has more than 192. */
  lemma KeyIsTooLongIff(r: Ref, hash8: string -> string)
    requires EightHexDigits(hash8)
    ensures |KeyOf(r, hash8)| > 200 <==> |Joined(Parts(RawKey(r)))| > KEY_MAX
    ensures |KeyOf(r, hash8)| > 200 ==> |KeyOf(r, hash8)| == 201
  {
    TrimmedIsJoined(RawKey(r));
    assert |hash8(RawKey(r))| == 8;
  }

  lemma JoinedThree(a: string, b: string, c: string)
    ensures Joined([a, b, c]) == a + "_" + b + "_" + c
  {
    JoinedSnoc([a], b);
    JoinedSnoc([a, b], c);
    assert [a] + [b] == [a, b] && [a, b] + [c] == [a, b, c];
    assert Joined([a]) == a;
  }

  lemma PartsOfTwo(a: string, b: string)
    requires Solid(a) && Solid(b)
    ensures Parts(a + "/" + b) == [a, b]
  {
    assert (a + "/")[..|a|] == a;
    PartsOfSolid(a);
    PartsOfSolid(b);
    PartsAppend(a + "/", b);
  }

  lemma SolidIsDoiSuffix(s: string)
    requires Solid(s)
    ensures DoiSuffix(s)
  {
    forall i | 0 <= i < |s| ensures IsDoiSuffixChar(s[i]) {
      assert !Separates(s[i]);
    }
  }

  lemma LongKeyOfTwo(head: string, s: string, hash8: string -> string)
    requires EightHexDigits(hash8) && Solid(head) && Solid(s) && 5 + |head| + |s| > KEY_MAX
    ensures |KeyOf(Doi(head + "/" + s), hash8)| == 201
  {
    var id := head + "/" + s;
    PartsOfTwo(head, s);
    PartsOfDoi(id);
    assert ["doi"] + [head, s] == ["doi", head, s];
    JoinedThree("doi", head, s);
    KeyIsTooLongIff(Doi(id), hash8);
  }

  /** The key of a DOI whose suffix is one part, with 181 characters or more, is
      longer. */
  lemma LongDoiKey(s: string, hash8: string -> string)
    requires EightHexDigits(hash8) && Solid(s) && 181 <= |s| <= DOI_SUFFIX_MAX_LEN
    ensures DoiShape("10.1234/" + s) && |KeyOf(Doi("10.1234/" + s), hash8)| == 201
  {
    SolidIsDoiSuffix(s);
    assert DoiParts("10.1234/" + s, "1234", s);
    assert "10.1234/" + s == "10.1234" + "/" + s;
    LongKeyOfTwo("10.1234", s, hash8);
  }

  predicate DotsAt(s: string, i: nat) {
    i + 1 < |s| && s[i] == '.' && s[i + 1] == '.'
  }

  ghost predicate TwoDots(s: string) {
    exists i: nat :: DotsAt(s, i)
  }

  lemma TwoDotsAppend(a: string, b: string)
    ensures TwoDots(a + b) <==>
            TwoDots(a) || TwoDots(b) || (a != "" && b != "" && a[|a| - 1] == '.' && b[0] == '.')
  {
    var s := a + b;
    if i: nat :| DotsAt(s, i) {
      if i + 1 < |a| {
        assert DotsAt(a, i);
      } else if i >= |a| {
        assert DotsAt(b, i - |a|);
      }
    }
    if i: nat :| DotsAt(a, i) {
      assert DotsAt(s, i);
    }
    if i: nat :| DotsAt(b, i) {
      assert DotsAt(s, |a| + i);
    }
    if a != "" && b != "" && a[|a| - 1] == '.' && b[0] == '.' {
      assert DotsAt(s, |a| - 1);
    }
  }

  lemma NoTwoDots(s: string)
    requires |s| <= 1 || forall i :: 0 <= i < |s| ==> s[i] != '.'
    ensures !TwoDots(s)
  {
  }

  lemma TwoDotsSnoc(s: string, c: char)
    ensures TwoDots(s + [c]) <==> TwoDots(s) || (c == '.' && s != "" && s[|s| - 1] == '.')
  {
    TwoDotsAppend(s, [c]);
    NoTwoDots([c]);
  }

  lemma EscapeKeepsDots(s: string)
    ensures TwoDots(Escape(s)) <==> TwoDots(s)
  {
    assert forall i: nat :: DotsAt(Escape(s), i) <==> DotsAt(s, i);
  }

  lemma {:induction false} CollapseKeepsDots(s: string)
    ensures TwoDots(Collapse(s)) <==> TwoDots(s)
    ensures s != "" ==> Collapse(s) != "" && Collapse(s)[|Collapse(s)| - 1] == s[|s| - 1]
  {
    if s != "" {
      var front, last := s[..|s| - 1], s[|s| - 1];
      CollapseKeepsDots(front);
      assert s == front + [last];
      TwoDotsSnoc(front, last);
      TwoDotsSnoc(Collapse(front), last);
    }
  }

  lemma {:induction false} TrimEndKeepsDots(s: string)
    ensures TwoDots(TrimEnd(s)) <==> TwoDots(s)
  {
    if s != "" && s[|s| - 1] == '_' {
      var front := s[..|s| - 1];
      TrimEndKeepsDots(front);
      assert s == front + ['_'];
      TwoDotsSnoc(front, '_');
    }
  }

  lemma TrimmedKeepsDots(r: Ref)
    ensures TwoDots(Trimmed(RawKey(r))) <==> TwoDots(r.id)
  {
    var raw := RawKey(r);
    var prefix := if r.Doi? then "doi_" else "arxiv_";
    TwoDotsAppend(prefix, r.id);
    NoTwoDots(prefix);
    EscapeKeepsDots(raw);
    CollapseKeepsDots(Escape(raw));
    CollapseSafe(Escape(raw));
    TrimEndKeepsDots(Collapse(Escape(raw)));
  }

  /** The documentation forbids two dots in a row, too. A key that is not cut has
      them exactly when the id does, and one that is cut exactly when the text
      does that it is cut to. */
  lemma KeyHasTwoDotsIff(r: Ref, hash8: string -> string)
    requires EightHexDigits(hash8)
    ensures var joined := Joined(Parts(RawKey(r)));
            TwoDots(KeyOf(r, hash8)) <==>
            if |joined| <= KEY_MAX then TwoDots(r.id) else TwoDots(joined[..KEY_MAX])
  {
    var t, hex := Trimmed(RawKey(r)), hash8(RawKey(r));
    TrimmedIsJoined(RawKey(r));
    TrimmedKeepsDots(r);
    assert Hex(hex);
    if |t| > KEY_MAX {
      TwoDotsAppend(t[..KEY_MAX] + "_", hex);
      TwoDotsSnoc(t[..KEY_MAX], '_');
      NoTwoDots(hex);
    }
  }

  /** No arXiv key has them. */
  lemma ArxivKeyHasNoTwoDots(id: string, hash8: string -> string)
    requires ArxivShape(id) && EightHexDigits(hash8)
    ensures !TwoDots(KeyOf(Arxiv(id), hash8))
  {
    ArxivHasNoTwoDots(id);
    KeyHasTwoDotsIff(Arxiv(id), hash8);
    var joined := Joined(Parts(RawKey(Arxiv(id))));
    TrimmedIsJoined(RawKey(Arxiv(id)));
    TrimmedKeepsDots(Arxiv(id));
    if |joined| > KEY_MAX {
      TwoDotsAppend(joined[..KEY_MAX], joined[KEY_MAX..]);
      assert joined[..KEY_MAX] + joined[KEY_MAX..] == joined;
    }
  }

  lemma ArxivHasNoTwoDots(id: string)
    requires ArxivShape(id)
    ensures !TwoDots(id)
  {
    if date, number, version :| NewParts(id, date, number, version) {
      VersionChars(version);
      forall i: nat ensures !DotsAt(id, i) {
        assert id[4] == '.' && forall j :: 0 <= j < |id| && j != 4 ==> id[j] != '.';
      }
    } else {
      var archive, group, number, version :| OldParts(id, archive, group, number, version);
      VersionChars(version);
      forall i: nat ensures !DotsAt(id, i) {
        assert forall j :: 0 <= j < |id| && j != |archive| ==> id[j] != '.';
      }
    }
  }

  /** The key of this DOI does. */
  lemma DottedDoiKey(hash8: string -> string)
    requires EightHexDigits(hash8)
    ensures DoiShape("10.1234/a..b") && TwoDots(KeyOf(Doi("10.1234/a..b"), hash8))
  {
    var id := "10.1234/a..b";
    assert DoiParts(id, "1234", "a..b");
    assert DotsAt(id, 9);
    TrimmedKeepsDots(Doi(id));
    KeyHasTwoDotsIff(Doi(id), hash8);
    CollapseSafe(Escape(RawKey(Doi(id))));
    TrimEndSafe(Collapse(Escape(RawKey(Doi(id)))));
    TrimmedIsJoined(RawKey(Doi(id)));
  }

  // ---- arXiv keys are faithful ----

  function Underscored(id: string): (u: string)
    ensures |u| == |id|
  {
    seq(|id|, i requires 0 <= i < |id| => if id[i] == '/' then '_' else id[i])
  }

  function Unkey(key: string): string
    requires |key| >= 6
  {
    seq(|key| - 6, i requires 0 <= i < |key| - 6 => if key[i + 6] == '_' then '/' else key[i + 6])
  }

  /** The one position of a slash in an arXiv id, if it has one. */
  lemma ArxivSlash(id: string) returns (k: nat)
    requires ArxivShape(id)
    ensures id != "" && 0 < k && k != |id| - 1
    ensures forall i :: 0 <= i < |id| ==> (id[i] == '/' <==> i == k)
  {
    if date, number, version :| NewParts(id, date, number, version) {
      VersionChars(version);
      k := |id|;
    } else {
      var archive, group, number, version :| OldParts(id, archive, group, number, version);
      VersionChars(version);
      k := |archive + group|;
    }
  }

  ghost predicate Doubled(s: string, i: nat)
    requires i + 1 < |s|
  {
    s[i] == '_' && s[i + 1] == '_'
  }

  lemma {:induction false} CollapseNothing(s: string)
    requires forall i: nat :: i + 1 < |s| ==> !Doubled(s, i)
    ensures Collapse(s) == s
  {
    if |s| > 1 {
      var front := s[..|s| - 1];
      forall i: nat | i + 1 < |front| ensures !Doubled(front, i) {
        assert !Doubled(s, i);
      }
      CollapseNothing(front);
      assert !Doubled(s, |s| - 2);
      assert s == front + [s[|s| - 1]];
    }
  }

  lemma ArxivEscaped(id: string)
    requires forall i :: 0 <= i < |id| ==> IsArxivChar(id[i])
    ensures Escape("arxiv_" + id) == "arxiv_" + Underscored(id)
  {
    forall i | 0 <= i < |id| ensures Escape("arxiv_" + id)[i + 6] == Underscored(id)[i] {
      assert IsArxivChar(id[i]);
    }
  }

  lemma ArxivNotDoubled(id: string)
    requires ArxivShape(id)
    ensures var e := "arxiv_" + Underscored(id);
            e[|e| - 1] != '_' && forall i: nat :: i + 1 < |e| ==> !Doubled(e, i)
  {
    ArxivChars(id);
    var k := ArxivSlash(id);
    var e := "arxiv_" + Underscored(id);
    assert forall i :: 0 <= i < |id| ==> (Underscored(id)[i] == '_' <==> i == k);
    assert e[..6] == "arxiv_" && e[5] == '_';
    forall i: nat | i + 1 < |e| ensures !Doubled(e, i) {
      if i >= 6 {
        assert e[i] == Underscored(id)[i - 6] && e[i + 1] == Underscored(id)[i - 5];
      } else if i == 5 {
        assert e[6] == Underscored(id)[0];
      } else {
        assert e[i] == "arxiv_"[i];
      }
    }
  }

  lemma ArxivTrimmed(id: string)
    requires ArxivShape(id)
    ensures Trimmed(RawKey(Arxiv(id))) == "arxiv_" + Underscored(id)
  {
    ArxivChars(id);
    ArxivEscaped(id);
    ArxivNotDoubled(id);
    CollapseNothing("arxiv_" + Underscored(id));
  }

  lemma UnkeyIsInverse(id: string)
    requires forall i :: 0 <= i < |id| ==> IsArxivChar(id[i])
    ensures Unkey("arxiv_" + Underscored(id)) == id
  {
    var key := "arxiv_" + Underscored(id);
    forall i | 0 <= i < |id| ensures Unkey(key)[i] == id[i] {
      assert key[i + 6] == Underscored(id)[i];
      assert IsArxivChar(id[i]);
    }
  }

  /** Up to 186 characters an arXiv key carries its id, which can be read off it. */
  lemma ArxivKeyRoundTrips(id: string, hash8: string -> string)
    requires ArxivShape(id) && |id| <= 186
    ensures var key := KeyOf(Arxiv(id), hash8); |key| == 6 + |id| && Unkey(key) == id
  {
    ArxivTrimmed(id);
    ArxivChars(id);
    UnkeyIsInverse(id);
  }

  lemma UnderscoredInjective(a: string, b: string)
    requires forall i :: 0 <= i < |a| ==> IsArxivChar(a[i])
    requires forall i :: 0 <= i < |b| ==> IsArxivChar(b[i])
    requires Underscored(a) == Underscored(b)
    ensures a == b
  {
    assert |a| == |b|;
    forall i | 0 <= i < |a| ensures a[i] == b[i] {
      assert Underscored(a)[i] == Underscored(b)[i];
      assert IsArxivChar(a[i]) && IsArxivChar(b[i]);
    }
  }

  /** Two different arXiv ids share a key exactly when both are longer than 186
      characters, agree on the first 186 and collide on the eight hash digits. */
  lemma ArxivKeysCollideIff(a: string, b: string, hash8: string -> string)
    requires ArxivShape(a) && ArxivShape(b) && a != b && EightHexDigits(hash8)
    ensures KeyOf(Arxiv(a), hash8) == KeyOf(Arxiv(b), hash8) <==>
            && |a| > 186 && |b| > 186 && a[..186] == b[..186]
            && hash8(RawKey(Arxiv(a))) == hash8(RawKey(Arxiv(b)))
  {
    if |a| > 186 && |b| > 186 {
      LongKeysEqualIff(a, b, hash8);
    } else if |a| <= 186 && |b| <= 186 {
      ArxivKeyRoundTrips(a, hash8);
      ArxivKeyRoundTrips(b, hash8);
    } else {
      ArxivKeyIs(a, hash8);
      ArxivKeyIs(b, hash8);
      assert |KeyOf(Arxiv(a), hash8)| != |KeyOf(Arxiv(b), hash8)|;
    }
  }

  lemma LongKeysEqualIff(a: string, b: string, hash8: string -> string)
    requires ArxivShape(a) && ArxivShape(b) && |a| > 186 && |b| > 186 && EightHexDigits(hash8)
    ensures KeyOf(Arxiv(a), hash8) == KeyOf(Arxiv(b), hash8) <==>
            a[..186] == b[..186] && hash8(RawKey(Arxiv(a))) == hash8(RawKey(Arxiv(b)))
  {
    ArxivKeyIs(a, hash8);
    ArxivKeyIs(b, hash8);
    var ha, hb := hash8(RawKey(Arxiv(a))), hash8(RawKey(Arxiv(b)));
    CutEqualIff("arxiv_" + Underscored(a[..186]), ha, "arxiv_" + Underscored(b[..186]), hb);
    assert ("arxiv_" + Underscored(a[..186]))[6..] == Underscored(a[..186]);
    assert ("arxiv_" + Underscored(b[..186]))[6..] == Underscored(b[..186]);
    ArxivChars(a);
    ArxivChars(b);
    if Underscored(a[..186]) == Underscored(b[..186]) {
      UnderscoredInjective(a[..186], b[..186]);
    }
  }

  /** The key of an arXiv id, exactly. */
  lemma ArxivKeyIs(id: string, hash8: string -> string)
    requires ArxivShape(id) && EightHexDigits(hash8)
    ensures KeyOf(Arxiv(id), hash8) ==
            if |id| <= 186 then "arxiv_" + Underscored(id)
            else "arxiv_" + Underscored(id[..186]) + "_" + hash8("arxiv_" + id)
  {
    ArxivTrimmed(id);
    if |id| > 186 {
      LongCut(id);
    }
  }

  lemma LongCut(id: string)
    requires |id| > 186
    ensures ("arxiv_" + Underscored(id))[..KEY_MAX] == "arxiv_" + Underscored(id[..186])
  {
    var u := Underscored(id);
    assert ("arxiv_" + u)[..KEY_MAX] == "arxiv_" + u[..186];
    assert u[..186] == Underscored(id[..186]);
  }

  /** The two caches name an entry by the key inside a directory of their own. */
  function CacheFile(root: string, directory: string, id: string, hash8: string -> string): string {
    root + "/" + directory + "/" + KeyOf(Arxiv(id), hash8) + ".json"
  }

  lemma CacheFilesAreDistinct(root: string, directory: string, a: string, b: string, hash8: string -> string)
    requires ArxivShape(a) && ArxivShape(b) && |a| <= 186 && |b| <= 186 && EightHexDigits(hash8)
    ensures CacheFile(root, directory, a, hash8) == CacheFile(root, directory, b, hash8) <==> a == b
  {
    var head := root + "/" + directory + "/";
    var x, y := CacheFile(root, directory, a, hash8), CacheFile(root, directory, b, hash8);
    assert x[|head|..|x| - 5] == KeyOf(Arxiv(a), hash8);
    assert y[|head|..|y| - 5] == KeyOf(Arxiv(b), hash8);
    if a != b {
      ArxivKeysCollideIff(a, b, hash8);
    }
  }

  // ---- DOI keys are not ----

  lemma {:induction false} TrimEndIgnores(s: string)
    ensures TrimEnd(s + "_") == TrimEnd(s)
  {
    assert (s + "_")[..|s|] == s;
  }

  /** No DOI owns its key: unless its suffix has the maximal length or its key
      is cut, the DOI with an underscore added is a different valid DOI with
      the same key. */
  lemma DoiKeyIsShared(id: string, registrant: string, suffix: string, hash8: string -> string)
    requires DoiParts(id, registrant, suffix) && |suffix| < DOI_SUFFIX_MAX_LEN
    requires |Trimmed(RawKey(Doi(id)))| <= KEY_MAX
    ensures DoiShape(id + "_") && KeyOf(Doi(id + "_"), hash8) == KeyOf(Doi(id), hash8)
  {
    assert id + "_" == "10." + registrant + "/" + (suffix + "_");
    assert DoiParts(id + "_", registrant, suffix + "_");
    TrimmedIgnores(RawKey(Doi(id)));
    assert RawKey(Doi(id + "_")) == RawKey(Doi(id)) + "_";
  }

  lemma TrimmedIgnores(raw: string)
    requires raw != "" && IsAlpha(raw[0])
    ensures Trimmed(raw + "_") == Trimmed(raw)
  {
    var e := Escape(raw);
    assert Escape(raw + "_") == e + "_";
    assert (e + "_")[..|e|] == e;
    CollapseSafe(e);
    TrimEndIgnores(Collapse(e));
  }
}
