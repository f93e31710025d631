/**
 Offline verification of one log file, and what a clean report is worth.
 */
module ChainVerify {
  import opened Wrappers
  import opened Provenance

  datatype IssueKind = ParseError | PrevHashMismatch | ThisHashMismatch | SequenceJump

  /** Lines are numbered from 1. */
  datatype Issue = Issue(line: nat, kind: IssueKind)

  datatype VerifyReport = VerifyReport(totalRows: nat, okRows: nat, errors: seq<Issue>)

  // ---- What the verifier reports, line by line ----

  /** The last row parsed before line index `n`, which the next row is checked
      against. */
  function Anchor<P>(lines: seq<Line<P>>, n: nat): Option<LogRow<P>>
    requires n <= |lines|
  {
    if n == 0 then None else
      match lines[n - 1]
      case Row(r) => Some(r)
      case _ => Anchor(lines, n - 1)
  }

  predicate LinkBroken<P>(anchor: Option<LogRow<P>>, r: LogRow<P>) {
    !r.Restarts() && (anchor.None? || r.body.prevHash != anchor.value.thisHash)
  }

  predicate SequenceStalls<P>(anchor: Option<LogRow<P>>, r: LogRow<P>) {
    !r.Restarts() && anchor.Some? && r.body.tsSeq <= anchor.value.body.tsSeq
  }

  predicate HasFault<P>(h: Hasher<P>, anchor: Option<LogRow<P>>, line: Line<P>, kind: IssueKind) {
    match kind
    case ParseError => !line.Blank? && !line.Row?
    case ThisHashMismatch => line.Row? && h(line.row.body) != line.row.thisHash
    case PrevHashMismatch => line.Row? && LinkBroken(anchor, line.row)
    case SequenceJump => line.Row? && SequenceStalls(anchor, line.row)
  }

  /** The order in which a line's issues are reported. */
  const KINDS := [ParseError, ThisHashMismatch, PrevHashMismatch, SequenceJump]

  function FaultsAmong<P>(kinds: seq<IssueKind>, h: Hasher<P>, anchor: Option<LogRow<P>>, line: Line<P>)
    : seq<IssueKind>
  {
    if kinds == [] then [] else
      var front, last := kinds[..|kinds| - 1], kinds[|kinds| - 1];
      FaultsAmong(front, h, anchor, line) + if HasFault(h, anchor, line, last) then [last] else []
  }

  function Faults<P>(h: Hasher<P>, anchor: Option<LogRow<P>>, line: Line<P>): seq<IssueKind> {
    FaultsAmong(KINDS, h, anchor, line)
  }

  lemma {:induction false} FaultsAmongIff<P>(kinds: seq<IssueKind>, h: Hasher<P>,
                                             anchor: Option<LogRow<P>>, line: Line<P>)
    ensures forall kind :: kind in FaultsAmong(kinds, h, anchor, line)
                           <==> kind in kinds && HasFault(h, anchor, line, kind)
  {
    if kinds != [] {
      FaultsAmongIff(kinds[..|kinds| - 1], h, anchor, line);
      assert kinds == kinds[..|kinds| - 1] + [kinds[|kinds| - 1]];
    }
  }

  lemma FaultsIff<P>(h: Hasher<P>, anchor: Option<LogRow<P>>, line: Line<P>)
    ensures forall kind :: kind in Faults(h, anchor, line) <==> HasFault(h, anchor, line, kind)
    ensures Faults(h, anchor, line) == [] <==> forall kind :: !HasFault(h, anchor, line, kind)
  {
    FaultsAmongIff(KINDS, h, anchor, line);
    forall kind ensures kind in KINDS {
      match kind {
        case ParseError => assert KINDS[0] == kind;
        case ThisHashMismatch => assert KINDS[1] == kind;
        case PrevHashMismatch => assert KINDS[2] == kind;
        case SequenceJump => assert KINDS[3] == kind;
      }
    }
    var faults := Faults(h, anchor, line);
    if faults != [] {
      assert faults[0] in faults;
    }
  }

  function AtLine(line: nat, kinds: seq<IssueKind>): seq<Issue> {
    seq(|kinds|, i requires 0 <= i < |kinds| => Issue(line, kinds[i]))
  }

  function ReportUpTo<P>(h: Hasher<P>, lines: seq<Line<P>>, n: nat): VerifyReport
    requires n <= |lines|
  {
    if n == 0 then VerifyReport(0, 0, []) else
      var before := ReportUpTo(h, lines, n - 1);
      var faults := Faults(h, Anchor(lines, n - 1), lines[n - 1]);
      if lines[n - 1].Blank? then before else
        VerifyReport(before.totalRows + 1,
                     before.okRows + (if faults == [] then 1 else 0),
                     before.errors + AtLine(n, faults))
  }

  function Report<P>(h: Hasher<P>, lines: seq<Line<P>>): VerifyReport {
    ReportUpTo(h, lines, |lines|)
  }

  // ---- What a clean file is, said of the whole file at once ----

  ghost predicate Parses<P>(lines: seq<Line<P>>) {
    forall i :: 0 <= i < |lines| ==> lines[i].Blank? || lines[i].Row?
  }

  ghost predicate Follows<P>(previous: LogRow<P>, r: LogRow<P>) {
    r.Restarts() || (r.body.prevHash == previous.thisHash && previous.body.tsSeq < r.body.tsSeq)
  }

  ghost predicate FollowsAt<P>(rows: seq<LogRow<P>>, i: int)
    requires 0 < i < |rows|
  {
    Follows(rows[i - 1], rows[i])
  }

  ghost predicate Chained<P>(h: Hasher<P>, rows: seq<LogRow<P>>) {
    && (rows != [] ==> rows[0].Restarts())
    && (forall i :: 0 <= i < |rows| ==> h(rows[i].body) == rows[i].thisHash)
    && (forall i :: 0 < i < |rows| ==> FollowsAt(rows, i))
  }

  ghost predicate Clean<P>(h: Hasher<P>, lines: seq<Line<P>>) {
    Parses(lines) && Chained(h, Rows(lines))
  }

  lemma {:induction false} AnchorIsLastRow<P>(lines: seq<Line<P>>, n: nat)
    requires n <= |lines|
    ensures var rows := Rows(lines[..n]);
            Anchor(lines, n) == if rows == [] then None else Some(rows[|rows| - 1])
  {
    if n > 0 {
      AnchorIsLastRow(lines, n - 1);
      assert lines[..n][..n - 1] == lines[..n - 1];
    }
  }

  lemma ChainedExtends<P>(h: Hasher<P>, rows: seq<LogRow<P>>, r: LogRow<P>)
    ensures Chained(h, rows + [r]) <==>
            Chained(h, rows) && h(r.body) == r.thisHash
            && (if rows == [] then r.Restarts() else Follows(rows[|rows| - 1], r))
  {
    var all := rows + [r];
    forall i | 0 < i < |rows| ensures FollowsAt(rows, i) <==> FollowsAt(all, i) {
    }
    if Chained(h, all) {
      forall i | 0 <= i < |rows| ensures h(rows[i].body) == rows[i].thisHash {
        assert all[i] == rows[i];
      }
      forall i | 0 < i < |rows| ensures FollowsAt(rows, i) {
        assert FollowsAt(all, i);
      }
      assert all[|rows|] == r && (rows == [] || (FollowsAt(all, |rows|) && all[0] == rows[0]));
    }
  }

  lemma RowFaultless<P>(h: Hasher<P>, anchor: Option<LogRow<P>>, r: LogRow<P>)
    ensures (forall kind :: !HasFault(h, anchor, Row(r), kind)) <==>
            h(r.body) == r.thisHash
            && (if anchor.None? then r.Restarts() else Follows(anchor.value, r))
  {
    assert HasFault(h, anchor, Row(r), ThisHashMismatch) <==> h(r.body) != r.thisHash;
    assert HasFault(h, anchor, Row(r), PrevHashMismatch) <==> LinkBroken(anchor, r);
    assert HasFault(h, anchor, Row(r), SequenceJump) <==> SequenceStalls(anchor, r);
  }

  lemma CleanExtends<P>(h: Hasher<P>, front: seq<Line<P>>, last: Line<P>)
    ensures var rows := Rows(front);
            Clean(h, front + [last]) <==>
            && Clean(h, front)
            && (last.Blank? || (last.Row? && h(last.row.body) == last.row.thisHash
                                && if rows == [] then last.row.Restarts()
                                   else Follows(rows[|rows| - 1], last.row)))
  {
    var lines := front + [last];
    assert lines[..|front|] == front && lines[|front|] == last;
    assert Parses(lines) <==> Parses(front) && (last.Blank? || last.Row?) by {
      assert forall i :: 0 <= i < |front| ==> lines[i] == front[i];
    }
    if last.Row? {
      ChainedExtends(h, Rows(front), last.row);
    } else {
      assert Rows(front) + [] == Rows(front);
    }
  }

  lemma AtLineIff(n: nat, kinds: seq<IssueKind>, line: nat, kind: IssueKind)
    ensures Issue(line, kind) in AtLine(n, kinds) <==> line == n && kind in kinds
  {
    if line == n && kind in kinds {
      var i :| 0 <= i < |kinds| && kinds[i] == kind;
      assert AtLine(n, kinds)[i] == Issue(line, kind);
    }
  }

  /** Line index `n` has a fault, against the last row parsed before it. */
  ghost predicate FaultAt<P>(h: Hasher<P>, lines: seq<Line<P>>, n: nat, kind: IssueKind)
    requires n < |lines|
  {
    HasFault(h, Anchor(lines, n), lines[n], kind)
  }

  ghost predicate Faultless<P>(h: Hasher<P>, lines: seq<Line<P>>, n: nat)
    requires n <= |lines|
  {
    forall j, kind :: 0 <= j < n ==> !FaultAt(h, lines, j, kind)
  }

  lemma {:induction false} IssueUpToIff<P>(h: Hasher<P>, lines: seq<Line<P>>, n: nat, line: nat, kind: IssueKind)
    requires n <= |lines|
    ensures Issue(line, kind) in ReportUpTo(h, lines, n).errors
            <==> 0 < line <= n && FaultAt(h, lines, line - 1, kind)
  {
    if n > 0 {
      IssueUpToIff(h, lines, n - 1, line, kind);
      FaultsIff(h, Anchor(lines, n - 1), lines[n - 1]);
      AtLineIff(n, Faults(h, Anchor(lines, n - 1), lines[n - 1]), line, kind);
    }
  }

  /** What can be wrong with a line behind these rows: it does not parse; its hash is not
      its own; it starts no chain, and does not name the last row's hash, or has no
      greater number. */
  ghost predicate Faulty<P>(h: Hasher<P>, before: seq<LogRow<P>>, line: Line<P>, kind: IssueKind) {
    match line
    case Blank => false
    case V1(_) => kind == ParseError
    case Garbage => kind == ParseError
    case Row(r) =>
      match kind
      case ParseError => false
      case ThisHashMismatch => r.thisHash != h(r.body)
      case PrevHashMismatch =>
        r.body.prevHash != Genesis && (before == [] || r.body.prevHash != before[|before| - 1].thisHash)
      case SequenceJump =>
        r.body.prevHash != Genesis && before != [] && r.body.tsSeq <= before[|before| - 1].body.tsSeq
  }

  lemma FaultAtIff<P>(h: Hasher<P>, lines: seq<Line<P>>, n: nat, kind: IssueKind)
    requires n < |lines|
    ensures FaultAt(h, lines, n, kind) <==> Faulty(h, Rows(lines[..n]), lines[n], kind)
  {
    AnchorIsLastRow(lines, n);
  }

  lemma IssueIsFault<P>(h: Hasher<P>, lines: seq<Line<P>>, line: nat, kind: IssueKind)
    ensures Issue(line, kind) in Report(h, lines).errors
            <==> 0 < line <= |lines| && FaultAt(h, lines, line - 1, kind)
  {
    IssueUpToIff(h, lines, |lines|, line, kind);
  }

  /** An issue stands in the report exactly when its line has that fault, behind the
      rows of the lines before it. */
  lemma IssueIff<P>(h: Hasher<P>, lines: seq<Line<P>>, line: nat, kind: IssueKind)
    ensures Issue(line, kind) in Report(h, lines).errors
            <==> 0 < line <= |lines| && Faulty(h, Rows(lines[..line - 1]), lines[line - 1], kind)
  {
    IssueIsFault(h, lines, line, kind);
    if 0 < line <= |lines| {
      FaultAtIff(h, lines, line - 1, kind);
    }
  }

  /** By line, and on one line in the order the checks are made. */
  predicate Sooner(a: Issue, b: Issue) {
    a.line < b.line || (a.line == b.line && Rank(a.kind) < Rank(b.kind))
  }

  function Rank(kind: IssueKind): nat {
    match kind
    case ParseError => 0
    case ThisHashMismatch => 1
    case PrevHashMismatch => 2
    case SequenceJump => 3
  }

  ghost predicate Sorted(issues: seq<Issue>) {
    forall i, j :: 0 <= i < j < |issues| ==> Sooner(issues[i], issues[j])
  }

  lemma FaultsInOrder<P>(h: Hasher<P>, anchor: Option<LogRow<P>>, line: Line<P>)
    ensures var kinds := Faults(h, anchor, line);
            forall i, j :: 0 <= i < j < |kinds| ==> Rank(kinds[i]) < Rank(kinds[j])
  {
    match line {
      case Row(r) => CheckOrder(h, anchor, r);
      case Blank => FaultsIff(h, anchor, line);
      case _ => UnparsedFaults(h, anchor, line);
    }
  }

  lemma SortedAppend(a: seq<Issue>, b: seq<Issue>)
    requires Sorted(a) && Sorted(b) && forall x, y :: x in a && y in b ==> Sooner(x, y)
    ensures Sorted(a + b)
  {
    var all := a + b;
    forall i, j | 0 <= i < j < |all| ensures Sooner(all[i], all[j]) {
      if j >= |a| && i < |a| {
        assert all[i] in a && all[j] in b;
      } else if i >= |a| {
        assert Sooner(b[i - |a|], b[j - |a|]);
      }
    }
  }

  lemma {:induction false} IssuesAreSorted<P>(h: Hasher<P>, lines: seq<Line<P>>, n: nat)
    requires n <= |lines|
    ensures Sorted(ReportUpTo(h, lines, n).errors)
  {
    if n > 0 {
      var before := ReportUpTo(h, lines, n - 1).errors;
      var faults := Faults(h, Anchor(lines, n - 1), lines[n - 1]);
      IssuesAreSorted(h, lines, n - 1);
      FaultsInOrder(h, Anchor(lines, n - 1), lines[n - 1]);
      forall x, y | x in before && y in AtLine(n, faults) ensures Sooner(x, y) {
        IssueUpToIff(h, lines, n - 1, x.line, x.kind);
        AtLineIff(n, faults, y.line, y.kind);
      }
      SortedAppend(before, AtLine(n, faults));
    }
  }

  lemma NoIssueIff<P>(h: Hasher<P>, lines: seq<Line<P>>)
    ensures Report(h, lines).errors == [] <==> Faultless(h, lines, |lines|)
  {
    var errors := Report(h, lines).errors;
    if errors != [] {
      assert errors[0] in errors;
      IssueIsFault(h, lines, errors[0].line, errors[0].kind);
    } else {
      forall j: nat, kind | j < |lines| ensures !FaultAt(h, lines, j, kind) {
        IssueIsFault(h, lines, j + 1, kind);
      }
    }
  }

  lemma {:induction false} CleanUpToIff<P>(h: Hasher<P>, lines: seq<Line<P>>, n: nat)
    requires n <= |lines|
    ensures Faultless(h, lines, n) <==> Clean(h, lines[..n])
  {
    if n > 0 {
      var m := n - 1;
      var front, last, anchor := lines[..m], lines[m], Anchor(lines, m);
      CleanUpToIff(h, lines, m);
      AnchorIsLastRow(lines, m);
      assert lines[..n] == front + [last];
      CleanExtends(h, front, last);
      assert Faultless(h, lines, n) <==> Faultless(h, lines, m) && forall kind :: !FaultAt(h, lines, m, kind);
      assert forall kind :: FaultAt(h, lines, m, kind) <==> HasFault(h, anchor, last, kind);
      match last {
        case Row(r) => RowFaultless(h, anchor, r);
        case Blank =>
        case _ => assert HasFault(h, anchor, last, ParseError);
      }
    }
  }

  /** A report without issues means exactly that the whole file is a chain. */
  lemma CleanReportIff<P>(h: Hasher<P>, lines: seq<Line<P>>)
    ensures Report(h, lines).errors == [] <==> Clean(h, lines)
  {
    NoIssueIff(h, lines);
    CleanUpToIff(h, lines, |lines|);
    assert lines[..|lines|] == lines;
  }

  /** The numbers below `n` that have a property. */
  function Those(n: nat, p: nat -> bool): set<nat> {
    set i: nat | i < n && p(i)
  }

  lemma OneMore(n: nat, p: nat -> bool)
    ensures |Those(n + 1, p)| == |Those(n, p)| + if p(n) then 1 else 0
  {
    var more := if p(n) then {n} else {};
    assert Those(n + 1, p) == Those(n, p) + more && n !in Those(n, p);
  }

  function IsCounted<P>(lines: seq<Line<P>>): nat -> bool {
    (i: nat) => i < |lines| && !lines[i].Blank?
  }

  function IsApproved<P>(h: Hasher<P>, lines: seq<Line<P>>): nat -> bool {
    (i: nat) => i < |lines| && !lines[i].Blank? && Faults(h, Anchor(lines, i), lines[i]) == []
  }

  /** The lines, out of the first `n`, that are not blank. */
  function Counted<P>(lines: seq<Line<P>>, n: nat): set<nat> {
    Those(n, IsCounted(lines))
  }

  /** ... and those of them without a fault. */
  function Approved<P>(h: Hasher<P>, lines: seq<Line<P>>, n: nat): set<nat> {
    Those(n, IsApproved(h, lines))
  }

  lemma ApprovedIff<P>(h: Hasher<P>, lines: seq<Line<P>>, i: nat)
    requires i < |lines|
    ensures i in Approved(h, lines, |lines|) <==> !lines[i].Blank? && forall kind :: !FaultAt(h, lines, i, kind)
  {
    FaultsIff(h, Anchor(lines, i), lines[i]);
    assert forall kind :: FaultAt(h, lines, i, kind) <==> HasFault(h, Anchor(lines, i), lines[i], kind);
  }

  /** Each line that is not blank counts once, and each of them without a fault
      counts as ok; all do exactly when there is no issue. */
  lemma {:induction false} ReportCounts<P>(h: Hasher<P>, lines: seq<Line<P>>, n: nat)
    requires n <= |lines|
    ensures var r := ReportUpTo(h, lines, n);
            && r.totalRows == |Counted(lines, n)| && r.okRows == |Approved(h, lines, n)|
            && r.okRows <= r.totalRows && (r.okRows == r.totalRows <==> r.errors == [])
  {
    if n > 0 {
      var m := n - 1;
      ReportCounts(h, lines, m);
      OneMore(m, IsCounted(lines));
      OneMore(m, IsApproved(h, lines));
      assert |AtLine(n, Faults(h, Anchor(lines, m), lines[m]))| == |Faults(h, Anchor(lines, m), lines[m])|;
    }
  }

  lemma CheckOrder<P>(h: Hasher<P>, anchor: Option<LogRow<P>>, r: LogRow<P>)
    ensures Faults(h, anchor, Row(r)) ==
            (if h(r.body) != r.thisHash then [ThisHashMismatch] else [])
            + (if LinkBroken(anchor, r) then [PrevHashMismatch] else [])
            + (if SequenceStalls(anchor, r) then [SequenceJump] else [])
  {
    var line := Row(r);
    var k3, k2, k1 := KINDS[..3], KINDS[..2], KINDS[..1];
    assert k3[..2] == k2 && k2[..1] == k1 && k1[..0] == [];
    assert FaultsAmong(k1, h, anchor, line) == [];
    assert FaultsAmong(k2, h, anchor, line) == if h(r.body) != r.thisHash then [ThisHashMismatch] else [];
    assert FaultsAmong(k3, h, anchor, line)
        == FaultsAmong(k2, h, anchor, line) + if LinkBroken(anchor, r) then [PrevHashMismatch] else [];
  }

  lemma UnparsedFaults<P>(h: Hasher<P>, anchor: Option<LogRow<P>>, line: Line<P>)
    requires !line.Blank? && !line.Row?
    ensures Faults(h, anchor, line) == [ParseError]
  {
    var k3, k2, k1 := KINDS[..3], KINDS[..2], KINDS[..1];
    assert k3[..2] == k2 && k2[..1] == k1 && k1[..0] == [];
    assert FaultsAmong(k1, h, anchor, line) == [ParseError];
    assert FaultsAmong(k2, h, anchor, line) == [ParseError];
    assert FaultsAmong(k3, h, anchor, line) == [ParseError];
  }

  method CheckRow<P>(h: Hasher<P>, previous: Option<LogRow<P>>, row: LogRow<P>) returns (kinds: seq<IssueKind>)
    ensures kinds == Faults(h, previous, Row(row))
    ensures kinds == (if row.thisHash != h(row.body) then [ThisHashMismatch] else [])
                     + (if row.body.prevHash != Genesis
                           && (previous.None? || row.body.prevHash != previous.value.thisHash)
                        then [PrevHashMismatch] else [])
                     + (if row.body.prevHash != Genesis && previous.Some?
                           && row.body.tsSeq <= previous.value.body.tsSeq
                        then [SequenceJump] else [])
  {
    kinds := [];
    CheckOrder(h, previous, row);
    if h(row.body) != row.thisHash {
      kinds := kinds + [ThisHashMismatch];
    }
    var isGenesis := row.Restarts();
    match previous {
      case None =>
        if !isGenesis {
          kinds := kinds + [PrevHashMismatch];
        }
      case Some(prev) =>
        if !isGenesis && row.body.prevHash != prev.thisHash {
          kinds := kinds + [PrevHashMismatch];
        }
        if !isGenesis && row.body.tsSeq <= prev.body.tsSeq {
          kinds := kinds + [SequenceJump];
        }
    }
  }

  method Verify<P>(h: Hasher<P>, file: File<P>) returns (report: VerifyReport)
    ensures report == Report(h, file.lines)
    ensures report.errors == [] <==> Clean(h, file.lines)
    ensures forall line: nat, kind :: Issue(line, kind) in report.errors <==>
              0 < line <= |file.lines| && Faulty(h, Rows(file.lines[..line - 1]), file.lines[line - 1], kind)
    ensures Sorted(report.errors)
    ensures report.totalRows == |Counted(file.lines, |file.lines|)|
    ensures report.okRows == |Approved(h, file.lines, |file.lines|)|
    ensures report.okRows == report.totalRows <==> report.errors == []
  {
    var lines := file.lines;
    var total, ok, errors := 0, 0, [];
    var previous: Option<LogRow<P>> := None;
    for i := 0 to |lines|
      invariant VerifyReport(total, ok, errors) == ReportUpTo(h, lines, i)
      invariant previous == Anchor(lines, i)
    {
      if !lines[i].Blank? {
        total := total + 1;
        if lines[i].Row? {
          var kinds := CheckRow(h, previous, lines[i].row);
          if kinds == [] {
            ok := ok + 1;
          }
          errors := errors + AtLine(i + 1, kinds);
          previous := Some(lines[i].row);
        } else {
          UnparsedFaults(h, previous, lines[i]);
          errors := errors + AtLine(i + 1, [ParseError]);
        }
      }
    }
    report := VerifyReport(total, ok, errors);
    CleanReportIff(h, lines);
    IssuesAreSorted(h, lines, |lines|);
    forall line: nat, kind
      ensures Issue(line, kind) in report.errors <==>
              0 < line <= |lines| && Faulty(h, Rows(lines[..line - 1]), lines[line - 1], kind)
    {
      IssueIff(h, lines, line, kind);
    }
    ReportCounts(h, lines, |lines|);
  }

  // ---- A head hash commits to the whole chain behind it ----

  /** The rows from the last chain restart on. */
  function LastSegment<P>(rows: seq<LogRow<P>>): seq<LogRow<P>> {
    if rows == [] then [] else
      var front, last := rows[..|rows| - 1], rows[|rows| - 1];
      if last.Restarts() then [last] else LastSegment(front) + [last]
  }

  /** Two clean files that end in the same hash are identical from their last
      restart on, unless two of their rows collide under the hash. */
  lemma {:induction false} HeadHashCommits<P>(h: Hasher<P>, a: seq<LogRow<P>>, b: seq<LogRow<P>>)
    requires Chained(h, a) && Chained(h, b) && a != [] && b != []
    requires CollisionFree(h, a + b)
    requires a[|a| - 1].thisHash == b[|b| - 1].thisHash
    ensures LastSegment(a) == LastSegment(b)
    decreases |a|
  {
    var x, y := a[|a| - 1], b[|b| - 1];
    assert x in a + b && y in a + b;
    assert !Collide(h, x, y);
    assert x == y;
    if !x.Restarts() {
      var a', b' := a[..|a| - 1], b[..|b| - 1];
      assert FollowsAt(a, |a| - 1) && FollowsAt(b, |b| - 1);
      TruncationGoesUnnoticed(h, a, |a'|);
      TruncationGoesUnnoticed(h, b, |b'|);
      assert forall r :: r in a' + b' ==> r in a + b;
      HeadHashCommits(h, a', b');
    }
  }

  // ---- What tampering a clean file shows, and what it does not ----

  /** A clean file stays clean when its tail is cut off. */
  lemma TruncationGoesUnnoticed<P>(h: Hasher<P>, rows: seq<LogRow<P>>, n: nat)
    requires Chained(h, rows) && n <= |rows|
    ensures Chained(h, rows[..n])
  {
    var kept := rows[..n];
    forall i | 0 < i < n ensures FollowsAt(kept, i) {
      assert FollowsAt(rows, i);
    }
  }

  function Without<P>(rows: seq<LogRow<P>>, k: nat): seq<LogRow<P>>
    requires k < |rows|
  {
    rows[..k] + rows[k + 1..]
  }

  /** The deletion of a row goes unnoticed exactly when it was the last one,
      when the next row restarts the chain, or when it was an exact copy of the
      row before it. */
  lemma DeletionUnnoticedIff<P>(h: Hasher<P>, rows: seq<LogRow<P>>, k: nat)
    requires Chained(h, rows) && k < |rows|
    requires k > 0 ==> !Collide(h, rows[k - 1], rows[k])
    ensures Chained(h, Without(rows, k)) <==>
            k == |rows| - 1 || rows[k + 1].Restarts() || (k > 0 && rows[k - 1] == rows[k])
  {
    var left := Without(rows, k);
    if k == |rows| - 1 {
      assert left == rows[..k];
      TruncationGoesUnnoticed(h, rows, k);
      return;
    }
    assert left[k] == rows[k + 1];
    assert FollowsAt(rows, k + 1);
    if k > 0 {
      assert left[k - 1] == rows[k - 1] && FollowsAt(rows, k);
    }
    if k > 0 && Chained(h, left) {
      assert FollowsAt(left, k);
    }
    if rows[k + 1].Restarts() || (k > 0 && rows[k - 1] == rows[k]) {
      forall i | 0 <= i < |left| ensures h(left[i].body) == left[i].thisHash {
        assert left[i] == if i < k then rows[i] else rows[i + 1];
      }
      forall i | 0 < i < |left| ensures FollowsAt(left, i) {
        if i < k {
          assert FollowsAt(rows, i);
        } else if i > k {
          assert FollowsAt(rows, i + 1);
          assert left[i - 1] == rows[i] && left[i] == rows[i + 1];
        }
      }
    }
  }

  /** The replacement of a row by another goes unnoticed exactly when the new
      row fits where it stands and nothing links back to it. */
  lemma ReplacementUnnoticedIff<P>(h: Hasher<P>, rows: seq<LogRow<P>>, k: nat, r: LogRow<P>)
    requires Chained(h, rows) && k < |rows| && r != rows[k]
    requires !Collide(h, rows[k], r)
    ensures Chained(h, rows[k := r]) <==>
            && h(r.body) == r.thisHash
            && (r.Restarts() || (k > 0 && Follows(rows[k - 1], r)))
            && (k == |rows| - 1 || rows[k + 1].Restarts())
  {
    var changed := rows[k := r];
    if k + 1 < |rows| {
      assert changed[k + 1] == rows[k + 1] && FollowsAt(rows, k + 1);
    }
    if Chained(h, changed) {
      assert changed[k] == r;
      if k + 1 < |rows| {
        assert FollowsAt(changed, k + 1);
      }
      if k > 0 {
        assert FollowsAt(changed, k);
      }
    } else {
      forall i | 0 < i < |rows| && i != k && i != k + 1 ensures FollowsAt(changed, i) {
        assert FollowsAt(rows, i);
      }
    }
  }

  lemma {:induction false} AnchorAcross<P>(a: seq<Line<P>>, k: nat, b: seq<Line<P>>, m: nat)
    requires k <= |a| && k <= m <= |b| && a[..k] == b[..k]
    requires forall i :: k <= i < m ==> !b[i].Row?
    ensures Anchor(b, m) == Anchor(a, k)
    decreases m
  {
    if m > k {
      AnchorAcross(a, k, b, m - 1);
    } else if m > 0 {
      assert a[..k - 1] == a[..k][..k - 1] == b[..k - 1];
      assert a[k - 1] == a[..k][k - 1] == b[k - 1];
      AnchorAcross(a, k - 1, b, k - 1);
    }
  }

  lemma FaultlessLine<P>(h: Hasher<P>, lines: seq<Line<P>>, n: nat)
    requires Faultless(h, lines, |lines|) && n < |lines| && lines[n].Row?
    ensures h(lines[n].row.body) == lines[n].row.thisHash && !LinkBroken(Anchor(lines, n), lines[n].row)
  {
    assert !FaultAt(h, lines, n, ThisHashMismatch);
    assert !FaultAt(h, lines, n, PrevHashMismatch);
  }

  lemma {:induction false} AnchorIsFaultless<P>(h: Hasher<P>, lines: seq<Line<P>>, n: nat)
    requires Faultless(h, lines, |lines|) && n <= |lines| && Anchor(lines, n).Some?
    ensures var a := Anchor(lines, n).value; h(a.body) == a.thisHash
    decreases n
  {
    if lines[n - 1].Row? {
      FaultlessLine(h, lines, n - 1);
    } else {
      AnchorIsFaultless(h, lines, n - 1);
    }
  }

  /** What is linked to one row is linked to no different row. */
  lemma LinkIsUnique<P>(h: Hasher<P>, a: LogRow<P>, b: LogRow<P>, next: LogRow<P>)
    requires a != b && !Collide(h, a, b)
    requires h(a.body) == a.thisHash && h(b.body) == b.thisHash
    requires !next.Restarts() && !LinkBroken(Some(a), next)
    ensures LinkBroken(Some(b), next)
  {
  }

  /** The next row after line `k`, at line index `m`, links back to it. */
  ghost predicate NextLinks<P>(lines: seq<Line<P>>, k: nat, m: nat) {
    && k < m < |lines| && lines[k].Row? && lines[m].Row? && !lines[m].row.Restarts()
    && forall i :: k < i < m ==> !lines[i].Row?
  }

  lemma LinkMovesOn<P>(h: Hasher<P>, lines: seq<Line<P>>, k: nat, m: nat)
    requires Faultless(h, lines, |lines|) && NextLinks(lines, k, m)
    requires Anchor(lines, k).Some? ==> var a := Anchor(lines, k).value;
                                        a != lines[k].row && !Collide(h, a, lines[k].row)
    ensures LinkBroken(Anchor(lines, k), lines[m].row)
  {
    var before, row, next := Anchor(lines, k), lines[k].row, lines[m].row;
    AnchorAcross(lines, k + 1, lines, m);
    FaultlessLine(h, lines, m);
    FaultlessLine(h, lines, k);
    if before.Some? {
      AnchorIsFaultless(h, lines, k);
      LinkIsUnique(h, row, before.value, next);
    }
  }

  /** The verifier names the place: with line `k` of a clean file deleted, and
      it was no copy of the row before it, the next row (blank lines between
      them or not) is reported as breaking the link. */
  lemma DeletionIsReported<P>(h: Hasher<P>, lines: seq<Line<P>>, k: nat, m: nat, cut: seq<Line<P>>)
    requires Report(h, lines).errors == [] && NextLinks(lines, k, m)
    requires Anchor(lines, k).Some? ==> var a := Anchor(lines, k).value;
                                        a != lines[k].row && !Collide(h, a, lines[k].row)
    requires |cut| == |lines| - 1 && cut[..k] == lines[..k]
    requires forall i :: k <= i < |cut| ==> cut[i] == lines[i + 1]
    ensures Issue(m, PrevHashMismatch) in Report(h, cut).errors
  {
    NoIssueIff(h, lines);
    LinkMovesOn(h, lines, k, m);
    AnchorAcross(lines, k, cut, m - 1);
    assert FaultAt(h, cut, m - 1, PrevHashMismatch);
    IssueIsFault(h, cut, m, PrevHashMismatch);
  }

  /** ... and with row `k` replaced by any other row, line `k + 1` or the next
      row's line is reported. */
  lemma ReplacementIsReported<P>(h: Hasher<P>, lines: seq<Line<P>>, k: nat, m: nat, r: LogRow<P>)
    requires Report(h, lines).errors == [] && NextLinks(lines, k, m)
    requires r != lines[k].row && !Collide(h, lines[k].row, r)
    ensures var errors := Report(h, lines[k := Row(r)]).errors;
            || Issue(k + 1, ThisHashMismatch) in errors
            || Issue(m + 1, PrevHashMismatch) in errors
  {
    var changed := lines[k := Row(r)];
    NoIssueIff(h, lines);
    AnchorAcross(changed, k + 1, changed, m);
    AnchorAcross(lines, k + 1, lines, m);
    FaultlessLine(h, lines, k);
    FaultlessLine(h, lines, m);
    if h(r.body) == r.thisHash {
      LinkIsUnique(h, lines[k].row, r, lines[m].row);
    }
    IssueIsFault(h, changed, k + 1, ThisHashMismatch);
    IssueIsFault(h, changed, m + 1, PrevHashMismatch);
  }
}
