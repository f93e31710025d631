/**
 The life of a log: opening it, appending to it, rotating it, and stopping at
 any point in between.

 The disk is the current file and the archived segments; a running process
 holds the number and the hash the next row takes. An append names the point
 where it stops, so that a crash between any two file operations is a run.
 */
module LogLifecycle {
  import opened Wrappers
  import opened Provenance
  import opened ChainVerify

  /** An archived file, named by the second it was rotated in. */
  datatype Segment<P> = Segment(stamp: nat, file: File<P>)

  /** The log directory. `segments` is listed in stamp order, which is how
      `rotated_segments` sorts it; `tmp` is never listed. */
  datatype Dir<P> = Dir(current: File<P>, segments: seq<Segment<P>>, tmp: Option<Segment<P>>)

  datatype Mem = Mem(nextSeq: nat, lastHash: HashText)

  const FRESH := Mem(1, Genesis)

  /** How far an append gets: to its end, or to just before one of its steps. */
  datatype Stop =
    | Completes
    | BeforeRename    // the temporary copy is written, the archive is not
    | BeforeUnlink    // the archive is in place, the current file still there
    | BeforeWrite     // rotated, no byte of the row written
    | MidRow          // part of the row written
    | BeforeNewline   // all of the row written but its newline
    | BeforeSync      // the row written, not acknowledged

  // ---- Recovery ----

  predicate Parsed<P>(line: Line<P>) {
    line.Blank? || line.Row?
  }

  function Resume<P>(last: Option<LogRow<P>>): Mem {
    if last.None? || last.value.body.tsSeq == 0 then FRESH
    else Mem(last.value.body.tsSeq + 1, last.value.thisHash)
  }

  /** What opening makes of the first `n` lines: the memory to resume with, or
      the number of the first line that does not parse. */
  function Recovered<P>(lines: seq<Line<P>>, n: nat): Result<Mem, nat>
    requires n <= |lines|
  {
    if n == 0 then Ok(FRESH) else
      var before := Recovered(lines, n - 1);
      if before.Err? then before
      else if Parsed(lines[n - 1]) then Ok(Resume(Anchor(lines, n)))
      else Err(n)
  }

  /** The memory behind the last of these rows, or a fresh one. */
  ghost predicate ResumesBehind<P>(mem: Mem, rows: seq<LogRow<P>>) {
    if rows == [] || rows[|rows| - 1].body.tsSeq == 0 then mem == Mem(1, Genesis)
    else mem == Mem(rows[|rows| - 1].body.tsSeq + 1, rows[|rows| - 1].thisHash)
  }

  /** This is the first line that does not parse. */
  ghost predicate FirstUnparsed<P>(lines: seq<Line<P>>, n: nat) {
    && 0 < n <= |lines| && !lines[n - 1].Blank? && !lines[n - 1].Row?
    && Parses(lines[..n - 1])
  }

  lemma {:induction false} RecoveredIs<P>(lines: seq<Line<P>>, n: nat)
    requires n <= |lines|
    ensures var r := Recovered(lines, n);
            && (r.Ok? <==> Parses(lines[..n]))
            && (r.Ok? ==> ResumesBehind(r.value, Rows(lines[..n])))
            && (r.Err? ==> r.error <= n && FirstUnparsed(lines, r.error))
  {
    if n > 0 {
      RecoveredIs(lines, n - 1);
      assert lines[..n] == lines[..n - 1] + [lines[n - 1]];
      AnchorIsLastRow(lines, n);
      assert Parses(lines[..n]) <==> Parses(lines[..n - 1]) && Parsed(lines[n - 1]) by {
        assert forall i :: 0 <= i < n - 1 ==> lines[..n][i] == lines[..n - 1][i];
        assert lines[..n][n - 1] == lines[n - 1];
      }
    }
  }

  /** Blank lines are passed over; opening resumes behind the last row, or names
      the first line that does not parse. */
  method RecoverState<P>(file: File<P>) returns (r: Result<Mem, nat>)
    ensures r == Recovered(file.lines, |file.lines|)
    ensures r.Ok? <==> Parses(file.lines)
    ensures r.Ok? ==> ResumesBehind(r.value, Rows(file.lines))
    ensures r.Err? ==> FirstUnparsed(file.lines, r.error)
  {
    RecoveredIs(file.lines, |file.lines|);
    assert file.lines[..|file.lines|] == file.lines;
    var lines := file.lines;
    var lastSeq, lastHash := 0, Genesis;
    for i := 0 to |lines|
      invariant Recovered(lines, i).Ok? && Parses(lines[..i])
      invariant Anchor(lines, i).None? ==> lastSeq == 0
      invariant Anchor(lines, i).Some? ==> var a := Anchor(lines, i).value;
                                           lastSeq == a.body.tsSeq && lastHash == a.thisHash
    {
      match lines[i] {
        case Blank =>
        case Row(row) =>
          lastSeq, lastHash := row.body.tsSeq, row.thisHash;
        case _ =>
          StaysErr(lines, i + 1, |lines|);
          return Err(i + 1);
      }
    }
    assert lines[..|lines|] == lines;
    r := if lastSeq == 0 then Ok(FRESH) else Ok(Mem(lastSeq + 1, lastHash));
  }

  lemma {:induction false} StaysErr<P>(lines: seq<Line<P>>, n: nat, m: nat)
    requires n <= m <= |lines| && Recovered(lines, n).Err?
    ensures Recovered(lines, m) == Recovered(lines, n)
    decreases m
  {
    if n < m {
      StaysErr(lines, n, m - 1);
    }
  }

  // ---- Writing to the directory ----

  /** A row's bytes and newline at the end of a file. Behind a line that lost
      its newline they make one line that no longer parses. */
  function WithRow<P>(file: File<P>, row: LogRow<P>, newline: bool): File<P> {
    if file.terminated || file.lines == [] then File(file.lines + [Row(row)], newline)
    else File(file.lines[..|file.lines| - 1] + [Garbage], newline)
  }

  /** A proper part of a row's bytes at the end of a file. */
  function WithTornRow<P>(file: File<P>): File<P> {
    if file.terminated || file.lines == [] then File(file.lines + [Garbage], false)
    else File(file.lines[..|file.lines| - 1] + [Garbage], false)
  }

  /** A segment moved into the archive: under a name already taken, it
      replaces what was there. */
  function Archive<P>(segments: seq<Segment<P>>, s: Segment<P>): seq<Segment<P>> {
    if segments == [] then [s]
    else
      var front, last := segments[..|segments| - 1], segments[|segments| - 1];
      if s.stamp > last.stamp then segments + [s]
      else if s.stamp == last.stamp then front + [s]
      else Archive(front, s) + [last]
  }

  function NextRow<P>(h: Hasher<P>, mem: Mem, columns: P): LogRow<P> {
    var body := RowForHash(mem.nextSeq, columns, mem.lastHash);
    LogRow(body, h(body))
  }

  /** The rotation steps of an append, as far as they get. */
  function RotateStep<P>(dir: Dir<P>, mem: Mem, stamp: nat, stop: Stop): (Dir<P>, Mem) {
    var s := Segment(stamp, dir.current);
    if stop.BeforeRename? then (dir.(tmp := Some(s)), mem)
    else
      var archived := dir.(tmp := None, segments := Archive(dir.segments, s));
      if stop.BeforeUnlink? then (archived, mem)
      else (archived.(current := NoFile()), FRESH)
  }

  /** The writing steps of an append, as far as they get. */
  function WriteStep<P>(h: Hasher<P>, dir: Dir<P>, mem: Mem, columns: P, stop: Stop): (Dir<P>, Mem) {
    var row := NextRow(h, mem, columns);
    match stop
    case Completes =>
      (dir.(current := WithRow(dir.current, row, true)), Mem(mem.nextSeq + 1, row.thisHash))
    case BeforeSync => (dir.(current := WithRow(dir.current, row, true)), mem)
    case BeforeNewline => (dir.(current := WithRow(dir.current, row, false)), mem)
    case MidRow => (dir.(current := WithTornRow(dir.current)), mem)
    case _ => (dir, mem)
  }

  function AppendStep<P>(h: Hasher<P>, dir: Dir<P>, mem: Mem, columns: P,
                         due: bool, stamp: nat, stop: Stop): (Dir<P>, Mem)
  {
    var (d, m) := if due then RotateStep(dir, mem, stamp, stop) else (dir, mem);
    WriteStep(h, d, m, columns, stop)
  }

  // ---- Runs ----

  datatype Event<P> =
    | Open
    | Append(columns: P, due: bool, stamp: nat, stop: Stop, dies: bool)
    | Die

  /** The disk, the running process if there is one, every row that ever
      reached the current file whole, in order, and the stamp of a rotation
      that put its archive in place and left the current file there. */
  datatype World<P> = World(dir: Dir<P>, mem: Option<Mem>, written: seq<LogRow<P>>, cut: Option<nat>)

  function Empty<P>(): World<P> {
    World(Dir(NoFile(), [], None), None, [], None)
  }

  function Step<P>(h: Hasher<P>, w: World<P>, e: Event<P>): World<P> {
    match e
    case Die => w.(mem := None)
    case Open =>
      var r := Recovered(w.dir.current.lines, |w.dir.current.lines|);
      w.(mem := if r.Ok? then Some(r.value) else None)
    case Append(columns, due, stamp, stop, dies) =>
      if w.mem.None? then w else
        var (dir, mem) := AppendStep(h, w.dir, w.mem.value, columns, due, stamp, stop);
        var row := NextRow(h, if due then FRESH else w.mem.value, columns);
        World(dir, if dies then None else Some(mem),
              if stop.Completes? || stop.BeforeSync? || stop.BeforeNewline?
              then w.written + [row] else w.written,
              if !due || stop.BeforeRename? then w.cut else if stop.BeforeUnlink? then Some(stamp) else None)
  }

  function Continue<P>(h: Hasher<P>, w: World<P>, events: seq<Event<P>>): World<P> {
    if events == [] then w else
      Step(h, Continue(h, w, events[..|events| - 1]), events[|events| - 1])
  }

  function Run<P>(h: Hasher<P>, events: seq<Event<P>>): World<P> {
    Continue(h, Empty(), events)
  }

  /** What a run asks of the clock when a rotation names its archive: nothing;
      that no row has its last copy under that name; that the name is free;
      that stamps grow, but that a rotation cut short before its unlink may be
      done again under its own; or that it is done again so before any other. */
  datatype Stamps = Arbitrary | Sparing | Distinct | Growing | Redone

  ghost predicate StoredElsewhere<P>(dir: Dir<P>, stamp: nat, r: LogRow<P>) {
    Row(r) in dir.current.lines || exists s :: s in dir.segments && s.stamp != stamp && Row(r) in s.file.lines
  }

  /** Every row archived under this name is in another file, too. */
  ghost predicate Spares<P>(dir: Dir<P>, stamp: nat) {
    forall s, line :: s in dir.segments && s.stamp == stamp && line in s.file.lines && line.Row?
                      ==> StoredElsewhere(dir, stamp, line.row)
  }

  ghost predicate Unused<P>(dir: Dir<P>, stamp: nat) {
    forall s :: s in dir.segments ==> s.stamp != stamp
  }

  ghost predicate Newest<P>(dir: Dir<P>, stamp: nat) {
    forall s :: s in dir.segments ==> s.stamp < stamp
  }

  ghost predicate Allows<P>(stamps: Stamps, w: World<P>, stamp: nat) {
    match stamps
    case Arbitrary => true
    case Sparing => Spares(w.dir, stamp)
    case Distinct => Unused(w.dir, stamp)
    case Growing => w.cut == Some(stamp) || Newest(w.dir, stamp)
    case Redone => if w.cut.Some? then w.cut == Some(stamp) else Newest(w.dir, stamp)
  }

  /** What a run relies on beside the clock: only a non-empty file is rotated; a
      row that reached the disk without being acknowledged, whole or in part,
      is followed by a reopen; and the part is not the whole row short of its
      newline. */
  ghost predicate Orderly<P>(stamps: Stamps, w: World<P>, e: Event<P>) {
    e.Append? && w.mem.Some? ==>
      && (e.due ==> w.dir.current.lines != [])
      && (e.due && !e.stop.BeforeRename? ==> Allows(stamps, w, e.stamp))
      && (e.stop.MidRow? || e.stop.BeforeSync? ==> e.dies)
      && !e.stop.BeforeNewline?
  }

  ghost predicate OrderlyRun<P>(stamps: Stamps, h: Hasher<P>, events: seq<Event<P>>) {
    events == [] ||
    var front, last := events[..|events| - 1], events[|events| - 1];
    OrderlyRun(stamps, h, front) && Orderly(stamps, Run(h, front), last)
  }

  /** A rotation that stopped with the archive in place and the current file
      still there. */
  predicate CutBeforeUnlink<P>(e: Event<P>) {
    e.Append? && e.due && e.stop.BeforeUnlink?
  }

  // ---- The archive ----

  ghost predicate StampsIncrease<P>(segments: seq<Segment<P>>) {
    forall i, j :: 0 <= i < j < |segments| ==> segments[i].stamp < segments[j].stamp
  }

  lemma ArchiveMiddle<P>(segments: seq<Segment<P>>, more: seq<Segment<P>>, last: Segment<P>)
    requires StampsIncrease(more) && StampsIncrease(segments + [last])
    requires forall t :: t in more ==> t.stamp < last.stamp
    ensures StampsIncrease(more + [last])
  {
    var all := more + [last];
    forall i, j | 0 <= i < j < |all| ensures all[i].stamp < all[j].stamp {
      assert all[i] in more;
    }
  }

  /** Whatever the clock does, the archive stays in stamp order, and a segment
      takes the place of the one that bore its name, and of no other. */
  lemma {:induction false} ArchiveMembers<P>(segments: seq<Segment<P>>, s: Segment<P>)
    requires StampsIncrease(segments)
    ensures StampsIncrease(Archive(segments, s))
    ensures forall t :: t in Archive(segments, s) ==> t == s || (t in segments && t.stamp != s.stamp)
    ensures forall t :: t == s || (t in segments && t.stamp != s.stamp) ==> t in Archive(segments, s)
  {
    if segments != [] {
      var front, last := segments[..|segments| - 1], segments[|segments| - 1];
      assert segments == front + [last];
      forall t | t in front ensures t.stamp < last.stamp {
        var i :| 0 <= i < |front| && front[i] == t;
        assert segments[i].stamp < segments[|front|].stamp;
      }
      if s.stamp < last.stamp {
        ArchiveMembers(front, s);
        forall t | t in Archive(front, s) ensures t.stamp < last.stamp {
          assert t == s || t in front;
        }
        ArchiveMiddle(front, Archive(front, s), last);
      } else if s.stamp == last.stamp {
        ArchiveMiddle(front, front, s);
      } else {
        ArchiveMiddle(segments, segments, s);
      }
    }
  }

  // ---- What every orderly run keeps true, whatever the clock does ----

  ghost predicate GenuineAt<P>(h: Hasher<P>, rows: seq<LogRow<P>>, i: nat)
    requires i < |rows|
  {
    rows[i] == NextRow(h, Mem(i + 1, if i == 0 then Genesis else rows[i - 1].thisHash), rows[i].body.columns)
  }

  /** Rows numbered from 1 and chained from the sentinel. */
  ghost predicate Genuine<P>(h: Hasher<P>, rows: seq<LogRow<P>>) {
    forall i: nat :: i < |rows| ==> GenuineAt(h, rows, i)
  }

  function MemOf<P>(rows: seq<LogRow<P>>): Mem {
    Mem(|rows| + 1, if rows == [] then Genesis else rows[|rows| - 1].thisHash)
  }

  function Intact<P>(rows: seq<LogRow<P>>): File<P> {
    File(LinesOf(rows), true)
  }

  function TornAfter<P>(rows: seq<LogRow<P>>): File<P> {
    File(LinesOf(rows) + [Garbage], false)
  }

  ghost predicate GenuineSegment<P>(h: Hasher<P>, s: Segment<P>) {
    var rows := Rows(s.file.lines);
    s.file == Intact(rows) && rows != [] && Genuine(h, rows)
  }

  ghost predicate Inv<P>(h: Hasher<P>, w: World<P>, rows: seq<LogRow<P>>) {
    && Genuine(h, rows)
    && StampsIncrease(w.dir.segments)
    && (forall s :: s in w.dir.segments ==> GenuineSegment(h, s))
    && (w.dir.current == Intact(rows) || (w.dir.current == TornAfter(rows) && w.mem.None?))
    && (w.mem.Some? ==> w.mem.value == MemOf(rows))
  }

  lemma GenuineAppend<P>(h: Hasher<P>, rows: seq<LogRow<P>>, columns: P)
    requires Genuine(h, rows)
    ensures Genuine(h, rows + [NextRow(h, MemOf(rows), columns)])
  {
    var all := rows + [NextRow(h, MemOf(rows), columns)];
    forall i: nat | i < |all| ensures GenuineAt(h, all, i) {
      if i < |rows| {
        assert GenuineAt(h, rows, i);
      }
    }
  }

  lemma IntactAppend<P>(rows: seq<LogRow<P>>, r: LogRow<P>)
    ensures WithRow(Intact(rows), r, true) == Intact(rows + [r])
  {
    assert LinesOf(rows) + [Row(r)] == LinesOf(rows + [r]);
  }

  lemma {:induction false} AnchorOfLines<P>(rows: seq<LogRow<P>>, n: nat)
    requires n <= |rows|
    ensures Anchor(LinesOf(rows), n) == if n == 0 then None else Some(rows[n - 1])
    ensures Recovered(LinesOf(rows), n) == Ok(Resume(Anchor(LinesOf(rows), n)))
  {
    if n > 0 {
      AnchorOfLines(rows, n - 1);
    }
  }

  /** Opening an intact file resumes where its writer stood. */
  lemma IntactRecovers<P>(h: Hasher<P>, rows: seq<LogRow<P>>)
    requires Genuine(h, rows)
    ensures Recovered(Intact(rows).lines, |Intact(rows).lines|) == Ok(MemOf(rows))
  {
    AnchorOfLines(rows, |rows|);
    if rows != [] {
      assert GenuineAt(h, rows, |rows| - 1);
    }
  }

  /** A torn file does not open. */
  lemma TornDoesNotRecover<P>(rows: seq<LogRow<P>>)
    ensures Recovered(TornAfter(rows).lines, |TornAfter(rows).lines|).Err?
  {
  }

  lemma InvRotate<P>(h: Hasher<P>, w: World<P>, rows: seq<LogRow<P>>, stamp: nat, stop: Stop)
    returns (rows': seq<LogRow<P>>)
    requires Inv(h, w, rows) && w.mem.Some? && w.dir.current.lines != []
    ensures var (d, m) := RotateStep(w.dir, w.mem.value, stamp, stop);
            && Inv(h, w.(dir := d, mem := Some(m)), rows')
            && (if stop.BeforeRename? || stop.BeforeUnlink? then rows' == rows else rows' == [] && m == FRESH)
  {
    rows' := rows;
    if !stop.BeforeRename? {
      var s := Segment(stamp, w.dir.current);
      RowsOfLines(rows);
      ArchiveMembers(w.dir.segments, s);
      assert GenuineSegment(h, s);
      forall t | t in Archive(w.dir.segments, s) ensures GenuineSegment(h, t) {
        assert t == s || t in w.dir.segments;
      }
      if !stop.BeforeUnlink? {
        rows' := [];
        assert LinesOf<P>([]) == [];
      }
    }
  }

  predicate RowReachesDisk(stop: Stop) {
    stop.Completes? || stop.BeforeSync?
  }

  lemma InvWrite<P>(h: Hasher<P>, w: World<P>, rows: seq<LogRow<P>>, columns: P, stop: Stop, dies: bool)
    returns (rows': seq<LogRow<P>>)
    requires Inv(h, w, rows) && w.mem.Some?
    requires stop.MidRow? || stop.BeforeSync? ==> dies
    requires !stop.BeforeNewline?
    ensures var (d, m) := WriteStep(h, w.dir, w.mem.value, columns, stop);
            Inv(h, w.(dir := d, mem := if dies then None else Some(m)), rows')
    ensures rows' == if RowReachesDisk(stop) then rows + [NextRow(h, w.mem.value, columns)] else rows
  {
    rows' := rows;
    if RowReachesDisk(stop) {
      var row := NextRow(h, MemOf(rows), columns);
      rows' := rows + [row];
      GenuineAppend(h, rows, columns);
      IntactAppend(rows, row);
    }
  }

  /** The world between the rotation of an append and its writing. */
  function Rotated<P>(w: World<P>, e: Event<P>): World<P>
    requires e.Append? && w.mem.Some?
  {
    if !e.due then w else
      var (d, m) := RotateStep(w.dir, w.mem.value, e.stamp, e.stop);
      w.(dir := d, mem := Some(m),
         cut := if e.stop.BeforeRename? then w.cut else if e.stop.BeforeUnlink? then Some(e.stamp) else None)
  }

  /** The rows of the current file, by the two parts of an append. */
  lemma InvAppend<P>(stamps: Stamps, h: Hasher<P>, w: World<P>, e: Event<P>, rows: seq<LogRow<P>>)
    returns (rows': seq<LogRow<P>>, rows'': seq<LogRow<P>>)
    requires Inv(h, w, rows) && Orderly(stamps, w, e) && e.Append? && w.mem.Some?
    ensures Inv(h, Rotated(w, e), rows') && Inv(h, Step(h, w, e), rows'')
    ensures rows' == if e.due && !e.stop.BeforeRename? && !e.stop.BeforeUnlink? then [] else rows
    ensures rows'' == if RowReachesDisk(e.stop) then rows' + [NextRow(h, Rotated(w, e).mem.value, e.columns)] else rows'
    ensures RowReachesDisk(e.stop) ==>
            Step(h, w, e).written == w.written + [NextRow(h, Rotated(w, e).mem.value, e.columns)]
  {
    rows' := rows;
    if e.due {
      rows' := InvRotate(h, w, rows, e.stamp, e.stop);
    }
    rows'' := InvWrite(h, Rotated(w, e), rows', e.columns, e.stop, e.dies);
  }

  lemma InvStep<P>(stamps: Stamps, h: Hasher<P>, w: World<P>, e: Event<P>, rows: seq<LogRow<P>>)
    returns (rows': seq<LogRow<P>>)
    requires Inv(h, w, rows) && Orderly(stamps, w, e)
    ensures Inv(h, Step(h, w, e), rows')
  {
    rows' := rows;
    if e.Open? {
      IntactRecovers(h, rows);
      TornDoesNotRecover(rows);
    } else if e.Append? && w.mem.Some? {
      var _, more := InvAppend(stamps, h, w, e, rows);
      rows' := more;
    }
  }

  /** After every orderly run, under any stamps, the current file and each
      archived one are genuine chains, and the memory is what the current file
      implies. */
  lemma {:induction false} RunInv<P>(stamps: Stamps, h: Hasher<P>, events: seq<Event<P>>)
    returns (rows: seq<LogRow<P>>)
    requires OrderlyRun(stamps, h, events)
    ensures Inv(h, Run(h, events), rows)
  {
    if events == [] {
      rows := [];
      assert LinesOf<P>([]) == [];
    } else {
      var front := events[..|events| - 1];
      rows := RunInv(stamps, h, front);
      rows := InvStep(stamps, h, Run(h, front), events[|events| - 1], rows);
    }
  }

  lemma CurrentRows<P>(rows: seq<LogRow<P>>)
    ensures Rows(Intact(rows).lines) == rows && Rows(TornAfter(rows).lines) == rows
  {
    RowsOfLines(rows);
    RowsAppend(LinesOf(rows), [Garbage]);
    assert Rows<P>([Garbage]) == [] by {
      assert Rows<P>([Garbage][..0]) == [];
    }
  }

  lemma GenuineIsClean<P>(h: Hasher<P>, rows: seq<LogRow<P>>)
    requires Genuine(h, rows)
    ensures Report(h, LinesOf(rows)).errors == []
  {
    RowsOfLines(rows);
    forall i | 0 <= i < |rows| ensures h(rows[i].body) == rows[i].thisHash {
      assert GenuineAt(h, rows, i);
    }
    forall i | 0 < i < |rows| ensures FollowsAt(rows, i) {
      assert GenuineAt(h, rows, i) && GenuineAt(h, rows, i - 1);
    }
    assert rows != [] ==> GenuineAt(h, rows, 0);
    CleanReportIff(h, LinesOf(rows));
  }

  lemma TornReport<P>(h: Hasher<P>, rows: seq<LogRow<P>>, line: nat, kind: IssueKind)
    requires Genuine(h, rows)
    ensures Issue(line, kind) in Report(h, TornAfter(rows).lines).errors
            <==> line == |rows| + 1 && kind == ParseError
  {
    var lines, torn := LinesOf(rows), TornAfter(rows).lines;
    IssueIsFault(h, torn, line, kind);
    if 0 < line <= |rows| {
      GenuineIsClean(h, rows);
      IssueIsFault(h, lines, line, kind);
      assert torn[..line - 1] == lines[..line - 1];
      AnchorAcross(lines, line - 1, torn, line - 1);
    }
  }

  /** A file numbered 1..n from a GENESIS row, which verifies without issue. */
  ghost predicate SoundFile<P>(h: Hasher<P>, lines: seq<Line<P>>) {
    && Report(h, lines).errors == []
    && (forall i :: 0 <= i < |lines| ==> lines[i].Row? && lines[i].row.body.tsSeq == i + 1)
    && (lines != [] ==> lines[0].row.Restarts())
  }

  lemma GenuineIsSound<P>(h: Hasher<P>, rows: seq<LogRow<P>>)
    requires Genuine(h, rows)
    ensures SoundFile(h, LinesOf(rows))
  {
    GenuineIsClean(h, rows);
    forall i | 0 <= i < |rows| ensures rows[i].body.tsSeq == i + 1 {
      assert GenuineAt(h, rows, i);
    }
    assert rows != [] ==> GenuineAt(h, rows, 0);
  }

  /** Every file a run leaves behind is sound; only the current one can carry a
      torn last line, which is then the one issue the verifier reports. */
  lemma EveryFileIsSound<P>(stamps: Stamps, h: Hasher<P>, events: seq<Event<P>>)
    requires OrderlyRun(stamps, h, events)
    ensures var dir := Run(h, events).dir;
            && (forall s :: s in dir.segments ==> s.file.terminated && s.file.lines != [] && SoundFile(h, s.file.lines))
            && var lines := dir.current.lines;
               if dir.current.terminated then SoundFile(h, lines)
               else lines != [] && SoundFile(h, lines[..|lines| - 1])
                    && forall line: nat, kind :: Issue(line, kind) in Report(h, lines).errors
                                                 <==> line == |lines| && kind == ParseError
  {
    var rows := RunInv(stamps, h, events);
    var dir := Run(h, events).dir;
    forall s | s in dir.segments ensures s.file.terminated && s.file.lines != [] && SoundFile(h, s.file.lines) {
      GenuineIsSound(h, Rows(s.file.lines));
    }
    GenuineIsSound(h, rows);
    if !dir.current.terminated {
      assert TornAfter(rows).lines[..|rows|] == LinesOf(rows);
      forall line: nat, kind
        ensures Issue(line, kind) in Report(h, dir.current.lines).errors <==> line == |rows| + 1 && kind == ParseError
      {
        TornReport(h, rows, line, kind);
      }
    }
  }

  /** Reopening a running log changes nothing at all. */
  lemma ReopenIsUnobservable<P>(stamps: Stamps, h: Hasher<P>, events: seq<Event<P>>)
    requires OrderlyRun(stamps, h, events) && Run(h, events).mem.Some?
    ensures Step(h, Run(h, events), Open) == Run(h, events)
  {
    var rows := RunInv(stamps, h, events);
    IntactRecovers(h, rows);
  }

  lemma {:induction false} ContinueSplit<P>(h: Hasher<P>, w: World<P>, a: seq<Event<P>>, b: seq<Event<P>>)
    ensures Continue(h, w, a + b) == Continue(h, Continue(h, w, a), b)
  {
    if b == [] {
      assert a + b == a;
    } else {
      ContinueSplit(h, w, a, b[..|b| - 1]);
      assert (a + b)[..|a + b| - 1] == a + b[..|b| - 1];
    }
  }

  /** ... so a run with a reopen anywhere ends like the run without it. */
  lemma ReopenAnywhere<P>(stamps: Stamps, h: Hasher<P>, before: seq<Event<P>>, after: seq<Event<P>>)
    requires OrderlyRun(stamps, h, before) && Run(h, before).mem.Some?
    ensures Run(h, before + [Open] + after) == Run(h, before + after)
  {
    ReopenIsUnobservable(stamps, h, before);
    assert (before + [Open])[..|before|] == before;
    ContinueSplit(h, Empty(), before + [Open], after);
    ContinueSplit(h, Empty(), before, after);
  }

  // ---- No row is lost ----

  ghost predicate Stored<P>(dir: Dir<P>, r: LogRow<P>) {
    Row(r) in dir.current.lines || exists s :: s in dir.segments && Row(r) in s.file.lines
  }

  lemma InLines<P>(rows: seq<LogRow<P>>, r: LogRow<P>)
    ensures Row(r) in LinesOf(rows) <==> r in rows
  {
    if r in rows {
      var i :| 0 <= i < |rows| && rows[i] == r;
      assert LinesOf(rows)[i] == Row(r);
    }
  }

  /** The rows a rotation leaves on disk are those that are anywhere but under
      the name it takes. */
  lemma RotationStores<P>(dir: Dir<P>, mem: Mem, stamp: nat, stop: Stop, r: LogRow<P>)
    requires StampsIncrease(dir.segments) && !stop.BeforeRename?
    ensures Stored(RotateStep(dir, mem, stamp, stop).0, r) <==> StoredElsewhere(dir, stamp, r)
  {
    var s, d := Segment(stamp, dir.current), RotateStep(dir, mem, stamp, stop).0;
    ArchiveMembers(dir.segments, s);
    if Row(r) in dir.current.lines {
      assert s in d.segments;
    }
    if t :| t in dir.segments && t.stamp != stamp && Row(r) in t.file.lines {
      assert t in d.segments;
    }
    if t :| t in d.segments && Row(r) in t.file.lines {
      assert t == s || (t in dir.segments && t.stamp != stamp);
    }
  }

  /** A rotation loses no row exactly when every row archived under the name it
      takes is in another file, too. It never invents one. */
  lemma RotationKeepsRowsIff<P(!new)>(dir: Dir<P>, mem: Mem, stamp: nat, stop: Stop)
    requires StampsIncrease(dir.segments) && !stop.BeforeRename?
    ensures var d := RotateStep(dir, mem, stamp, stop).0;
            && ((forall r :: Stored(dir, r) ==> Stored(d, r)) <==> Spares(dir, stamp))
            && (forall r :: Stored(d, r) ==> Stored(dir, r))
  {
    var d := RotateStep(dir, mem, stamp, stop).0;
    forall r ensures Stored(d, r) <==> StoredElsewhere(dir, stamp, r) {
      RotationStores(dir, mem, stamp, stop, r);
    }
    if forall r :: Stored(dir, r) ==> Stored(d, r) {
      forall s, line | s in dir.segments && s.stamp == stamp && line in s.file.lines && line.Row?
        ensures StoredElsewhere(dir, stamp, line.row)
      {
        assert Stored(dir, line.row);
      }
    }
    if Spares(dir, stamp) {
      forall r | Stored(dir, r) ensures Stored(d, r) {
        SparedIsElsewhere(dir, stamp, r);
      }
    }
  }

  lemma SparedIsElsewhere<P>(dir: Dir<P>, stamp: nat, r: LogRow<P>)
    requires Spares(dir, stamp)
    ensures Stored(dir, r) <==> StoredElsewhere(dir, stamp, r)
  {
  }

  lemma WriteStores<P>(h: Hasher<P>, dir: Dir<P>, rows: seq<LogRow<P>>, columns: P, stop: Stop, r: LogRow<P>)
    requires dir.current == Intact(rows) && !stop.BeforeNewline?
    ensures var d := WriteStep(h, dir, MemOf(rows), columns, stop).0;
            Stored(d, r) <==> Stored(dir, r) || (RowReachesDisk(stop) && r == NextRow(h, MemOf(rows), columns))
  {
  }

  lemma StepStores<P>(h: Hasher<P>, w: World<P>, e: Event<P>, rows: seq<LogRow<P>>, r: LogRow<P>)
    requires Inv(h, w, rows) && Orderly(Sparing, w, e)
    requires r in w.written <==> Stored(w.dir, r)
    ensures r in Step(h, w, e).written <==> Stored(Step(h, w, e).dir, r)
  {
    if e.Append? && w.mem.Some? {
      var rows', _ := InvAppend(Sparing, h, w, e, rows);
      if e.due && !e.stop.BeforeRename? {
        RotationStores(w.dir, w.mem.value, e.stamp, e.stop, r);
        SparedIsElsewhere(w.dir, e.stamp, r);
      }
      WriteStores(h, Rotated(w, e).dir, rows', e.columns, e.stop, r);
    }
  }

  /** Nothing is lost and nothing invented: whatever was cut short and wherever,
      the rows on disk are exactly the rows that were written, if no rotation
      takes a name under which a row has its last copy. */
  lemma {:induction false} EveryRowIsKept<P>(h: Hasher<P>, events: seq<Event<P>>, r: LogRow<P>)
    requires OrderlyRun(Sparing, h, events)
    ensures r in Run(h, events).written <==> Stored(Run(h, events).dir, r)
  {
    if events != [] {
      var front := events[..|events| - 1];
      var rows := RunInv(Sparing, h, front);
      EveryRowIsKept(h, front, r);
      StepStores(h, Run(h, front), events[|events| - 1], rows, r);
    }
  }

  // ---- The order of what is kept ----

  /** How the archived files and the current one tile what was written: each
      archived file is a prefix of what is left, and is then either done with
      or, when a rotation was cut short before its unlink, written out again
      at the start of the next. */
  ghost predicate Layout<P>(archived: seq<seq<LogRow<P>>>, rows: seq<LogRow<P>>, written: seq<LogRow<P>>) {
    if archived == [] then rows == written else
      && archived[0] <= written
      && (Layout(archived[1..], rows, written[|archived[0]|..]) || Layout(archived[1..], rows, written))
  }

  lemma {:induction false} LayoutAppend<P>(archived: seq<seq<LogRow<P>>>, rows: seq<LogRow<P>>,
                                           written: seq<LogRow<P>>, r: LogRow<P>)
    requires Layout(archived, rows, written)
    ensures Layout(archived, rows + [r], written + [r])
  {
    if archived != [] {
      var n := |archived[0]|;
      assert (written + [r])[..n] == written[..n];
      assert (written + [r])[n..] == written[n..] + [r];
      if Layout(archived[1..], rows, written[n..]) {
        LayoutAppend(archived[1..], rows, written[n..], r);
      } else {
        LayoutAppend(archived[1..], rows, written, r);
      }
    }
  }

  lemma {:induction false} LayoutArchive<P>(archived: seq<seq<LogRow<P>>>, rows: seq<LogRow<P>>,
                                            written: seq<LogRow<P>>)
    requires Layout(archived, rows, written)
    ensures Layout(archived + [rows], rows, written)
    ensures Layout(archived + [rows], [], written)
  {
    var more := archived + [rows];
    if archived == [] {
      assert more[1..] == [];
    } else {
      assert more[0] == archived[0] && more[1..] == archived[1..] + [rows];
      var n := |archived[0]|;
      if Layout(archived[1..], rows, written[n..]) {
        LayoutArchive(archived[1..], rows, written[n..]);
      } else {
        LayoutArchive(archived[1..], rows, written);
      }
    }
  }

  function ArchivedRows<P>(segments: seq<Segment<P>>): seq<seq<LogRow<P>>> {
    seq(|segments|, i requires 0 <= i < |segments| => Rows(segments[i].file.lines))
  }

  lemma ArchivedRowsSnoc<P>(segments: seq<Segment<P>>, s: Segment<P>)
    ensures ArchivedRows(segments + [s]) == ArchivedRows(segments) + [Rows(s.file.lines)]
  {
  }

  /** The archived files without the one whose original is still there. */
  function Done<P>(w: World<P>): seq<Segment<P>> {
    if w.cut.Some? && w.dir.segments != [] then w.dir.segments[..|w.dir.segments| - 1] else w.dir.segments
  }

  ghost predicate Cut<P>(w: World<P>, rows: seq<LogRow<P>>) {
    w.cut.Some? ==>
      var n := |w.dir.segments| - 1;
      n >= 0 && w.dir.segments[n].stamp == w.cut.value && Rows(w.dir.segments[n].file.lines) <= rows
  }

  ghost predicate Tiling<P>(w: World<P>, rows: seq<LogRow<P>>) {
    && Cut(w, rows)
    && Layout(ArchivedRows(w.dir.segments), rows, w.written)
    && Layout(ArchivedRows(Done(w)), rows, w.written)
  }

  /** Where a rotation puts its segment when its stamp is the newest, or the one
      of the rotation it does again: behind the others. */
  lemma ArchiveAtEnd<P>(w: World<P>, rows: seq<LogRow<P>>, stamp: nat)
    requires Cut(w, rows) && (w.cut == Some(stamp) || Newest(w.dir, stamp))
    ensures var s := Segment(stamp, w.dir.current);
            Archive(w.dir.segments, s)
            == (if w.cut == Some(stamp) then Done(w) else w.dir.segments) + [s]
  {
    if w.dir.segments != [] {
      assert w.dir.segments[|w.dir.segments| - 1] in w.dir.segments;
    }
  }

  lemma TilingRotate<P>(w: World<P>, e: Event<P>, rows: seq<LogRow<P>>, rows': seq<LogRow<P>>)
    requires Tiling(w, rows) && e.Append? && e.due && w.mem.Some? && w.dir.current == Intact(rows)
    requires !e.stop.BeforeRename? && Allows(Growing, w, e.stamp)
    requires rows' == if e.stop.BeforeUnlink? then rows else []
    ensures Tiling(Rotated(w, e), rows')
  {
    var s := Segment(e.stamp, w.dir.current);
    var before := if w.cut == Some(e.stamp) then Done(w) else w.dir.segments;
    RowsOfLines(rows);
    ArchiveAtEnd(w, rows, e.stamp);
    ArchivedRowsSnoc(before, s);
    LayoutArchive(ArchivedRows(before), rows, w.written);
    assert (before + [s])[..|before|] == before;
  }

  /** What the writing part of an append does to a world: at most one row is
      added, to the current file and to the history. */
  ghost predicate Wrote<P>(v: World<P>, w: World<P>, added: seq<LogRow<P>>) {
    && w.dir.segments == v.dir.segments && w.cut == v.cut
    && |added| <= 1 && w.written == v.written + added
  }

  lemma TilingWrite<P>(v: World<P>, w: World<P>, rows: seq<LogRow<P>>, added: seq<LogRow<P>>)
    requires Tiling(v, rows) && Wrote(v, w, added)
    ensures Tiling(w, rows + added)
  {
    if added == [] {
      assert rows + added == rows && v.written + added == v.written;
    } else {
      LayoutAppend(ArchivedRows(v.dir.segments), rows, v.written, added[0]);
      LayoutAppend(ArchivedRows(Done(v)), rows, v.written, added[0]);
      assert added == [added[0]];
    }
  }

  lemma AppendWrote<P>(stamps: Stamps, h: Hasher<P>, w: World<P>, e: Event<P>, rows: seq<LogRow<P>>)
    returns (rows': seq<LogRow<P>>, added: seq<LogRow<P>>)
    requires Inv(h, w, rows) && Orderly(stamps, w, e) && e.Append? && w.mem.Some?
    ensures Inv(h, Step(h, w, e), rows' + added) && Wrote(Rotated(w, e), Step(h, w, e), added)
    ensures rows' == if e.due && !e.stop.BeforeRename? && !e.stop.BeforeUnlink? then [] else rows
  {
    var more;
    rows', more := InvAppend(stamps, h, w, e, rows);
    added := if RowReachesDisk(e.stop) then [NextRow(h, Rotated(w, e).mem.value, e.columns)] else [];
    assert more == rows' + added;
  }

  lemma TilingStep<P>(h: Hasher<P>, w: World<P>, e: Event<P>, rows: seq<LogRow<P>>) returns (more: seq<LogRow<P>>)
    requires Inv(h, w, rows) && Orderly(Growing, w, e) && Tiling(w, rows)
    ensures Inv(h, Step(h, w, e), more) && Tiling(Step(h, w, e), more)
  {
    if e.Append? && w.mem.Some? {
      var rows', added := AppendWrote(Growing, h, w, e, rows);
      if e.due && !e.stop.BeforeRename? {
        TilingRotate(w, e, rows, rows');
      }
      TilingWrite(Rotated(w, e), Step(h, w, e), rows', added);
      more := rows' + added;
    } else {
      more := InvStep(Growing, h, w, e, rows);
      SameRows(w.dir.current, rows, more);
    }
  }

  /** A file is intact or torn behind one sequence of rows only. */
  lemma SameRows<P>(f: File<P>, a: seq<LogRow<P>>, b: seq<LogRow<P>>)
    requires f == Intact(a) || f == TornAfter(a)
    requires f == Intact(b) || f == TornAfter(b)
    ensures a == b && Rows(f.lines) == a
  {
    CurrentRows(a);
    CurrentRows(b);
  }

  /** The segments tile the history: each is the next stretch of it, which may
      be written out again at the start of the one that follows. */
  lemma {:induction false} DiskTilesHistory<P>(h: Hasher<P>, events: seq<Event<P>>)
    requires OrderlyRun(Growing, h, events)
    ensures var dir := Run(h, events).dir;
            Layout(ArchivedRows(dir.segments), Rows(dir.current.lines), Run(h, events).written)
  {
    var rows := RunTiles(h, events);
    SameRows(Run(h, events).dir.current, rows, rows);
  }

  lemma {:induction false} RunTiles<P>(h: Hasher<P>, events: seq<Event<P>>) returns (rows: seq<LogRow<P>>)
    requires OrderlyRun(Growing, h, events)
    ensures Inv(h, Run(h, events), rows) && Tiling(Run(h, events), rows)
  {
    if events == [] {
      rows := RunInv(Growing, h, events);
      SameRows(NoFile(), rows, []);
    } else {
      var front := events[..|events| - 1];
      rows := RunTiles(h, front);
      rows := TilingStep(h, Run(h, front), events[|events| - 1], rows);
    }
  }

  lemma OneByStamp<P>(segments: seq<Segment<P>>, s: Segment<P>, t: Segment<P>)
    requires StampsIncrease(segments) && s in segments && t in segments && s.stamp == t.stamp
    ensures s == t
  {
    var i :| 0 <= i < |segments| && segments[i] == s;
    var j :| 0 <= j < |segments| && segments[j] == t;
    assert i == j;
  }

  lemma TilingSpares<P>(h: Hasher<P>, w: World<P>, rows: seq<LogRow<P>>, stamp: nat)
    requires Inv(h, w, rows) && Tiling(w, rows) && w.mem.Some? && Allows(Growing, w, stamp)
    ensures Spares(w.dir, stamp)
  {
    if w.cut == Some(stamp) {
      var cut := w.dir.segments[|w.dir.segments| - 1];
      forall s, line | s in w.dir.segments && s.stamp == stamp && line in s.file.lines && line.Row?
        ensures Row(line.row) in w.dir.current.lines
      {
        OneByStamp(w.dir.segments, s, cut);
        assert GenuineSegment(h, s);
        InLines(Rows(s.file.lines), line.row);
        InLines(rows, line.row);
      }
    }
  }

  /** Stamps that grow, but for rotations that are done again, never cost a row
      its last copy. */
  lemma {:induction false} GrowingIsSparing<P>(h: Hasher<P>, events: seq<Event<P>>)
    requires OrderlyRun(Growing, h, events)
    ensures OrderlyRun(Sparing, h, events)
  {
    if events != [] {
      var front, last := events[..|events| - 1], events[|events| - 1];
      var w := Run(h, front);
      GrowingIsSparing(h, front);
      var rows := RunTiles(h, front);
      if last.Append? && w.mem.Some? && last.due && !last.stop.BeforeRename? {
        TilingSpares(h, w, rows, last.stamp);
      }
    }
  }

  /** The rows of the archived segments in order, then those of the current file. */
  function OnDisk<P>(dir: Dir<P>): seq<LogRow<P>> {
    SegmentRows(dir.segments) + Rows(dir.current.lines)
  }

  function SegmentRows<P>(segments: seq<Segment<P>>): seq<LogRow<P>> {
    if segments == [] then [] else
      SegmentRows(segments[..|segments| - 1]) + Rows(segments[|segments| - 1].file.lines)
  }

  lemma SegmentRowsSnoc<P>(front: seq<Segment<P>>, last: Segment<P>)
    ensures SegmentRows(front + [last]) == SegmentRows(front) + Rows(last.file.lines)
  {
    assert (front + [last])[..|front|] == front;
  }

  ghost predicate InHistory<P>(w: World<P>, rows: seq<LogRow<P>>) {
    Cut(w, rows) && SegmentRows(Done(w)) + rows == w.written
  }

  lemma HistoryRotate<P>(w: World<P>, e: Event<P>, rows: seq<LogRow<P>>, rows': seq<LogRow<P>>)
    requires InHistory(w, rows) && e.Append? && e.due && w.mem.Some? && w.dir.current == Intact(rows)
    requires !e.stop.BeforeRename? && Allows(Redone, w, e.stamp)
    requires rows' == if e.stop.BeforeUnlink? then rows else []
    ensures InHistory(Rotated(w, e), rows')
  {
    var s := Segment(e.stamp, w.dir.current);
    RowsOfLines(rows);
    ArchiveAtEnd(w, rows, e.stamp);
    SegmentRowsSnoc(Done(w), s);
    assert (Done(w) + [s])[..|Done(w)|] == Done(w);
  }

  lemma HistoryWrite<P>(v: World<P>, w: World<P>, rows: seq<LogRow<P>>, added: seq<LogRow<P>>)
    requires InHistory(v, rows) && Wrote(v, w, added)
    ensures InHistory(w, rows + added)
  {
    assert SegmentRows(Done(v)) + (rows + added) == SegmentRows(Done(v)) + rows + added;
  }

  lemma HistoryStep<P>(h: Hasher<P>, w: World<P>, e: Event<P>, rows: seq<LogRow<P>>) returns (more: seq<LogRow<P>>)
    requires Inv(h, w, rows) && Orderly(Redone, w, e) && InHistory(w, rows)
    ensures Inv(h, Step(h, w, e), more) && InHistory(Step(h, w, e), more)
  {
    if e.Append? && w.mem.Some? {
      var rows', added := AppendWrote(Redone, h, w, e, rows);
      if e.due && !e.stop.BeforeRename? {
        HistoryRotate(w, e, rows, rows');
      }
      HistoryWrite(Rotated(w, e), Step(h, w, e), rows', added);
      more := rows' + added;
    } else {
      more := InvStep(Redone, h, w, e, rows);
      SameRows(w.dir.current, rows, more);
    }
  }

  lemma {:induction false} RunIsHistory<P>(h: Hasher<P>, events: seq<Event<P>>) returns (rows: seq<LogRow<P>>)
    requires OrderlyRun(Redone, h, events)
    ensures Inv(h, Run(h, events), rows) && InHistory(Run(h, events), rows)
  {
    if events == [] {
      rows := RunInv(Redone, h, events);
      SameRows(NoFile(), rows, []);
    } else {
      var front := events[..|events| - 1];
      rows := RunIsHistory(h, front);
      rows := HistoryStep(h, Run(h, front), events[|events| - 1], rows);
    }
  }

  /** Once every rotation that was cut short before its unlink has been done
      again, the disk read in order is the history: nothing lost, repeated or
      reordered. */
  lemma RedoneDiskIsHistory<P>(h: Hasher<P>, events: seq<Event<P>>)
    requires OrderlyRun(Redone, h, events) && Run(h, events).cut.None?
    ensures OnDisk(Run(h, events).dir) == Run(h, events).written
  {
    var rows := RunIsHistory(h, events);
    SameRows(Run(h, events).dir.current, rows, rows);
  }

  lemma {:induction false} NothingToRedo<P>(h: Hasher<P>, events: seq<Event<P>>)
    requires OrderlyRun(Growing, h, events) && forall e :: e in events ==> !CutBeforeUnlink(e)
    ensures OrderlyRun(Redone, h, events) && Run(h, events).cut.None?
  {
    if events != [] {
      NothingToRedo(h, events[..|events| - 1]);
      assert events[|events| - 1] in events;
    }
  }

  /** In particular if none was. */
  lemma DiskIsHistory<P>(h: Hasher<P>, events: seq<Event<P>>)
    requires OrderlyRun(Growing, h, events) && forall e :: e in events ==> !CutBeforeUnlink(e)
    ensures OnDisk(Run(h, events).dir) == Run(h, events).written
  {
    NothingToRedo(h, events);
    RedoneDiskIsHistory(h, events);
  }

  // ---- How often each row is kept ----

  /** No archived file that still holds rows bears this stamp. */
  ghost predicate NameFree<P>(segments: seq<Segment<P>>, stamp: nat) {
    forall i :: 0 <= i < |segments| && segments[i].stamp == stamp ==> Rows(segments[i].file.lines) == []
  }

  lemma NameFreeSnoc<P>(front: seq<Segment<P>>, last: Segment<P>, stamp: nat)
    ensures NameFree(front + [last], stamp)
            <==> NameFree(front, stamp) && (last.stamp == stamp ==> Rows(last.file.lines) == [])
  {
    var segments := front + [last];
    assert segments[|front|] == last;
    assert forall i :: 0 <= i < |front| ==> segments[i] == front[i];
  }

  /** What a finished rotation makes of the archive's rows, counted. */
  ghost predicate Conserves<P>(segments: seq<Segment<P>>, s: Segment<P>) {
    var before, after, rows := SegmentRows(segments), SegmentRows(Archive(segments, s)), Rows(s.file.lines);
    && (NameFree(segments, s.stamp) ==> multiset(after) == multiset(before) + multiset(rows))
    && (!NameFree(segments, s.stamp) ==> |after| < |before| + |rows|)
  }

  lemma ConservesInPlace<P>(front: seq<Segment<P>>, last: Segment<P>, s: Segment<P>)
    requires StampsIncrease(front + [last]) && s.stamp == last.stamp
    ensures Conserves(front + [last], s)
  {
    SegmentRowsSnoc(front, last);
    SegmentRowsSnoc(front, s);
    NameFreeSnoc(front, last, s.stamp);
    forall i | 0 <= i < |front| ensures front[i].stamp < s.stamp {
      assert (front + [last])[i].stamp < (front + [last])[|front|].stamp;
    }
    assert NameFree(front, s.stamp);
    assert Archive(front + [last], s) == front + [s];
  }

  lemma ConservesBehind<P>(front: seq<Segment<P>>, last: Segment<P>, s: Segment<P>)
    requires StampsIncrease(front + [last]) && s.stamp > last.stamp
    ensures Conserves(front + [last], s)
  {
    var segments := front + [last];
    SegmentRowsSnoc(segments, s);
    forall i | 0 <= i < |segments| ensures segments[i].stamp < s.stamp {
      assert i < |front| ==> segments[i].stamp < segments[|front|].stamp;
    }
    assert Archive(segments, s) == segments + [s];
  }

  lemma ConservesBefore<P>(front: seq<Segment<P>>, last: Segment<P>, s: Segment<P>)
    requires s.stamp < last.stamp && Conserves(front, s)
    ensures Conserves(front + [last], s)
  {
    var more, rows := Archive(front, s), Rows(s.file.lines);
    NameFreeSnoc(front, last, s.stamp);
    SegmentRowsSnoc(front, last);
    SegmentRowsSnoc(more, last);
    assert (front + [last])[..|front|] == front;
    if NameFree(front, s.stamp) {
      MultisetSwap(SegmentRows(more), SegmentRows(front), rows, Rows(last.file.lines));
    }
  }

  lemma MultisetSwap<T>(a: seq<T>, b: seq<T>, c: seq<T>, d: seq<T>)
    requires multiset(a) == multiset(b) + multiset(c)
    ensures multiset(a + d) == multiset(b + d) + multiset(c)
  {
  }

  /** A finished rotation conserves the archived rows, each as often as it was
      there, exactly when the new segment's name was free; otherwise there are
      fewer of them. */
  lemma {:induction false} RotationConservesIff<P>(segments: seq<Segment<P>>, s: Segment<P>)
    requires StampsIncrease(segments)
    ensures Conserves(segments, s)
  {
    if segments == [] {
      SegmentRowsSnoc([], s);
    } else {
      var front, last := segments[..|segments| - 1], segments[|segments| - 1];
      assert segments == front + [last];
      if s.stamp > last.stamp {
        ConservesBehind(front, last, s);
      } else if s.stamp == last.stamp {
        ConservesInPlace(front, last, s);
      } else {
        RotationConservesIff(front, s);
        ConservesBefore(front, last, s);
      }
    }
  }

  ghost predicate InSomeOrder<P>(w: World<P>, rows: seq<LogRow<P>>) {
    multiset(SegmentRows(w.dir.segments)) + multiset(rows) == multiset(w.written)
  }

  lemma SomeOrderRotate<P>(w: World<P>, e: Event<P>, rows: seq<LogRow<P>>)
    requires InSomeOrder(w, rows) && e.Append? && e.due && w.mem.Some? && w.dir.current == Intact(rows)
    requires StampsIncrease(w.dir.segments) && Unused(w.dir, e.stamp)
    requires !e.stop.BeforeRename? && !e.stop.BeforeUnlink?
    ensures InSomeOrder(Rotated(w, e), [])
  {
    var s := Segment(e.stamp, w.dir.current);
    RowsOfLines(rows);
    RotationConservesIff(w.dir.segments, s);
    forall i | 0 <= i < |w.dir.segments| ensures w.dir.segments[i].stamp != e.stamp {
      assert w.dir.segments[i] in w.dir.segments;
    }
    assert NameFree(w.dir.segments, s.stamp);
  }

  lemma SomeOrderStep<P>(h: Hasher<P>, w: World<P>, e: Event<P>, rows: seq<LogRow<P>>) returns (more: seq<LogRow<P>>)
    requires Inv(h, w, rows) && Orderly(Distinct, w, e) && InSomeOrder(w, rows) && !CutBeforeUnlink(e)
    ensures Inv(h, Step(h, w, e), more) && InSomeOrder(Step(h, w, e), more)
  {
    if e.Append? && w.mem.Some? {
      var rows', added := AppendWrote(Distinct, h, w, e, rows);
      if e.due && !e.stop.BeforeRename? {
        SomeOrderRotate(w, e, rows);
      }
      more := rows' + added;
      assert multiset(more) == multiset(rows') + multiset(added);
    } else {
      more := InvStep(Distinct, h, w, e, rows);
      SameRows(w.dir.current, rows, more);
    }
  }

  lemma {:induction false} RunIsInSomeOrder<P>(h: Hasher<P>, events: seq<Event<P>>) returns (rows: seq<LogRow<P>>)
    requires OrderlyRun(Distinct, h, events) && forall e :: e in events ==> !CutBeforeUnlink(e)
    ensures Inv(h, Run(h, events), rows) && InSomeOrder(Run(h, events), rows)
  {
    if events == [] {
      rows := RunInv(Distinct, h, events);
      SameRows(NoFile(), rows, []);
    } else {
      var front, last := events[..|events| - 1], events[|events| - 1];
      assert last in events && forall e :: e in front ==> e in events;
      rows := RunIsInSomeOrder(h, front);
      rows := SomeOrderStep(h, Run(h, front), last, rows);
    }
  }

  /** If stamps are distinct, growing or not, and no rotation was cut short
      before its unlink, each row is on disk as often as it was written. */
  lemma DiskIsHistoryInSomeOrder<P>(h: Hasher<P>, events: seq<Event<P>>)
    requires OrderlyRun(Distinct, h, events) && forall e :: e in events ==> !CutBeforeUnlink(e)
    ensures multiset(OnDisk(Run(h, events).dir)) == multiset(Run(h, events).written)
  {
    var rows := RunIsInSomeOrder(h, events);
    SameRows(Run(h, events).dir.current, rows, rows);
  }

  // ---- Where the guarantees stop ----

  /** What an append that does not rotate makes of an intact file. */
  lemma WriteToIntact<P>(h: Hasher<P>, dir: Dir<P>, rows: seq<LogRow<P>>, columns: P)
    requires Genuine(h, rows) && dir.current == Intact(rows)
    ensures var d := WriteStep(h, dir, MemOf(rows), columns, Completes).0;
            Report(h, d.current.lines).errors == []
  {
    var row := NextRow(h, MemOf(rows), columns);
    IntactAppend(rows, row);
    GenuineAppend(h, rows, columns);
    GenuineIsClean(h, rows + [row]);
  }

  /** ... written twice over, because the first time was not acknowledged. */
  lemma WriteTwice<P(!new)>(h: Hasher<P>, dir: Dir<P>, rows: seq<LogRow<P>>, first: P, second: P)
    requires NeverGenesis(h) && Genuine(h, rows) && dir.current == Intact(rows)
    ensures var (d1, m1) := WriteStep(h, dir, MemOf(rows), first, BeforeSync);
            var d2 := WriteStep(h, d1, m1, second, Completes).0;
            Report(h, d2.current.lines).errors == [] <==> rows == []
  {
    var mem := MemOf(rows);
    var a, b := NextRow(h, mem, first), NextRow(h, mem, second);
    IntactAppend(rows, a);
    IntactAppend(rows + [a], b);
    var all := rows + [a] + [b];
    RowsOfLines(all);
    CleanReportIff(h, LinesOf(all));
    GenuineIsClean(h, rows);
    RowsOfLines(rows);
    CleanReportIff(h, LinesOf(rows));
    ChainedExtends(h, rows, a);
    ChainedExtends(h, rows + [a], b);
    if rows != [] {
      assert GenuineAt(h, rows, |rows| - 1);
    }
  }

  /** ... behind a row that is torn or has lost its newline. */
  lemma WriteGlued<P>(h: Hasher<P>, dir: Dir<P>, lines: seq<Line<P>>, last: Line<P>, mem: Mem, columns: P)
    requires dir.current == File(lines + [last], false)
    ensures var d := WriteStep(h, dir, mem, columns, Completes).0;
            d.current.lines == lines + [Garbage] && Report(h, d.current.lines).errors != []
  {
    var glued := lines + [Garbage];
    assert (lines + [last])[..|lines|] == lines;
    assert glued[|lines|].Garbage?;
    assert FaultAt(h, glued, |lines|, ParseError);
    IssueIsFault(h, glued, |lines| + 1, ParseError);
  }

  /** An append fails, and the process goes on and tries again: the current file
      verifies after that exactly when the retry rotates the failed one away,
      or no byte of the row had been written, or the whole of it had and it was
      the first row of its file. */
  lemma RetryAfterFailureIff<P(!new)>(h: Hasher<P>, dir: Dir<P>, rows: seq<LogRow<P>>,
                                      first: P, due1: bool, stamp1: nat, stop: Stop,
                                      second: P, due2: bool, stamp2: nat)
    requires NeverGenesis(h) && Genuine(h, rows) && dir.current == Intact(rows) && !stop.Completes?
    ensures var (d1, m1) := AppendStep(h, dir, MemOf(rows), first, due1, stamp1, stop);
            var d2 := AppendStep(h, d1, m1, second, due2, stamp2, Completes).0;
            Report(h, d2.current.lines).errors == [] <==>
            || due2
            || (!stop.MidRow? && !stop.BeforeNewline? && !stop.BeforeSync?)
            || (stop.BeforeSync? && (rows == [] || due1))
  {
    var (d0, m0) := if due1 then RotateStep(dir, MemOf(rows), stamp1, stop) else (dir, MemOf(rows));
    var rows0 := if due1 && !stop.BeforeRename? && !stop.BeforeUnlink? then [] else rows;
    var (d1, m1) := AppendStep(h, dir, MemOf(rows), first, due1, stamp1, stop);
    assert LinesOf<P>([]) == [];
    assert d0.current == Intact(rows0) && m0 == MemOf(rows0);
    if due2 {
      var d := RotateStep(d1, m1, stamp2, Completes).0;
      WriteToIntact(h, d, [], second);
    } else if stop.BeforeSync? {
      WriteTwice(h, d0, rows0, first, second);
    } else if stop.MidRow? {
      WriteGlued(h, d1, LinesOf(rows0), Garbage, m1, second);
    } else if stop.BeforeNewline? {
      WriteGlued(h, d1, LinesOf(rows0), Row(NextRow(h, m0, first)), m1, second);
    } else {
      WriteToIntact(h, d0, rows0, second);
    }
  }

  /** A completed append is readable exactly when it rotated the file before it
      or the file it went to ended in a newline. */
  lemma AcknowledgedIsReadableIff<P>(h: Hasher<P>, dir: Dir<P>, mem: Mem, columns: P, due: bool, stamp: nat)
    ensures var lines := AppendStep(h, dir, mem, columns, due, stamp, Completes).0.current.lines;
            lines != [] && (lines[|lines| - 1] == Row(NextRow(h, if due then FRESH else mem, columns))
                            <==> due || dir.current.terminated || dir.current.lines == [])
  {
  }

  lemma {:induction false} ArchiveHas<P>(segments: seq<Segment<P>>, s: Segment<P>)
    ensures s in Archive(segments, s)
  {
    if segments != [] {
      ArchiveHas(segments[..|segments| - 1], s);
    }
  }

  /** The file a row without its newline leaves, and what opening makes of it. */
  lemma WithoutNewline<P>(h: Hasher<P>, rows: seq<LogRow<P>>, columns: P)
    requires Genuine(h, rows)
    ensures var r := NextRow(h, MemOf(rows), columns);
            var f := WithRow(Intact(rows), r, false);
            && f == File(LinesOf(rows) + [Row(r)], false)
            && Recovered(f.lines, |f.lines|) == Ok(MemOf(rows + [r]))
  {
    var r := NextRow(h, MemOf(rows), columns);
    GenuineAppend(h, rows, columns);
    IntactAppend(rows, r);
    IntactRecovers(h, rows + [r]);
  }

  /** Behind it, a row that is appended without rotating is lost with it. */
  lemma GluedRowsAreLost<P>(h: Hasher<P>, rows: seq<LogRow<P>>, r: LogRow<P>)
    requires Genuine(h, rows) && r.body.tsSeq > |rows|
    ensures var lines := LinesOf(rows) + [Garbage];
            Row(r) !in lines && Rows(lines) == rows && Recovered(lines, |lines|).Err?
  {
    assert (LinesOf(rows) + [Garbage])[..|rows|] == LinesOf(rows);
    RowsOfLines(rows);
    AnchorOfLines(rows, |rows|);
    InLines(rows, r);
    forall i | 0 <= i < |rows| ensures rows[i] != r {
      assert GenuineAt(h, rows, i);
    }
  }

  /** A crash that costs a row only its newline is not noticed on reopening. The
      next acknowledged append spoils both rows and the file exactly unless it
      rotates: then both rows are kept, and the file opens. */
  lemma LostNewline<P>(h: Hasher<P>, dir: Dir<P>, rows: seq<LogRow<P>>, first: P, due1: bool, stamp1: nat,
                       second: P, due2: bool, stamp2: nat)
    requires Genuine(h, rows) && dir.current == Intact(rows)
    ensures var rows0 := if due1 then [] else rows;
            var r := NextRow(h, MemOf(rows0), first);
            var d1 := AppendStep(h, dir, MemOf(rows), first, due1, stamp1, BeforeNewline).0;
            var reopened := Recovered(d1.current.lines, |d1.current.lines|);
            && reopened == Ok(MemOf(rows0 + [r]))
            && var (d2, m2) := AppendStep(h, d1, reopened.value, second, due2, stamp2, Completes);
               var s := NextRow(h, if due2 then FRESH else reopened.value, second);
               if due2 then
                 Stored(d2, r) && Stored(d2, s) && Recovered(d2.current.lines, |d2.current.lines|) == Ok(m2)
               else
                 && Row(r) !in d2.current.lines && Row(s) !in d2.current.lines
                 && Rows(d2.current.lines) == rows0 && Recovered(d2.current.lines, |d2.current.lines|).Err?
  {
    var rows0 := if due1 then [] else rows;
    var r := NextRow(h, MemOf(rows0), first);
    var d1 := AppendStep(h, dir, MemOf(rows), first, due1, stamp1, BeforeNewline).0;
    var mem := MemOf(rows0 + [r]);
    var s := NextRow(h, if due2 then FRESH else mem, second);
    assert LinesOf<P>([]) == [];
    WithoutNewline(h, rows0, first);
    assert d1.current == File(LinesOf(rows0) + [Row(r)], false);
    var d2 := AppendStep(h, d1, mem, second, due2, stamp2, Completes).0;
    if due2 {
      ArchiveHas(d1.segments, Segment(stamp2, d1.current));
      assert (LinesOf(rows0) + [Row(r)])[|rows0|] == Row(r);
      GenuineAppend(h, [], second);
      IntactAppend([], s);
      IntactRecovers(h, [s]);
      assert d2.current == Intact([s]) && d2.current.lines[0] == Row(s);
    } else {
      WriteGlued(h, d1, LinesOf(rows0), Row(r), mem, second);
      GluedRowsAreLost(h, rows0, r);
      GluedRowsAreLost(h, rows0, s);
    }
  }

  lemma OneMoreEvent<P>(stamps: Stamps, h: Hasher<P>, events: seq<Event<P>>, e: Event<P>)
    requires OrderlyRun(stamps, h, events) && Orderly(stamps, Run(h, events), e)
    ensures OrderlyRun(stamps, h, events + [e]) && Run(h, events + [e]) == Step(h, Run(h, events), e)
  {
    assert (events + [e])[..|events|] == events;
  }

  /** A row appended to an intact file that is rotated first, under some stamp. */
  function RotatedIn<P>(columns: P, stamp: nat): Event<P> {
    Append(columns, true, stamp, Completes, false)
  }

  function OneRow<P>(h: Hasher<P>, columns: P): File<P> {
    File([Row(NextRow(h, FRESH, columns))], true)
  }

  /** A running log with one row in its current file and nothing archived, or
      one segment under this stamp: the next rotation replaces that. */
  lemma ReplacesArchive<P>(h: Hasher<P>, w: World<P>, columns: P, stamp: nat)
    requires w.mem.Some? && |w.dir.segments| <= 1 && w.dir.current.lines != []
    requires w.dir.segments != [] ==> w.dir.segments[0].stamp == stamp
    ensures var after := Step(h, w, RotatedIn(columns, stamp));
            && Orderly(Arbitrary, w, RotatedIn(columns, stamp))
            && after.mem.Some? && after.dir.current == OneRow(h, columns)
            && after.dir.segments == [Segment(stamp, w.dir.current)]
            && after.written == w.written + [NextRow(h, FRESH, columns)]
  {
  }

  lemma FirstRow<P>(h: Hasher<P>, a: P)
    ensures var events := [Open, Append(a, false, 0, Completes, false)];
            var w := Run(h, events);
            && OrderlyRun(Arbitrary, h, events) && w.mem.Some? && w.dir.current == OneRow(h, a)
            && w.dir.segments == [] && w.written == [NextRow(h, FRESH, a)]
  {
    var e := Append(a, false, 0, Completes, false);
    var none: seq<Event<P>> := [];
    OneMoreEvent(Arbitrary, h, none, Open);
    OneMoreEvent(Arbitrary, h, none + [Open], e);
    assert none + [Open] + [e] == [Open, e];
  }

  /** A second file filled and rotated within the second of the first: its
      archive replaces the first one's, and the row in that is gone. */
  lemma SecondFileInOneSecond<P>(h: Hasher<P>, a: P, b: P, c: P, stamp: nat)
    requires a != b && a != c
    ensures var events := [Open, Append(a, false, 0, Completes, false), RotatedIn(b, stamp), RotatedIn(c, stamp)];
            var w, row := Run(h, events), NextRow(h, FRESH, a);
            OrderlyRun(Arbitrary, h, events) && row in w.written && !Stored(w.dir, row)
  {
    var first := [Open, Append(a, false, 0, Completes, false)];
    FirstRow(h, a);
    ReplacesArchive(h, Run(h, first), b, stamp);
    OneMoreEvent(Arbitrary, h, first, RotatedIn(b, stamp));
    var second := first + [RotatedIn(b, stamp)];
    ReplacesArchive(h, Run(h, second), c, stamp);
    OneMoreEvent(Arbitrary, h, second, RotatedIn(c, stamp));
    assert second + [RotatedIn(c, stamp)]
        == [Open, Append(a, false, 0, Completes, false), RotatedIn(b, stamp), RotatedIn(c, stamp)];
    assert Run(h, first).written[0] == NextRow(h, FRESH, a);
  }
}
