/**
 Rewriting a v1 log as v2: every row is given a digest, and the chain is built
 anew over the new rows.
 */
module Migration {
  import opened Wrappers
  import opened Provenance
  import opened ChainVerify
  import opened LogLifecycle
  import opened Strings
  import Canonical

  /** What is carried over from a row of either version. */
  datatype Seed = Seed(
    ts: int,
    tsSeq: nat,
    fields: Fields,
    sessionId: string,
    digestIn: Option<string>,
    storedHash: HashText)

  predicate Readable(line: Line<Columns>) {
    line.Blank? || line.Row? || line.V1?
  }

  function SeedOf(line: Line<Columns>): Seed
    requires line.Row? || line.V1?
  {
    match line
    case V1(v) => Seed(v.ts, v.tsSeq, v.fields, v.sessionId, None, v.thisHash)
    case Row(r) =>
      var c := r.body.columns;
      Seed(c.ts, r.body.tsSeq, c.input.fields, c.sessionId, c.input.canonicalDigest, r.thisHash)
  }

  /** The seeds of the first `n` lines, or the first line that is of neither version. */
  function Seeds(lines: seq<Line<Columns>>, n: nat): Result<seq<Seed>, nat>
    requires n <= |lines|
  {
    if n == 0 then Ok([]) else
      var before := Seeds(lines, n - 1);
      if before.Err? then before
      else if lines[n - 1].Blank? then before
      else if Readable(lines[n - 1]) then Ok(before.value + [SeedOf(lines[n - 1])])
      else Err(n)
  }

  function DigestFor(sha: string -> string, seed: Seed): Option<string> {
    if seed.digestIn.Some? then seed.digestIn
    else match seed.fields.ref_
         case None => None
         case Some(id) => Some(sha(Canonical.Preimage(Canonical.LoggedRef(id, seed.fields.source))))
  }

  function NewColumns(sha: string -> string, seed: Seed): Columns {
    Columns(seed.ts, RowInput(seed.fields, DigestFor(sha, seed)), seed.sessionId, LOG_SCHEMA_VERSION)
  }

  function NewRow(h: Hasher<Columns>, sha: string -> string, seed: Seed, prevHash: HashText): LogRow<Columns> {
    var body := RowForHash(seed.tsSeq, NewColumns(sha, seed), prevHash);
    LogRow(body, h(body))
  }

  function HeadHash(rows: seq<LogRow<Columns>>): HashText {
    if rows == [] then Genesis else rows[|rows| - 1].thisHash
  }

  /** The rows of the first `n` seeds, chained from the sentinel. */
  function Rebuilt(h: Hasher<Columns>, sha: string -> string, seeds: seq<Seed>, n: nat): (rows: seq<LogRow<Columns>>)
    requires n <= |seeds|
    ensures |rows| == n
  {
    if n == 0 then [] else
      var front := Rebuilt(h, sha, seeds, n - 1);
      front + [NewRow(h, sha, seeds[n - 1], HeadHash(front))]
  }

  function Migrated(h: Hasher<Columns>, sha: string -> string, seeds: seq<Seed>): (rows: seq<LogRow<Columns>>)
    ensures |rows| == |seeds|
  {
    Rebuilt(h, sha, seeds, |seeds|)
  }

  // ---- What the rewritten rows are ----

  lemma {:induction false} RebuiltAt(h: Hasher<Columns>, sha: string -> string, seeds: seq<Seed>, n: nat, i: nat)
    requires i < n <= |seeds|
    ensures var rows := Rebuilt(h, sha, seeds, n);
            rows[i] == NewRow(h, sha, seeds[i], if i == 0 then Genesis else rows[i - 1].thisHash)
  {
    if i < n - 1 {
      RebuiltAt(h, sha, seeds, n - 1, i);
    }
  }

  lemma MigratedAt(h: Hasher<Columns>, sha: string -> string, seeds: seq<Seed>, i: nat)
    requires i < |seeds|
    ensures var rows := Migrated(h, sha, seeds);
            rows[i] == NewRow(h, sha, seeds[i], if i == 0 then Genesis else rows[i - 1].thisHash)
  {
    RebuiltAt(h, sha, seeds, |seeds|, i);
  }

  ghost predicate NumbersIncrease(seeds: seq<Seed>) {
    forall i :: 0 < i < |seeds| ==> NumberIncreasesAt(seeds, i)
  }

  ghost predicate NumberIncreasesAt(seeds: seq<Seed>, i: int)
    requires 0 < i < |seeds|
  {
    seeds[i - 1].tsSeq < seeds[i].tsSeq
  }

  // ---- What a migration makes of a log, line by line ----

  ghost predicate AllReadable(lines: seq<Line<Columns>>) {
    forall i :: 0 <= i < |lines| ==> !lines[i].Garbage?
  }

  /** The lines, out of the first `n`, that are not blank. */
  function Filled(lines: seq<Line<Columns>>, n: nat): (filled: seq<Line<Columns>>)
    requires n <= |lines|
    ensures forall i :: 0 <= i < |filled| ==> !filled[i].Blank?
  {
    if n == 0 then [] else Filled(lines, n - 1) + if lines[n - 1].Blank? then [] else [lines[n - 1]]
  }

  function AllFilled(lines: seq<Line<Columns>>): seq<Line<Columns>> {
    Filled(lines, |lines|)
  }

  function NumberOf(line: Line<Columns>): nat {
    match line
    case V1(v) => v.tsSeq
    case Row(r) => r.body.tsSeq
    case _ => 0
  }

  function HashOf(line: Line<Columns>): HashText {
    match line
    case V1(v) => v.thisHash
    case Row(r) => r.thisHash
    case _ => Genesis
  }

  /** The numbers of the lines that are not blank strictly increase. */
  ghost predicate Increases(lines: seq<Line<Columns>>) {
    forall i :: 0 < i < |AllFilled(lines)| ==> IncreasesAt(AllFilled(lines), i)
  }

  ghost predicate IncreasesAt(filled: seq<Line<Columns>>, i: int)
    requires 0 < i < |filled|
  {
    NumberOf(filled[i - 1]) < NumberOf(filled[i])
  }

  /** The digest of a row's own reference, by the bytes that are hashed. */
  function OwnDigest(sha: string -> string, f: Fields): Option<string> {
    if f.ref_.None? then None
    else
      var id, source := f.ref_.value, if f.source.Some? then f.source.value else "";
      Some(sha((if StartsWith(id, "10.") then "doi" else "arxiv") + "\0" + id + "\0" + source + "\0" + ""))
  }

  /** A v1 row becomes a v2 row with the digest of its reference; a v2 row stays
      one, and is given that digest if it has none. */
  ghost predicate CarriesOver(sha: string -> string, line: Line<Columns>, row: LogRow<Columns>) {
    match line
    case V1(v) =>
      && row.body.tsSeq == v.tsSeq
      && row.body.columns == Columns(v.ts, RowInput(v.fields, OwnDigest(sha, v.fields)), v.sessionId, "v2")
    case Row(r) =>
      var c := r.body.columns;
      var digest := if c.input.canonicalDigest.Some? then c.input.canonicalDigest else OwnDigest(sha, c.input.fields);
      && row.body.tsSeq == r.body.tsSeq
      && row.body.columns == Columns(c.ts, RowInput(c.input.fields, digest), c.sessionId, "v2")
    case _ => false
  }

  ghost predicate CarriesOverAt(sha: string -> string, lines: seq<Line<Columns>>, rows: seq<LogRow<Columns>>, i: nat)
    requires i < |lines| && i < |rows|
  {
    CarriesOver(sha, lines[i], rows[i])
  }

  /** One row for each line that is not blank, in order, chained anew. */
  ghost predicate CarriesAll(h: Hasher<Columns>, sha: string -> string,
                             lines: seq<Line<Columns>>, rows: seq<LogRow<Columns>>)
  {
    && |rows| == |AllFilled(lines)|
    && (forall i: nat :: i < |rows| ==> CarriesOverAt(sha, AllFilled(lines), rows, i))
    && (forall i: nat :: i < |rows| ==> LinkedAt(h, rows, i))
  }

  lemma {:induction false} SeedsOfLines(lines: seq<Line<Columns>>, n: nat)
    requires n <= |lines|
    ensures var seeds, filled := Seeds(lines, n), Filled(lines, n);
            && (seeds.Ok? <==> forall i :: 0 <= i < n ==> !lines[i].Garbage?)
            && (seeds.Err? ==> 0 < seeds.error <= n && lines[seeds.error - 1].Garbage?
                               && forall i :: 0 <= i < seeds.error - 1 ==> !lines[i].Garbage?)
            && (seeds.Ok? ==> |seeds.value| == |filled| && forall i :: 0 <= i < |filled| ==>
                  (filled[i].Row? || filled[i].V1?) && seeds.value[i] == SeedOf(filled[i]))
  {
    if n > 0 {
      SeedsOfLines(lines, n - 1);
    }
  }

  lemma OwnDigestIs(sha: string -> string, seed: Seed)
    ensures DigestFor(sha, seed) == if seed.digestIn.Some? then seed.digestIn else OwnDigest(sha, seed.fields)
  {
    if seed.digestIn.None? && seed.fields.ref_.Some? {
      var c := Canonical.LoggedRef(seed.fields.ref_.value, seed.fields.source);
      assert Canonical.VersionText(c) == "";
    }
  }

  /** What the rows of a migration are, said of the lines of the log: as many as
      are not blank, in order, with the numbers, times, fields and sessions of
      those lines. */
  lemma MigrationKeepsRows(h: Hasher<Columns>, sha: string -> string, lines: seq<Line<Columns>>)
    ensures var seeds := Seeds(lines, |lines|);
            && (seeds.Ok? <==> AllReadable(lines))
            && (seeds.Ok? ==> CarriesAll(h, sha, lines, Migrated(h, sha, seeds.value)))
            && (seeds.Ok? ==> (NumbersIncrease(seeds.value) <==> Increases(lines)))
  {
    SeedsOfLines(lines, |lines|);
    if AllReadable(lines) {
      var seeds, filled := Seeds(lines, |lines|).value, AllFilled(lines);
      var rows := Migrated(h, sha, seeds);
      forall i: nat | i < |rows| ensures CarriesOverAt(sha, filled, rows, i) && LinkedAt(h, rows, i) {
        MigratedAt(h, sha, seeds, i);
        OwnDigestIs(sha, seeds[i]);
        assert seeds[i] == SeedOf(filled[i]);
      }
      forall i | 0 < i < |seeds| ensures NumberIncreasesAt(seeds, i) <==> IncreasesAt(filled, i) {
        assert seeds[i] == SeedOf(filled[i]) && seeds[i - 1] == SeedOf(filled[i - 1]);
      }
    }
  }

  /** The rewritten log verifies exactly when the numbers strictly increase
      over the whole file; a log that restarted does not. */
  lemma MigratedVerifiesIff(h: Hasher<Columns>, sha: string -> string, seeds: seq<Seed>)
    requires NeverGenesis(h)
    ensures Report(h, LinesOf(Migrated(h, sha, seeds))).errors == [] <==> NumbersIncrease(seeds)
  {
    var rows := Migrated(h, sha, seeds);
    RowsOfLines(rows);
    CleanReportIff(h, LinesOf(rows));
    forall i | 0 <= i < |rows| ensures h(rows[i].body) == rows[i].thisHash {
      MigratedAt(h, sha, seeds, i);
    }
    forall i | 0 < i < |rows| ensures FollowsAt(rows, i) <==> NumberIncreasesAt(seeds, i) {
      MigratedAt(h, sha, seeds, i);
      MigratedAt(h, sha, seeds, i - 1);
    }
    if rows != [] {
      MigratedAt(h, sha, seeds, 0);
    }
  }

  lemma {:induction false} SeedsOfRows(rows: seq<LogRow<Columns>>, n: nat)
    requires n <= |rows|
    ensures var r := Seeds(LinesOf(rows), n);
            r.Ok? && |r.value| == n && forall i :: 0 <= i < n ==> r.value[i] == SeedOf(Row(rows[i]))
  {
    if n > 0 {
      SeedsOfRows(rows, n - 1);
    }
  }

  function RowSeeds(rows: seq<LogRow<Columns>>): seq<Seed> {
    seq(|rows|, i requires 0 <= i < |rows| => SeedOf(Row(rows[i])))
  }

  lemma SeedsAreRowSeeds(rows: seq<LogRow<Columns>>)
    ensures Seeds(LinesOf(rows), |LinesOf(rows)|) == Ok(RowSeeds(rows))
  {
    SeedsOfRows(rows, |rows|);
    assert Seeds(LinesOf(rows), |rows|).value == RowSeeds(rows);
  }

  /** A row that migration would write again as it stands. */
  predicate Settled(r: LogRow<Columns>) {
    var c := r.body.columns;
    c.schemaVersion == LOG_SCHEMA_VERSION && (c.input.fields.ref_.Some? ==> c.input.canonicalDigest.Some?)
  }

  ghost predicate LinkedAt(h: Hasher<Columns>, rows: seq<LogRow<Columns>>, i: nat)
    requires i < |rows|
  {
    && rows[i].thisHash == h(rows[i].body)
    && rows[i].body.prevHash == if i == 0 then Genesis else rows[i - 1].thisHash
  }

  lemma SettledIff(sha: string -> string, r: LogRow<Columns>)
    ensures NewColumns(sha, SeedOf(Row(r))) == r.body.columns <==> Settled(r)
  {
  }

  ghost predicate StaysAt(h: Hasher<Columns>, rows: seq<LogRow<Columns>>, i: nat)
    requires i < |rows|
  {
    LinkedAt(h, rows, i) && Settled(rows[i])
  }

  lemma {:induction false} RebuiltIsSame(h: Hasher<Columns>, sha: string -> string,
                                         rows: seq<LogRow<Columns>>, n: nat, i: nat)
    requires i < n <= |rows|
    requires forall j: nat :: j < n ==> StaysAt(h, rows, j)
    ensures Rebuilt(h, sha, RowSeeds(rows), n)[i] == rows[i]
    decreases n
  {
    if i < n - 1 {
      RebuiltIsSame(h, sha, rows, n - 1, i);
    } else {
      if i > 0 {
        RebuiltIsSame(h, sha, rows, i, i - 1);
      }
      assert StaysAt(h, rows, i);
      SettledRowIsSame(h, sha, rows[i], HeadHash(Rebuilt(h, sha, RowSeeds(rows), i)));
    }
  }

  lemma SettledRowIsSame(h: Hasher<Columns>, sha: string -> string, r: LogRow<Columns>, prevHash: HashText)
    requires Settled(r) && r.thisHash == h(r.body) && r.body.prevHash == prevHash
    ensures NewRow(h, sha, SeedOf(Row(r)), prevHash) == r
  {
    SettledIff(sha, r);
  }

  /** Migrating rows that are already v2 gives the same rows exactly when each
      is settled and they form one chain without a restart inside. */
  lemma MigrationIsNoOpIff(h: Hasher<Columns>, sha: string -> string, rows: seq<LogRow<Columns>>)
    ensures Migrated(h, sha, RowSeeds(rows)) == rows
            <==> forall i: nat :: i < |rows| ==> StaysAt(h, rows, i)
  {
    if forall i: nat :: i < |rows| ==> StaysAt(h, rows, i) {
      forall i | 0 <= i < |rows| ensures Migrated(h, sha, RowSeeds(rows))[i] == rows[i] {
        RebuiltIsSame(h, sha, rows, |rows|, i);
      }
    }
    if Migrated(h, sha, RowSeeds(rows)) == rows {
      forall i: nat | i < |rows| ensures StaysAt(h, rows, i) {
        MigratedAt(h, sha, RowSeeds(rows), i);
        SettledIff(sha, rows[i]);
      }
    }
  }

  /** A second migration gives the same rows as the first. */
  lemma MigrationIsIdempotent(h: Hasher<Columns>, sha: string -> string, seeds: seq<Seed>)
    ensures Migrated(h, sha, RowSeeds(Migrated(h, sha, seeds))) == Migrated(h, sha, seeds)
  {
    var rows := Migrated(h, sha, seeds);
    forall i: nat | i < |rows| ensures StaysAt(h, rows, i) {
      MigratedAt(h, sha, seeds, i);
    }
    MigrationIsNoOpIff(h, sha, rows);
  }

  /** A row whose reference is not a DOI and which by design carries no digest,
      such as a software citation's repository URL or a PubMed id, is given
      the digest of an arXiv id with that text. */
  lemma RefWithoutDigestIsRewritten(h: Hasher<Columns>, sha: string -> string,
                                    rows: seq<LogRow<Columns>>, i: nat, id: string)
    requires i < |rows|
    requires var input := rows[i].body.columns.input;
             input.canonicalDigest == None && input.fields.ref_ == Some(id)
    requires !StartsWith(id, "10.")
    ensures var source := rows[i].body.columns.input.fields.source;
            var asArxiv := Canonical.CanonicalRef(Canonical.ArxivSource, id,
                                                  if source.Some? then source.value else "", None);
            && Migrated(h, sha, RowSeeds(rows))[i] != rows[i]
            && Migrated(h, sha, RowSeeds(rows))[i].body.columns.input.canonicalDigest
               == Some(sha(Canonical.Preimage(asArxiv)))
  {
    MigratedAt(h, sha, RowSeeds(rows), i);
  }

  // ---- The migration as it works on the files ----

  datatype MigrationReport = MigrationReport(
    rowsRewritten: nat,
    dryRun: bool,
    firstRowV1ChainHash: HashText,
    firstRowV2ChainHash: HashText)

  /** Where a live migration stops: with the staged file holding no matter what,
      with all staged and verified, with the old backup removed, or with the
      log moved to the backup. */
  datatype MigrationStop = Finishes | WhileStaging(left: File<Columns>) | BeforeSwap | BackupRemoved | LogMoved

  datatype MigrationError =
    | NeitherVersion(line: nat)
    | StagedFailedVerify(first: Issue)
    | Interrupted(at: MigrationStop)

  function Summary(seeds: seq<Seed>, rows: seq<LogRow<Columns>>, dryRun: bool): MigrationReport {
    MigrationReport(|rows|, dryRun,
                    if seeds == [] then Genesis else seeds[0].storedHash,
                    if rows == [] then Genesis else rows[0].thisHash)
  }

  /** The log and the two files beside it that migration uses. */
  datatype Files = Files(
    live: Option<File<Columns>>,
    staged: Option<File<Columns>>,
    backup: Option<File<Columns>>)

  /** The files and the answer a migration leaves behind, as far as it gets. */
  function MigrationStep(h: Hasher<Columns>, sha: string -> string, files: Files, dryRun: bool, stop: MigrationStop)
    : (Files, Result<MigrationReport, MigrationError>)
  {
    if files.live.None? then (files, Ok(MigrationReport(0, dryRun, Genesis, Genesis)))
    else
      var lines := files.live.value.lines;
      match Seeds(lines, |lines|)
      case Err(n) => (files, Err(NeitherVersion(n)))
      case Ok(seeds) =>
        var rows := Migrated(h, sha, seeds);
        if dryRun then (files, Ok(Summary(seeds, rows, true)))
        else Swapped(h, files, rows, Summary(seeds, rows, false), stop)
  }

  function Swapped(h: Hasher<Columns>, files: Files, rows: seq<LogRow<Columns>>, report: MigrationReport,
                   stop: MigrationStop): (Files, Result<MigrationReport, MigrationError>)
  {
    var staged, errors := files.(staged := Some(Intact(rows))), Report(h, LinesOf(rows)).errors;
    if stop.WhileStaging? then (files.(staged := Some(stop.left)), Err(Interrupted(stop)))
    else if errors != [] then (staged, Err(StagedFailedVerify(errors[0])))
    else match stop
         case BeforeSwap => (staged, Err(Interrupted(stop)))
         case BackupRemoved => (staged.(backup := None), Err(Interrupted(stop)))
         case LogMoved => (staged.(backup := files.live, live := None), Err(Interrupted(stop)))
         case _ => (Files(Some(Intact(rows)), None, files.live), Ok(report))
  }

  /** A live migration that is not interrupted replaces the log exactly when it
      parses and its numbers strictly increase, and keeps the original as the
      backup; otherwise the log is not touched. */
  lemma MigrationReplacesIff(h: Hasher<Columns>, sha: string -> string, files: Files)
    requires NeverGenesis(h) && files.live.Some?
    ensures MigrationStep(h, sha, files, false, Finishes).1.Ok?
            <==> AllReadable(files.live.value.lines) && Increases(files.live.value.lines)
    ensures var (after, r) := MigrationStep(h, sha, files, false, Finishes);
            var seeds := Seeds(files.live.value.lines, |files.live.value.lines|);
            && (r.Ok? <==> seeds.Ok? && NumbersIncrease(seeds.value))
            && (r.Ok? ==> after == Files(Some(Intact(Migrated(h, sha, seeds.value))), None, files.live))
            && (r.Err? ==> after.live == files.live && after.backup == files.backup)
  {
    var seeds := Seeds(files.live.value.lines, |files.live.value.lines|);
    MigrationKeepsRows(h, sha, files.live.value.lines);
    if seeds.Ok? {
      MigratedVerifiesIff(h, sha, seeds.value);
    }
  }

  /** Wherever a migration stops, the original is the log or the backup. */
  lemma OriginalIsKept(h: Hasher<Columns>, sha: string -> string, files: Files, dryRun: bool, stop: MigrationStop)
    ensures var after := MigrationStep(h, sha, files, dryRun, stop).0;
            after.live == files.live || after.backup == files.live
  {
  }

  /** A migration that was interrupted can be run again, and ends as if it had
      not been, exactly unless the log was already moved away: then the log
      stays missing, and running again reports that there is nothing to do. */
  lemma RerunCompletesIff(h: Hasher<Columns>, sha: string -> string, files: Files, stop: MigrationStop)
    requires MigrationStep(h, sha, files, false, stop).1 == Err(Interrupted(stop))
    ensures var again := MigrationStep(h, sha, MigrationStep(h, sha, files, false, stop).0, false, Finishes);
            && (again == MigrationStep(h, sha, files, false, Finishes) <==> !stop.LogMoved?)
            && (stop.LogMoved? ==>
                  && again.1 == Ok(MigrationReport(0, false, Genesis, Genesis))
                  && again.0.live.None? && again.0.backup == files.live
                  && again.0.staged == MigrationStep(h, sha, files, false, Finishes).0.live)
  {
  }

  predicate SameOption(f: Option<File<Columns>>, g: Option<File<Columns>>) {
    if f.Some? && g.Some? then SameFile(f.value, g.value) else f == g
  }

  predicate SameFiles(f: Files, g: Files) {
    SameOption(f.live, g.live) && SameOption(f.staged, g.staged) && SameOption(f.backup, g.backup)
  }

  /** The backup is what the log is, and nothing is staged. */
  predicate BackedUp(files: Files) {
    SameOption(files.backup, files.live) && files.staged.None?
  }

  /** Nothing but terminated v2 rows, whose numbers increase, each settled and
      linked to the one before. */
  ghost predicate Stays(h: Hasher<Columns>, file: File<Columns>) {
    var rows := Rows(file.lines);
    && SameFile(file, Intact(rows)) && NumbersIncrease(RowSeeds(rows))
    && forall i: nat :: i < |rows| ==> StaysAt(h, rows, i)
  }

  /** A migration leaves the log as it was exactly when the log stays under it,
      and all three files exactly when the log is its own backup, too: it is no
      no-op otherwise, since it replaces the backup. */
  lemma MigrationIsNoOpOnFilesIff(h: Hasher<Columns>, sha: string -> string, files: Files)
    requires NeverGenesis(h) && files.live.Some?
    ensures var (after, r) := MigrationStep(h, sha, files, false, Finishes);
            && (r.Ok? && SameOption(after.live, files.live) <==> Stays(h, files.live.value))
            && (r.Ok? && SameFiles(after, files) <==> Stays(h, files.live.value) && BackedUp(files))
  {
    var (after, r) := MigrationStep(h, sha, files, false, Finishes);
    var file, rows := files.live.value, Rows(files.live.value.lines);
    MigrationReplacesIff(h, sha, files);
    SeedsAreRowSeeds(rows);
    MigrationIsNoOpIff(h, sha, rows);
    if r.Ok? && file.lines == after.live.value.lines {
      RowsOfLines(Migrated(h, sha, Seeds(file.lines, |file.lines|).value));
    }
  }

  /** The row of a verified log that migration would not change. */
  predicate LeftAloneAt(rows: seq<LogRow<Columns>>, i: nat)
    requires i < |rows|
  {
    (i > 0 ==> !rows[i].Restarts()) && Settled(rows[i])
  }

  /** A verified v2 log stays exactly when it has no blank line and ends in a
      newline, only its first row restarts the chain, and each of its rows has
      the current schema version and, if it names a reference, a digest. */
  lemma CleanLogLeftAloneIff(h: Hasher<Columns>, sha: string -> string, files: Files)
    requires NeverGenesis(h) && files.live.Some? && Report(h, files.live.value.lines).errors == []
    ensures var (after, r) := MigrationStep(h, sha, files, false, Finishes);
            var file, rows := files.live.value, Rows(files.live.value.lines);
            var alone := SameFile(file, Intact(rows)) && forall i: nat :: i < |rows| ==> LeftAloneAt(rows, i);
            && (r.Ok? && SameOption(after.live, files.live) <==> alone)
            && (r.Ok? && SameFiles(after, files) <==> alone && BackedUp(files))
  {
    var rows := Rows(files.live.value.lines);
    MigrationIsNoOpOnFilesIff(h, sha, files);
    CleanReportIff(h, files.live.value.lines);
    forall i: nat | i < |rows| ensures StaysAt(h, rows, i) <==> LeftAloneAt(rows, i) {
      CleanLinkIff(h, rows, i);
    }
    if forall i: nat :: i < |rows| ==> LeftAloneAt(rows, i) {
      forall i | 0 < i < |rows| ensures NumberIncreasesAt(RowSeeds(rows), i) {
        assert FollowsAt(rows, i) && LeftAloneAt(rows, i);
      }
    }
  }

  // ---- What several migrations leave of the original ----

  predicate Holds(files: Files, original: File<Columns>) {
    files.live == Some(original) || files.backup == Some(original)
  }

  /** The migration gets as far as to touch the backup. */
  ghost predicate ReachesBackup(files: Files, dryRun: bool, stop: MigrationStop) {
    && files.live.Some? && !dryRun && !stop.WhileStaging? && !stop.BeforeSwap?
    && var seeds := Seeds(files.live.value.lines, |files.live.value.lines|);
       seeds.Ok? && NumbersIncrease(seeds.value)
  }

  /** A file that is the log or the backup is one of them still, exactly unless
      it is only the backup, and the migration gets as far as that, and does not
      happen to write it again. */
  lemma OriginalIsHeldIff(h: Hasher<Columns>, sha: string -> string, files: Files, dryRun: bool, stop: MigrationStop,
                          original: File<Columns>)
    requires NeverGenesis(h) && Holds(files, original)
    ensures Holds(MigrationStep(h, sha, files, dryRun, stop).0, original) <==>
            || files.live == Some(original)
            || !ReachesBackup(files, dryRun, stop)
            || (stop.Finishes? && original == Intact(Migrated(h, sha,
                                              Seeds(files.live.value.lines, |files.live.value.lines|).value)))
  {
    if files.live.Some? {
      var seeds := Seeds(files.live.value.lines, |files.live.value.lines|);
      if seeds.Ok? {
        MigratedVerifiesIff(h, sha, seeds.value);
      }
    }
  }

  lemma MigratedSeeds(h: Hasher<Columns>, sha: string -> string, seeds: seq<Seed>)
    requires NumbersIncrease(seeds)
    ensures var rows := Migrated(h, sha, seeds);
            && Seeds(LinesOf(rows), |rows|) == Ok(RowSeeds(rows)) && NumbersIncrease(RowSeeds(rows))
            && Migrated(h, sha, RowSeeds(rows)) == rows
  {
    var rows := Migrated(h, sha, seeds);
    SeedsAreRowSeeds(rows);
    MigrationIsIdempotent(h, sha, seeds);
    forall i | 0 < i < |rows| ensures NumberIncreasesAt(RowSeeds(rows), i) {
      MigratedAt(h, sha, seeds, i);
      MigratedAt(h, sha, seeds, i - 1);
      assert NumberIncreasesAt(seeds, i);
    }
  }

  /** Migrating a log twice succeeds both times, and leaves the original in
      neither the log nor the backup, nor staged, exactly unless the original
      is what it is migrated to. */
  lemma SecondMigrationHoldsIff(h: Hasher<Columns>, sha: string -> string, files: Files)
    requires NeverGenesis(h) && files.live.Some? && ReachesBackup(files, false, Finishes)
    ensures var rows := Migrated(h, sha, Seeds(files.live.value.lines, |files.live.value.lines|).value);
            var (once, r1) := MigrationStep(h, sha, files, false, Finishes);
            var (twice, r2) := MigrationStep(h, sha, once, false, Finishes);
            && r1.Ok? && once == Files(Some(Intact(rows)), None, files.live)
            && r2.Ok? && twice == Files(Some(Intact(rows)), None, Some(Intact(rows)))
            && (Holds(twice, files.live.value) <==> files.live == Some(Intact(rows)))
  {
    var seeds := Seeds(files.live.value.lines, |files.live.value.lines|).value;
    MigrationReplacesIff(h, sha, files);
    MigratedSeeds(h, sha, seeds);
    MigrationReplacesIff(h, sha, Files(Some(Intact(Migrated(h, sha, seeds))), None, files.live));
  }

  /** So does a migration that stops with the log moved away, and another one
      once a new log has been written where it was. */
  lemma NewLogAfterInterruptionHoldsIff(h: Hasher<Columns>, sha: string -> string, files: Files, log: File<Columns>)
    requires NeverGenesis(h) && files.live.Some? && ReachesBackup(files, false, LogMoved)
    requires ReachesBackup(files.(live := Some(log)), false, Finishes)
    ensures var moved := MigrationStep(h, sha, files, false, LogMoved).0;
            var (after, r) := MigrationStep(h, sha, moved.(live := Some(log)), false, Finishes);
            && moved.live.None? && r.Ok?
            && (Holds(after, files.live.value) <==>
                  files.live == Some(log)
                  || files.live == Some(Intact(Migrated(h, sha, Seeds(log.lines, |log.lines|).value))))
  {
    MigratedVerifiesIff(h, sha, Seeds(files.live.value.lines, |files.live.value.lines|).value);
    var moved := MigrationStep(h, sha, files, false, LogMoved).0;
    MigrationReplacesIff(h, sha, moved.(live := Some(log)));
    OriginalIsHeldIff(h, sha, moved.(live := Some(log)), false, Finishes, files.live.value);
  }

  lemma CleanLinkIff(h: Hasher<Columns>, rows: seq<LogRow<Columns>>, i: nat)
    requires NeverGenesis(h) && Chained(h, rows) && i < |rows|
    ensures LinkedAt(h, rows, i) <==> i == 0 || !rows[i].Restarts()
  {
    if i > 0 {
      assert FollowsAt(rows, i);
      assert h(rows[i - 1].body) == rows[i - 1].thisHash;
    }
  }

  class MigrationFiles {
    var live: Option<File<Columns>>
    var staged: Option<File<Columns>>
    var backup: Option<File<Columns>>

    constructor (live: Option<File<Columns>>)
      ensures this.live == live && staged == None && backup == None
    {
      this.live, staged, backup := live, None, None;
    }

    method ReadSeeds(lines: seq<Line<Columns>>) returns (r: Result<seq<Seed>, nat>)
      ensures r == Seeds(lines, |lines|)
      ensures r.Ok? <==> AllReadable(lines)
      ensures r.Err? ==> 0 < r.error <= |lines| && lines[r.error - 1].Garbage? && AllReadable(lines[..r.error - 1])
      ensures r.Ok? ==> |r.value| == |AllFilled(lines)|
      ensures r.Ok? ==> forall i :: 0 <= i < |r.value| ==>
                var seed, line := r.value[i], AllFilled(lines)[i];
                && seed.tsSeq == NumberOf(line) && seed.storedHash == HashOf(line)
                && match line
                   case V1(v) =>
                     seed.ts == v.ts && seed.fields == v.fields && seed.sessionId == v.sessionId && seed.digestIn.None?
                   case Row(row) =>
                     var c := row.body.columns;
                     && seed.ts == c.ts && seed.fields == c.input.fields && seed.sessionId == c.sessionId
                     && seed.digestIn == c.input.canonicalDigest
                   case _ => false
    {
      SeedsOfLines(lines, |lines|);
      var seeds := [];
      for i := 0 to |lines|
        invariant Seeds(lines, i) == Ok(seeds)
      {
        if lines[i].Blank? {
        } else if Readable(lines[i]) {
          seeds := seeds + [SeedOf(lines[i])];
        } else {
          FirstErrorStands(lines, i + 1, |lines|);
          return Err(i + 1);
        }
      }
      return Ok(seeds);
    }

    lemma FirstErrorStands(lines: seq<Line<Columns>>, n: nat, m: nat)
      requires n <= m <= |lines| && Seeds(lines, n).Err?
      ensures Seeds(lines, m) == Seeds(lines, n)
      decreases m
    {
      if n < m {
        FirstErrorStands(lines, n, m - 1);
      }
    }

    method RebuildChain(h: Hasher<Columns>, sha: string -> string, seeds: seq<Seed>)
      returns (rows: seq<LogRow<Columns>>)
      ensures rows == Migrated(h, sha, seeds)
    {
      rows := [];
      var prevHash := Genesis;
      for i := 0 to |seeds|
        invariant rows == Rebuilt(h, sha, seeds, i) && prevHash == HeadHash(rows)
      {
        var row := NewRow(h, sha, seeds[i], prevHash);
        prevHash := row.thisHash;
        rows := rows + [row];
      }
    }

    method StageRows(rows: seq<LogRow<Columns>>)
      modifies this`staged
      ensures staged == Some(Intact(rows))
    {
      staged := Some(NoFile());
      for i := 0 to |rows|
        invariant staged == Some(Intact(rows[..i]))
      {
        assert rows[..i + 1] == rows[..i] + [rows[i]];
        IntactAppend(rows[..i], rows[i]);
        staged := Some(WithRow(staged.value, rows[i], true));
      }
      assert rows[..|rows|] == rows;
    }

    function State(): Files
      reads this
    {
      Files(live, staged, backup)
    }

    /** The swap: the original out of the way, then the new log in its place. */
    method Swap(stop: MigrationStop) returns (done: bool)
      requires live.Some? && staged.Some? && !stop.WhileStaging?
      modifies this
      ensures done <==> stop.Finishes?
      ensures live == (if stop.Finishes? then old(staged) else if stop.LogMoved? then None else old(live))
      ensures staged == if stop.Finishes? then None else old(staged)
      ensures backup == (if stop.Finishes? || stop.LogMoved? then old(live)
                         else if stop.BackupRemoved? then None else old(backup))
    {
      if stop.BeforeSwap? {
        return false;
      }
      backup := None;
      if stop.BackupRemoved? {
        return false;
      }
      backup, live := live, None;
      if stop.LogMoved? {
        return false;
      }
      live, staged := staged, None;
      return true;
    }

    /** The migration, wherever it stops, is one step. It fails on a line that is
        of neither version, and a dry run only reports. If it does not stop
        short, the log is replaced exactly when its numbers strictly increase,
        by one v2 row for each line that is not blank. */
    method Migrate(h: Hasher<Columns>, sha: string -> string, dryRun: bool, stop: MigrationStop)
      returns (r: Result<MigrationReport, MigrationError>)
      requires NeverGenesis(h)
      modifies this
      ensures (State(), r) == old(MigrationStep(h, sha, State(), dryRun, stop))
      ensures old(live).None? || dryRun || !AllReadable(old(live).value.lines) ==> State() == old(State())
      ensures old(live).Some? && !AllReadable(old(live).value.lines) ==>
              var lines := old(live).value.lines;
              && r.Err? && r.error.NeitherVersion? && 0 < r.error.line <= |lines|
              && lines[r.error.line - 1].Garbage? && AllReadable(lines[..r.error.line - 1])
      ensures old(live).Some? && r.Ok? ==>
              var filled := AllFilled(old(live).value.lines);
              && r.value.rowsRewritten == |filled| && r.value.dryRun == dryRun
              && r.value.firstRowV1ChainHash == if filled == [] then Genesis else HashOf(filled[0])
      ensures old(live).Some? && dryRun && AllReadable(old(live).value.lines) ==>
              r.Ok? && exists rows: seq<LogRow<Columns>> ::
                CarriesAll(h, sha, old(live).value.lines, rows)
                && r.value.firstRowV2ChainHash == if rows == [] then Genesis else rows[0].thisHash
      ensures stop.Finishes? && old(live).Some? && !dryRun ==>
              var lines := old(live).value.lines;
              if AllReadable(lines) && Increases(lines) then
                && r.Ok? && live.Some? && backup == old(live) && staged.None?
                && var rows := Rows(live.value.lines);
                   && live.value == Intact(rows) && CarriesAll(h, sha, lines, rows)
                   && r.value.firstRowV2ChainHash == if rows == [] then Genesis else rows[0].thisHash
              else r.Err? && live == old(live) && backup == old(backup)
    {
      if live.None? {
        return Ok(MigrationReport(0, dryRun, Genesis, Genesis));
      }
      MigrationReplacesIff(h, sha, State());
      MigrationKeepsRows(h, sha, live.value.lines);
      var read := ReadSeeds(live.value.lines);
      if read.Err? {
        return Err(NeitherVersion(read.error));
      }
      var seeds := read.value;
      var rows := RebuildChain(h, sha, seeds);
      RowsOfLines(rows);
      var report := Summary(seeds, rows, dryRun);
      if dryRun {
        return Ok(report);
      }
      if stop.WhileStaging? {
        staged := Some(stop.left);
        return Err(Interrupted(stop));
      }
      StageRows(rows);
      var verified := Verify(h, staged.value);
      if verified.errors != [] {
        return Err(StagedFailedVerify(verified.errors[0]));
      }
      var done := Swap(stop);
      return if done then Ok(report) else Err(Interrupted(stop));
    }
  }
}
