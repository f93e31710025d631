/**
 The rows and files of the provenance log.

 SHA-256 over canonical JSON is a function value `h` from a row without its
 `this_hash` to a digest; nothing is assumed of it but what a lemma states.
 Verification, recovery and rotation read only the sequence number and the two
 hash columns, so the other columns are a type parameter `P` there; `Columns`
 is what this log puts in them.
 */
module Provenance {
  import opened Wrappers

  const LOG_SCHEMA_VERSION := "v2"

  /** The text of a hash column, which the log only ever compares for equality:
      the literal "GENESIS", or any other text, told apart by a number. */
  datatype HashText = Genesis | Text(code: nat)

  datatype LogEvent =
    | SessionStart | CapabilityResolved | Resolve | Fetch | StoreWrite | SessionEnd | RepeatForced

  datatype LogResult = Succeeded | Failed | Denied

  datatype Capability =
    | Oa | Metadata | TdmElsevier | TdmAps | TdmSpringer | TdmIeee | UserSupplied

  /** What a caller says of one operation, apart from the canonical digest. */
  datatype Fields = Fields(
    event: LogEvent,
    result: LogResult,
    capability: Capability,
    ref_: Option<string>,
    source: Option<string>,
    errorCode: Option<string>,
    sizeBytes: Option<nat>,
    license: Option<string>,
    storePath: Option<string>)

  datatype RowInput = RowInput(fields: Fields, canonicalDigest: Option<string>)

  /** The columns of a v2 row that the chain does not read. */
  datatype Columns = Columns(ts: int, input: RowInput, sessionId: string, schemaVersion: string)

  /** A v2 row without its own hash: the hash's argument. */
  datatype RowForHash<P> = RowForHash(tsSeq: nat, columns: P, prevHash: HashText)

  datatype LogRow<P> = LogRow(body: RowForHash<P>, thisHash: HashText)
  {
    predicate Restarts() {
      body.prevHash == Genesis
    }
  }

  /** A row from before schema v2: neither a schema version nor a digest. */
  datatype V1Row = V1Row(
    ts: int,
    tsSeq: nat,
    fields: Fields,
    sessionId: string,
    prevHash: HashText,
    thisHash: HashText)

  /** One line of a log file, by what the JSON parsers make of it. */
  datatype Line<P> = Blank | Row(row: LogRow<P>) | V1(legacy: V1Row) | Garbage

  /** A log file: its lines, and whether the last one ends in a newline. A
      missing file is read, measured and verified as the empty one. */
  datatype File<P> = File(lines: seq<Line<P>>, terminated: bool)

  function NoFile<P>(): File<P> {
    File([], true)
  }

  /** The same lines, and the same end: an empty file has only one. */
  predicate SameFile<P(==)>(f: File<P>, g: File<P>) {
    f.lines == g.lines && (f.lines == [] || f.terminated == g.terminated)
  }

  type Hasher<!P> = RowForHash<P> -> HashText

  /** A digest is 64 hex characters, so never the literal sentinel. */
  ghost predicate NeverGenesis<P(!new)>(h: Hasher<P>) {
    forall b: RowForHash<P> :: h(b) != Genesis
  }

  /** Two different rows with one hash. */
  ghost predicate Collide<P>(h: Hasher<P>, a: LogRow<P>, b: LogRow<P>) {
    a.body != b.body && h(a.body) == h(b.body)
  }

  /** No two of the given rows collide. */
  ghost predicate CollisionFree<P>(h: Hasher<P>, rows: seq<LogRow<P>>) {
    forall x, y :: x in rows && y in rows ==> !Collide(h, x, y)
  }

  /** The rows a file parses to, in order. */
  function Rows<P>(lines: seq<Line<P>>): seq<LogRow<P>> {
    if lines == [] then [] else
      var front, last := lines[..|lines| - 1], lines[|lines| - 1];
      Rows(front) + if last.Row? then [last.row] else []
  }

  lemma {:induction false} RowsAppend<P>(a: seq<Line<P>>, b: seq<Line<P>>)
    ensures Rows(a + b) == Rows(a) + Rows(b)
  {
    if b == [] {
      assert a + b == a;
    } else {
      RowsAppend(a, b[..|b| - 1]);
      assert (a + b)[..|a + b| - 1] == a + b[..|b| - 1];
    }
  }

  /** Rows in a file, one to a line. */
  function LinesOf<P>(rows: seq<LogRow<P>>): (lines: seq<Line<P>>)
    ensures |lines| == |rows|
  {
    seq(|rows|, i requires 0 <= i < |rows| => Row(rows[i]))
  }

  lemma {:induction false} RowsOfLines<P>(rows: seq<LogRow<P>>)
    ensures Rows(LinesOf(rows)) == rows
  {
    if rows != [] {
      var front := rows[..|rows| - 1];
      RowsOfLines(front);
      assert LinesOf(rows)[..|rows| - 1] == LinesOf(front);
      assert front + [rows[|rows| - 1]] == rows;
    }
  }
}
