# doiget-core, modelled and proved in Dafny

doiget fetches scholarly papers by DOI or arXiv id, keeps an audit log of
everything it did, and derives text, titles and citation graphs from what it
fetched. This project models the parts of `doiget-core` that carry an algorithm
or a protocol, and proves what those parts promise over every input and every
run:

- **The provenance log** (`Provenance`, `ChainVerify`, `LogLifecycle`,
  `LogWriter`, `Migration`). Rows linked by hashes, verification line by line,
  an append that may rotate the file in three steps, a stop between any two
  file operations, recovery on reopening, and the rewriting of v1 logs.
  `LogWriter` and `Migration.MigrationFiles` are the classes that change files
  and memory in place; each of their methods equals a step of the state machine
  in `LogLifecycle` or a function in `Migration`, and the theorems are about
  every run of those steps.
- **The citation graph** (`CitationGraph`). The breadth-first walk under caps,
  as a class whose methods grow the graph, over any oracle that may fail.
- **Full text from ar5iv** (`PaperText`, `Whitespace`). The streaming event
  machine against a recursive reading of the document tree.
- **Damaged metadata** (`MetadataQuality`). The two-row alignment search
  against the alignments themselves, and the repair that uses it.
- **Titles with markup** (`Markup`, `TagGrammar`, `TitleGaps`). The tag scanner
  against a grammar of titles, the lossless split, the text without tags, and
  what comes between two runs of it.
- **Fetching** (`Http`). The retry loop, body accumulation, delays, host globs
  and redirects.
- **Identity** (`Refs`, `Safekeys`, `Canonical`, `EntryPaths`). Reference
  grammars, file-name keys, digest pre-images and archive entry names.

SHA-256, the row hash and the eight-digit suffix of a long key are function
values. Nothing is assumed of them but what a lemma says in its `requires`:
that a digest is never the text `GENESIS`, that certain rows do not collide, or
that eight digits are eight digits. The clock, the network, the file size and
Unicode's letter tables are parameters.

## Where the code does not do what its comments or documents say

Each is a lemma about the code as it is, with the exact condition.

- A log append that fails and is tried again, without reopening, is said by the
  comment at `provenance.rs:788-792` to leave a torn last line at most. The
  current file verifies after the retry exactly under `RetryAfterFailureIff`:
  not if part of the row had been written, or the whole row had behind another
  one, unless the retry rotates.
- A row that lost only its newline is not noticed on reopening, and the next
  acknowledged append spoils both exactly unless it rotates (`LostNewline`); the
  comment at `provenance.rs:765-771` calls such a row detectable.
- The comment at `provenance.rs:331-335` calls a rotation done again "never
  lossy". A rotation keeps every row exactly when each row archived under the
  name it takes is in another file, too (`RotationKeepsRowsIff`). That is so
  when a rotation that stopped before its unlink is done again in the same
  second (`GrowingIsSparing`), and is not when a second file is filled and
  rotated within the second of the first (`SecondFileInOneSecond`).
- `docs/PROVENANCE_LOG.md` section 3.1 calls migrating a v2 log a no-op with
  byte-equivalent output. The log stays as it was, and the two files beside it,
  exactly under `MigrationIsNoOpOnFilesIff`, or for a verified log
  `CleanLogLeftAloneIff`. Migrating twice replaces the backup, so that the
  original is gone (`SecondMigrationHoldsIff`), and
  `RefWithoutDigestIsRewritten` names a family of rows that change. A migration
  that stops between its two renames leaves no log, and a rerun does not bring
  it back (`RerunCompletesIff`).
- A depth cap of 0 is documented as "seed only"; `DepthCapKeptIff` says when the
  cap is kept.
- `docs/SAFEKEY.md` section 2 takes keys of different references to differ.
  They do for arXiv ids of up to 186 characters. For all references
  `KeysCollideIff` says when they do not, and for DOIs whose keys are not cut
  `DoiKeysCollideIff` in short; almost every DOI shares its key with another
  (`DoiKeyIsShared`).
- The same section asks for keys of at most 200 characters without two dots in a
  row; `KeyIsTooLongIff` says when a key is longer, and `KeyHasTwoDotsIff` when it
  has them, as in `LongDoiKey` and `DottedDoiKey`.
- The flag of a citation graph is documented as "stopped the walk before the
  graph was exhausted". It can be up when nothing is missing: `CompleteIff` says
  when, and `FlagUpThoughComplete` is a case.

Beside these, the Retry-After parser takes a leading plus sign, which section
10.2.3 of RFC 9110 does not (`RetryAfterIff`).

## Model

| member | source | states |
|---|---|---|
| ChainVerify.Verify | crates/doiget-core/src/provenance.rs:957-1113 | The report counts the lines that are not blank and those of them without a fault, names exactly the faults there are, line by line and in the order of the checks, and is free of issues exactly when the whole file is a chain |
| ChainVerify.CheckRow | crates/doiget-core/src/provenance.rs:1004-1105 | The issues of one row against the row before it, in reporting order: a hash that is not its own, then a link to another hash unless it restarts, then a number that is not greater unless it restarts |
| ChainVerify.CleanReportIff | crates/doiget-core/src/provenance.rs:957-1113 | No issues if and only if all lines parse, the first row is a restart, every hash is right, and every row restarts or links to its predecessor with a greater number |
| ChainVerify.IssueIff | crates/doiget-core/src/provenance.rs:979-1110 | An issue of some kind stands at a line if and only if the line does not parse, or its row has another hash than its own, or does not restart and does not name the hash of the last row before it, or has no greater number |
| ChainVerify.IssuesAreSorted | crates/doiget-core/src/provenance.rs:979-1110 | Issues come by line, and on one line in the order of the checks, none twice |
| ChainVerify.ReportCounts | crates/doiget-core/src/provenance.rs:979-1110 | The total is the number of lines that are not blank, the ok count the number of those without a fault, and the two are equal exactly when there is no issue |
| ChainVerify.ApprovedIff | crates/doiget-core/src/provenance.rs:979-1110 | A line counts as ok if and only if it is not blank and has no fault against the last row parsed before it |
| ChainVerify.HeadHashCommits | crates/doiget-core/src/provenance.rs:957-1113 | Two clean files ending in the same hash are identical from their last restart on, unless two of their rows collide |
| ChainVerify.TruncationGoesUnnoticed | crates/doiget-core/src/provenance.rs:957-1113 | Every prefix of a clean file is clean |
| ChainVerify.DeletionUnnoticedIff | crates/doiget-core/src/provenance.rs:957-1113 | Deleting a row keeps a file clean exactly when it was the last, the next one restarts, or it copied the row before |
| ChainVerify.ReplacementUnnoticedIff | crates/doiget-core/src/provenance.rs:957-1113 | Replacing a row keeps a file clean exactly when the new row fits where it stands and nothing links back to it |
| ChainVerify.DeletionIsReported | crates/doiget-core/src/provenance.rs:979-1110 | After the deletion of a row something links to, the linking row's line is reported as a broken link, blank lines between them or not |
| ChainVerify.ReplacementIsReported | crates/doiget-core/src/provenance.rs:979-1110 | After the replacement of a row something links to, its own line or the linking row's line is reported |
| LogLifecycle.RecoverState | crates/doiget-core/src/provenance.rs:831-866 | Recovery succeeds exactly when every line parses; it gives the number and hash behind the last of the rows, blank lines passed over, or a fresh start if there is none, and otherwise names the first line that does not parse |
| LogLifecycle.RunInv | crates/doiget-core/src/provenance.rs:686-866 | After every orderly run, under any rotation stamps, the current file and each segment are genuine chains numbered from 1, the archive is in stamp order, and the memory is what the current file implies |
| LogLifecycle.EveryRowIsKept | crates/doiget-core/src/provenance.rs:337-365 | Whatever step a run stops at, the rows on disk are exactly the rows written, as long as no rotation takes a name under which a row has its last copy; stamps may repeat or go back otherwise |
| LogLifecycle.GrowingIsSparing | crates/doiget-core/src/provenance.rs:331-365 | If stamps grow, or a rotation that stopped before its unlink is done again under its own, no rotation ever takes a name under which a row has its last copy |
| LogLifecycle.DiskIsHistory | crates/doiget-core/src/provenance.rs:337-365 | If stamps grow and no rotation stopped before its unlink, segments in order and then the current file are the history, nothing lost, repeated or reordered |
| LogLifecycle.DiskIsHistoryInSomeOrder | crates/doiget-core/src/provenance.rs:337-365 | If stamps are distinct, growing or not, and no rotation stopped before its unlink, each row is on disk exactly as often as it was written |
| LogLifecycle.RedoneDiskIsHistory | crates/doiget-core/src/provenance.rs:331-365 | The same holds once every rotation that stopped before its unlink has been done again under its own stamp |
| LogLifecycle.DiskTilesHistory | crates/doiget-core/src/provenance.rs:337-365 | If stamps grow, or a rotation that stopped before its unlink is done again under its own, each segment is the next stretch of the history, written out again at most at the start of the one that follows |
| LogLifecycle.EveryFileIsSound | crates/doiget-core/src/provenance.rs:686-866 | Under any rotation stamps every segment and the current file verify clean and are numbered 1..n from a restart; a torn tail is the only issue there can be, and is reported |
| LogLifecycle.ReopenIsUnobservable | crates/doiget-core/src/provenance.rs:627-674 | Under any rotation stamps, reopening a running log after any orderly run changes neither disk nor memory |
| LogLifecycle.ReopenAnywhere | crates/doiget-core/src/provenance.rs:627-674 | Under any rotation stamps, a run with a reopen in the middle ends like the run without it |
| LogLifecycle.IntactRecovers | crates/doiget-core/src/provenance.rs:831-866 | Recovering a file of rows numbered from 1 gives the memory its writer had |
| LogLifecycle.RetryAfterFailureIff | crates/doiget-core/src/provenance.rs:776-792 | An append fails at any step and is tried again without reopening: the current file verifies if and only if the retry rotates the failed one away, or no byte of the row had been written, or the whole row had and it was the first of its file |
| LogLifecycle.AcknowledgedIsReadableIff | crates/doiget-core/src/provenance.rs:769-792 | The row of a completed append is the last of the current file exactly when the append rotated, or the file was empty or ended in a newline |
| LogLifecycle.LostNewline | crates/doiget-core/src/provenance.rs:765-777 | A row without its newline recovers; the next completed append loses it and its own row and makes the file unopenable exactly unless it rotates, and then both rows are kept and the file opens |
| LogLifecycle.ArchiveMembers | crates/doiget-core/src/provenance.rs:370-390 | The archive stays in stamp order whatever the clock gives; the new segment is in, and of the old ones exactly those that did not bear its name |
| LogLifecycle.RotationKeepsRowsIff | crates/doiget-core/src/provenance.rs:331-365 | No row leaves the disk in a rotation if and only if every row archived under the name it takes is also in the current file or another segment; none is ever invented |
| LogLifecycle.SecondFileInOneSecond | crates/doiget-core/src/provenance.rs:342-365 | An orderly run of one open and three completed appends, two of which rotate in one second, after which an acknowledged row is on disk nowhere |
| LogLifecycle.RotationConservesIff | crates/doiget-core/src/provenance.rs:336-365 | A rotation conserves the archived rows with their multiplicity exactly when no segment that holds rows bears the new name; otherwise there are fewer of them |
| LogWriter.LogDirectory.RotateLog | crates/doiget-core/src/provenance.rs:336-365 | Copy, rename, unlink in this order, wherever it stops; success only when all three are done |
| LogWriter.LogDirectory.VerifyAll | crates/doiget-core/src/provenance.rs:440-465 | One report per segment in order and one for the current file, each a chain of its own |
| LogWriter.ProvenanceLog.OpenWithRotateThreshold | crates/doiget-core/src/provenance.rs:627-674 | A log opens exactly when every line parses, resumes behind the last row ready to append, and otherwise names the first bad line |
| LogWriter.ProvenanceLog.Append | crates/doiget-core/src/provenance.rs:686-806 | Disk and memory move as one step of a run. When it completes: the row it says, numbered and linked behind the last or restarting after a rotation, stands at the end of the file, and memory is behind it. Wherever it stops short: what is in the file, the archive, the temporary copy and memory. Only a completed append is acknowledged, with the number of its row; only a non-empty file is rotated |
| Migration.MigrationKeepsRows | crates/doiget-core/src/provenance.rs:1265-1395 | If all lines are of either version: as many rows as lines that are not blank, and each has the number, time, fields and session of its line, v1 or v2; a digest already there is kept, and a missing one is that of the row's own reference if it has one; rows are chained from the sentinel. Otherwise the first line of neither version is the error |
| Migration.MigratedVerifiesIff | crates/doiget-core/src/provenance.rs:1353-1453 | The rewritten rows verify clean if and only if the numbers strictly increase over the whole file |
| Migration.MigrationIsIdempotent | crates/doiget-core/src/provenance.rs:1245-1468 | Migrating the migrated rows gives the same rows |
| Migration.MigrationIsNoOpIff | crates/doiget-core/src/provenance.rs:1245-1468 | v2 rows come out unchanged exactly when each has the current schema and a digest if it names a reference, and they form one unbroken chain |
| Migration.CleanLogLeftAloneIff | crates/doiget-core/src/provenance.rs:1245-1468 | The same for a verified log, in terms of its rows: no blank line, a newline at the end, only the first row restarts the chain, and each row has the current schema version and, if it names a reference, a digest |
| Migration.MigrationIsNoOpOnFilesIff | crates/doiget-core/src/provenance.rs:1245-1468 | A live migration leaves the log as it was if and only if it has nothing but terminated v2 rows, their numbers increase, and each is settled and linked to the one before; it leaves all three files so if and only if, beside that, the backup is what the log is and nothing is staged |
| Migration.MigrationReplacesIff | crates/doiget-core/src/provenance.rs:1397-1468 | A live migration that is not interrupted replaces the log if and only if every line is of either version and the numbers on the lines strictly increase; the original is the backup then, and log and backup are untouched otherwise |
| Migration.OriginalIsKept | crates/doiget-core/src/provenance.rs:1417-1468 | Wherever one migration stops, what was the log before it is the log or the backup |
| Migration.OriginalIsHeldIff | crates/doiget-core/src/provenance.rs:1417-1468 | Over several runs: a file that is the log or the backup is one of them after a run, exactly unless it is only the backup and the run gets as far as the backup and does not happen to write it again |
| Migration.SecondMigrationHoldsIff | crates/doiget-core/src/provenance.rs:1417-1468 | Migrating a log twice succeeds both times, and the original is in none of the three files after that exactly unless it is what it was migrated to |
| Migration.NewLogAfterInterruptionHoldsIff | crates/doiget-core/src/provenance.rs:1417-1468 | The same after a run that stopped with the log moved away, a new log written where it was, and a run that completes |
| Migration.RerunCompletesIff | crates/doiget-core/src/provenance.rs:1417-1468 | An interrupted migration run again ends as if it had not been interrupted, exactly unless the log had been moved to the backup; then the log stays missing and the rerun reports 0 rows |
| Migration.RefWithoutDigestIsRewritten | crates/doiget-core/src/provenance.rs:1333-1345 | A v2 row whose reference is no DOI and has no digest is changed, and given the digest of an arXiv id with that text |
| Migration.SeedsAreRowSeeds | crates/doiget-core/src/provenance.rs:1265-1317 | Reading back written v2 rows gives their seeds, in order and without error |
| Migration.MigrationFiles.ReadSeeds | crates/doiget-core/src/provenance.rs:1265-1317 | One seed for each line that is not blank, in order, with the columns of that v1 or v2 line; or the first line of neither version |
| Migration.MigrationFiles.RebuildChain | crates/doiget-core/src/provenance.rs:1353-1395 | The loop that carries the previous hash builds the recursively chained rows |
| Migration.MigrationFiles.StageRows | crates/doiget-core/src/provenance.rs:1422-1442 | The staged file holds exactly the given rows, one per terminated line |
| Migration.MigrationFiles.Swap | crates/doiget-core/src/provenance.rs:1455-1465 | Old backup removed, log moved to the backup, staged file moved to the log, in this order; what each stop leaves in the three files |
| Migration.MigrationFiles.Migrate | crates/doiget-core/src/provenance.rs:1245-1468 | Files and answer are one migration step, wherever it stops. Not interrupted, the log is replaced exactly when all lines are readable and their numbers strictly increase, by one row for each line that is not blank with that line's columns and digest, the original kept as the backup; otherwise log and backup are not touched. A dry run reports the same and changes nothing |
| Refs.ValidateArxivNew | crates/doiget-core/src/lib.rs:399-435 | The index loops accept exactly what the recursive scan accepts |
| Refs.ValidateArxivOld | crates/doiget-core/src/lib.rs:439-489 | The index loops accept exactly what the recursive scan accepts |
| Refs.NewStyleIff | crates/doiget-core/src/lib.rs:399-435 | A new-style id is accepted if and only if it splits into four digits, a dot, four or five digits and an optional version |
| Refs.OldStyleIff | crates/doiget-core/src/lib.rs:439-489 | An old-style id is accepted if and only if it splits into an archive, an optional two-letter group, a slash, seven digits and an optional version |
| Refs.DoiIff | crates/doiget-core/src/lib.rs:339-384 | A DOI is accepted if and only if it splits into `10.`, four to nine digits, a slash and 1 to 256 suffix characters |
| Refs.ParsedIsValid | crates/doiget-core/src/lib.rs:260-330 | Whatever scheme or case the input had, a parsed reference is bare and of the grammar of its kind |
| Refs.BareIdParsesBack | crates/doiget-core/src/lib.rs:260-330 | The bare id of every valid reference parses back to that reference |
| Refs.ParseRefIff | crates/doiget-core/src/lib.rs:260-330 | An input is a reference if and only if it is the bare id of a valid one, or that id behind `doi:` or `arxiv:`, whichever is its kind, in any case |
| Refs.ParseErrors | crates/doiget-core/src/lib.rs:260-330 | What is reported of any other input: nothing given, a DOI's first fault behind `doi:` or in front of `10.`, an empty or malformed id behind `arxiv:`, and an unrecognised shape else |
| Refs.DoiErrors | crates/doiget-core/src/lib.rs:339-384 | Which of seven faults is reported of an id that is no DOI, up to the first offending character or the length in bytes |
| Refs.TenMeansDoi | crates/doiget-core/src/lib.rs:346-489 | Among valid references exactly the DOIs start with `10.` |
| Safekeys.Safekey | crates/doiget-core/src/lib.rs:618-667 | The collapsing loop computes the key that the lemmas below describe |
| Safekeys.TrimmedIsJoined | crates/doiget-core/src/lib.rs:618-655 | Escaping, collapsing and trimming leave exactly the parts between unsafe characters, joined by single underscores |
| Safekeys.DoiKeyIs | crates/doiget-core/src/lib.rs:618-667 | The key of a DOI, exactly: `doi` and the parts of the id joined by underscores, and if that has more than 192 characters, 192 of them, an underscore and the hash digits of the raw key |
| Safekeys.KeyIsSafe | crates/doiget-core/src/lib.rs:618-667 | Every key is 1 to 201 path-safe characters, and its first letter tells DOIs from arXiv ids |
| Safekeys.KeyIsTooLongIff | docs/SAFEKEY.md:19-19 | A key has more than the documented 200 characters if and only if it is cut, and then 201 |
| Safekeys.LongDoiKey | docs/SAFEKEY.md:19-19 | Every valid DOI under the prefix `10.1234` with a suffix of 181 to 256 letters, digits, dots and hyphens has a key of 201 characters |
| Safekeys.KeyHasTwoDotsIff | docs/SAFEKEY.md:17-18 | A key that is not cut has two dots in a row if and only if the id has; one that is cut, if and only if the text it is cut to has |
| Safekeys.ArxivKeyHasNoTwoDots | docs/SAFEKEY.md:17-18 | No valid arXiv id has a key with two dots in a row |
| Safekeys.DottedDoiKey | docs/SAFEKEY.md:17-18 | A valid DOI whose key has two dots in a row |
| Safekeys.KeysCollideIff | crates/doiget-core/src/lib.rs:618-667 | Two references share a key if and only if they have the same parts, or both keys are cut, agree in 192 characters and collide on the hash digits |
| Safekeys.DoiKeysCollideIff | crates/doiget-core/src/lib.rs:618-667 | Two DOIs with uncut keys share one exactly when their ids have the same parts |
| Safekeys.DoiKeyIsShared | crates/doiget-core/src/lib.rs:618-667 | A DOI below the length limits with an underscore added is another valid DOI with the same key |
| Safekeys.ArxivKeyRoundTrips | crates/doiget-core/src/lib.rs:618-667 | Up to 186 characters an arXiv id can be read back off its key |
| Safekeys.ArxivKeyIs | crates/doiget-core/src/lib.rs:618-667 | The key of a valid arXiv id, exactly: the id with its slash as an underscore behind `arxiv_`, cut at 186 characters of it |
| Safekeys.ArxivKeysCollideIff | crates/doiget-core/src/lib.rs:618-667 | Two different arXiv ids share a key exactly when both are longer than 186, agree up to there and collide on the hash digits |
| Safekeys.CacheFilesAreDistinct | crates/doiget-core/src/paper_tex_source.rs:427-432 | Up to 186 characters, equal cache files mean equal arXiv ids (the text cache names its files the same way) |
| Canonical.Digest | crates/doiget-core/src/canonical.rs:118-133 | What the hasher is fed, update by update, is class, id, profile and version with a NUL between them, and the digest is the hash of that |
| Canonical.PreimageInjective | crates/doiget-core/src/canonical.rs:118-133 | Without a NUL in id or profile, equal pre-images mean equal class, id, profile and version, an absent version counting as the empty one |
| Canonical.NulInProfileCollides | crates/doiget-core/src/canonical.rs:118-133 | A NUL in the profile moves freely into the version |
| Canonical.ParsedIdentity | crates/doiget-core/src/canonical.rs:154-166 | For any two parsed inputs, equal pre-images mean the same reference under the same profile and version |
| Canonical.ValidRefIsNulFree | crates/doiget-core/src/lib.rs:339-489 | No valid reference holds a NUL |
| Canonical.LoggedRefAgrees | crates/doiget-core/src/provenance.rs:1333-1345 | For every input that parses, the migration's rule on the logged id gives the identity the fetch had |
| EntryPaths.SanitizeEntryPath | crates/doiget-core/src/paper_tex_source.rs:554-587 | The loop over segments computes the sanitized path that the lemmas below describe |
| EntryPaths.AcceptedStaysBelow | crates/doiget-core/src/paper_tex_source.rs:554-587 | An accepted name, walked from any root, ends at the returned segments strictly below it and never leaves the root on the way; each segment is a plain name, without either slash, colon or NUL, and neither `.` nor `..` |
| EntryPaths.AcceptedIff | crates/doiget-core/src/paper_tex_source.rs:554-587 | A name is accepted if and only if it is relative, holds no colon, NUL or `..` segment, and names something |
| EntryPaths.SanitizingIsIdempotent | crates/doiget-core/src/paper_tex_source.rs:554-587 | Joined by either separator, an accepted result is accepted again and unchanged |
| EntryPaths.SplitJoin | crates/doiget-core/src/paper_tex_source.rs:568-570 | Splitting joined segments gives the segments back |
| CitationGraph.GraphWalk.TakeReference | crates/doiget-core/src/citation_graph.rs:337-359 | One reference adds one edge and at most one work; when it does not fit, the flag goes up and nothing is added |
| CitationGraph.GraphWalk.EnqueueChildren | crates/doiget-core/src/citation_graph.rs:323-360 | The edges out of the work become the first references within the cap, all of them or as many as came before one that is not in the graph when there is no room left; the flag goes up exactly when references are beyond the cap or did not fit; a work is gained exactly when there is room and something new |
| CitationGraph.GraphWalk.Discover | crates/doiget-core/src/citation_graph.rs:349-358 | A new work, its edge and its queue entry keep the invariant |
| CitationGraph.GraphWalk.Revisit | crates/doiget-core/src/citation_graph.rs:338-344 | An edge to a known work keeps the invariant: it never leads down more than one level |
| CitationGraph.Begin | crates/doiget-core/src/citation_graph.rs:222-242 | The seed's references are taken before any depth is looked at |
| CitationGraph.ClampedIs | crates/doiget-core/src/citation_graph.rs:92-106 | Caps are kept as asked for, up to 3 levels, 100 works and 20 references a work, and are those maxima beyond |
| CitationGraph.VisitNext | crates/doiget-core/src/citation_graph.rs:244-311 | One turn of the loop keeps the invariant, asking no work twice whatever the answer; the walk is cut off only at the cap on works, and fails only on the last answer |
| CitationGraph.Explore | crates/doiget-core/src/citation_graph.rs:222-319 | The walk ends, asks no work twice, and returns a graph with all the properties below or stops at the first answer that could not be logged |
| CitationGraph.Expand | crates/doiget-core/src/citation_graph.rs:199-320 | Under the clamped caps: works within the caps and listed once, each but the seed with a parent one level up, no edge down more than one level. The seed's references, and those of every work asked whose answer parsed, are followed as far as the cap on one work and the room allow; every work above the depth cap is asked as long as there is room, and no other; the flag is up if and only if the depth cap or something else cut the walk short; no work is asked for twice, even when an answer cannot be logged |
| CitationGraph.DepthIsDistance | crates/doiget-core/src/citation_graph.rs:222-360 | The depth of a returned work is its shortest distance from the seed over the returned edges |
| CitationGraph.UntruncatedIsReachable | crates/doiget-core/src/citation_graph.rs:244-360 | Without the flag a work is in the graph if and only if the seed leads to it, and its edges are its references |
| CitationGraph.CompleteIff | crates/doiget-core/src/citation_graph.rs:140-150 | The works are everything the seed leads to if and only if no reference leads out of the graph; the flag down means that, and it is up in spite of it exactly when one of its reasons came up |
| CitationGraph.FlagUpThoughComplete | crates/doiget-core/src/citation_graph.rs:245-252 | Two works of which the first cites the second, and a cap of two works: the flag is up and the graph is complete |
| CitationGraph.DepthCappedIsWithinReach | crates/doiget-core/src/citation_graph.rs:222-320 | If nothing but the depth cap stood in the way, the works are exactly those within max(1, depth) steps of the seed by the oracle's references, each at its distance by them |
| CitationGraph.DepthCapKeptIff | crates/doiget-core/src/citation_graph.rs:229-248 | The depth cap is kept exactly when it is at least 1, only the seed fits, or the references taken from the seed are all to itself |
| PaperText.ParseAr5iv | crates/doiget-core/src/paper_text.rs:358-511 | The loop over the reader's events is the event machine. For every well-nested document the title is the words of its first title with any, and the sections are, in words, the rest cut at its headings: the words of its text, and of its formulas' `alttext` between the marks of inline mathematics, outside scripts and styles. All texts come tidy |
| PaperText.PrefixIsIgnored | crates/doiget-core/src/paper_text.rs:552-556 | A namespace prefix makes no difference to what an element is |
| PaperText.TagOfIff | crates/doiget-core/src/paper_text.rs:306-330 | Which local names make an element a formula, script or style, heading or title |
| PaperText.Extractor.PushTarget | crates/doiget-core/src/paper_text.rs:515-530 | A fragment goes to exactly one buffer, the title's first, then the heading's, then the body's |
| PaperText.Extractor.FlushSection | crates/doiget-core/src/paper_text.rs:535-548 | The body becomes a section unless there is neither text nor a heading, and is emptied |
| PaperText.Extractor.OnStart | crates/doiget-core/src/paper_text.rs:387-415 | A start tag changes the whole state as the machine says |
| PaperText.Extractor.OnText | crates/doiget-core/src/paper_text.rs:436-463 | Text inside skipped elements is dropped, other text goes to the open buffer with a space behind it |
| PaperText.Extractor.OnEnd | crates/doiget-core/src/paper_text.rs:464-489 | An end tag changes the whole state as the machine says |
| PaperText.ExtractsTheDocument | crates/doiget-core/src/paper_text.rs:358-548 | For every well-nested document without headings or titles inside headings, titles or skipped elements, the machine returns the first title that is not blank, and the rest cut at its headings in document order |
| PaperText.WordsOfTheDocument | crates/doiget-core/src/paper_text.rs:358-548 | In the document's own words: the title has those of the first title with any, and headings and sections those of the document cut at its headings |
| PaperText.ExtractedIsTidy | crates/doiget-core/src/paper_text.rs:341-343 | Whatever the reader delivers, title, headings and texts come with single spaces inside and none at the ends, and no empty title or heading |
| PaperText.EveryWordLandsOnce | crates/doiget-core/src/paper_text.rs:358-548 | The words of the sections, with those of the title put back at one point, are the words of the document in order, none lost, repeated or moved: each text outside skipped elements gives its words, each formula those of its first `alttext` with any |
| PaperText.HiddenContentIsIrrelevant | crates/doiget-core/src/paper_text.rs:306-309 | Removing everything inside scripts, styles and formulas changes nothing in the answer |
| PaperText.ApplyMaxChars | crates/doiget-core/src/paper_text.rs:258-297 | The loop returns the recursive cut of the sections |
| PaperText.CutIsPrefix | crates/doiget-core/src/paper_text.rs:258-297 | The text is the full text cut at the limit, the count its length, and the flag down exactly when all sections came back whole |
| PaperText.CutKeepsSections | crates/doiget-core/src/paper_text.rs:258-297 | The view is the sections from the first on, each with its heading, and all but the last whole |
| PaperText.CutReaches | crates/doiget-core/src/paper_text.rs:258-297 | A section is in the view if and only if the text before it leaves room |
| PaperText.CutOfCut | crates/doiget-core/src/paper_text.rs:258-297 | Cutting a view again at a lower limit gives the sections of the lower limit |
| Whitespace.NormalizeKeepsWords | crates/doiget-core/src/paper_text.rs:341-343 | Normalizing keeps the words in order and is empty exactly on blank text |
| Whitespace.NormalizeIsTidy | crates/doiget-core/src/markup.rs:240-249 | Normalized text has single spaces inside and none at the ends |
| Whitespace.TidyIsNormalized | crates/doiget-core/src/markup.rs:240-249 | Text of that shape is normalized already, so that its words determine it |
| Whitespace.SpaceIff | crates/doiget-core/src/paper_text.rs:341-343 | The white space that separates words, by code points |
| Whitespace.NormalizeGlued | crates/doiget-core/src/markup.rs:240-249 | Where two texts meet without white space, normalizing them together or apart is the same |
| Whitespace.NormalizeApart | crates/doiget-core/src/markup.rs:240-249 | Where white space lies between, a single space separates them |
| MetadataQuality.Restores | crates/doiget-core/src/metadata_quality.rs:70-107 | True if and only if the candidate has no lost character, the damaged text has some, both are within the bound, and an alignment exists in which each lost one covers one or two characters; the length check and the early exit never change the answer |
| MetadataQuality.Advance | crates/doiget-core/src/metadata_quality.rs:88-104 | The second row marks exactly the prefixes reached with one more character, and `any` tells whether there are some |
| MetadataQuality.AlignmentIff | crates/doiget-core/src/metadata_quality.rs:84-106 | Prefix by prefix reaching is the existence of an alignment |
| MetadataQuality.ReachesLength | crates/doiget-core/src/metadata_quality.rs:80-83 | Only lengths between the damaged one and that plus the losses can be reached |
| MetadataQuality.NothingReached | crates/doiget-core/src/metadata_quality.rs:101-103 | Once nothing is reached nothing further on is |
| MetadataQuality.Metadata.TryField | crates/doiget-core/src/metadata_quality.rs:175-195 | A value is taken if and only if the field is not yet repaired and the source's own title, or venue, restores it |
| MetadataQuality.Metadata.RepairFrom | crates/doiget-core/src/metadata_quality.rs:175-195 | One source restores the wanted fields it can that were not repaired before, and touches nothing else |
| MetadataQuality.Metadata.RepairWith | crates/doiget-core/src/metadata_quality.rs:143-203 | Title and venue take the title and venue in the answer of the first source whose own restores them, and are what they were if there is none; nothing else changes; the report names that source, and in their order exactly the fields damaged still; a source is asked if and only if it serves the reference and a field to be repaired has not been by those before it, in order and once |
| MetadataQuality.RepairTakesOnlyRestorations | crates/doiget-core/src/metadata_quality.rs:143-203 | A field ends restored or as it was, and free of loss if and only if some source restores it |
| Markup.ScanAttribute | crates/doiget-core/src/markup.rs:206-230 | The index loops end where the recursive grammar ends an attribute |
| Markup.ScanClose | crates/doiget-core/src/markup.rs:190-234 | The attribute loop ends where the recursive grammar closes the tag |
| Markup.TagLen | crates/doiget-core/src/markup.rs:172-238 | The index loops find the tag that `TagGrammar.TagEndIff` describes |
| Markup.SplitOnTags | crates/doiget-core/src/markup.rs:99-135 | The index loop returns the recursive split |
| Markup.SplitIsExact | crates/doiget-core/src/markup.rs:99-135 | Chunks in order rebuild the input, runs are never empty or adjacent, tags are whole, and tags start at exactly the positions where one is found; `TagGrammar.SplitsAsParsed` says where that is |
| Markup.PlainTitle | crates/doiget-core/src/markup.rs:26-63 | Titles without a mark that could matter come back as they are; the others as the decoded plain text that the lemmas of `Markup`, `TagGrammar` and `TitleGaps` describe |
| Markup.PlainTextKeepsInk | crates/doiget-core/src/markup.rs:26-63 | The plain text has the same non-space characters in the same order as the text between tags, single spaces inside and none at the ends |
| Markup.UnbrokenIsNormalized | crates/doiget-core/src/markup.rs:26-63 | Unless a tag and a line break stand between the same two runs, the plain text is the text between tags normalized as a whole: a word may run through a tag, and a space stands exactly where white space stood |
| Markup.PlainTextWithoutTags | crates/doiget-core/src/markup.rs:26-63 | Without tags only the white space is normalized, line breaks included |
| TagGrammar.TagEndIff | crates/doiget-core/src/markup.rs:162-238 | A tag is found, and this end of it, if and only if one is written there, name, attributes with quoted values and white space, that is meant as one: closing, empty, with a listed name in any case or a namespaced one, or closed in the rest of the title |
| TagGrammar.SplitsAsParsed | crates/doiget-core/src/markup.rs:97-135 | For every title in pieces, text, stray brackets and tags that are meant as such, the scanner returns those tags and the runs between them, each with the number of elements that enclose it |
| TagGrammar.EveryTitleParses | crates/doiget-core/src/markup.rs:97-135 | Every title is in such pieces |
| TagGrammar.TitleReadsAs | crates/doiget-core/src/markup.rs:26-63 | A title whose text has no line break reads as that text with its tags taken out, normalized |
| TagGrammar.ElementReadsAsText | crates/doiget-core/src/markup.rs:162-238 | For every name and any attributes, a text in one element reads as that text normalized, line breaks included |
| TagGrammar.LoneTagGoes | crates/doiget-core/src/markup.rs:235-237 | A tag with a listed or namespaced name, or an empty or closing one, goes without anything to match it |
| TagGrammar.UnmeantTagStays | crates/doiget-core/src/markup.rs:162-171 | What is written like a tag, but has another name that nothing closes, stays text |
| TitleGaps.BoundaryIff | crates/doiget-core/src/markup.rs:251-322 | When a line break that crosses a tag becomes a space, by the run in fewer elements: after punctuation, between words, and beside a symbol for a lower-case word or an operator |
| TitleGaps.RunIsAdded | crates/doiget-core/src/markup.rs:26-63 | A run adds its normalized text: behind that space where a tag and a line break stand before it, and else behind one exactly where white space does |
| TitleGaps.NothingElseIsAdded | crates/doiget-core/src/markup.rs:26-63 | The first run adds its text alone, a tag or a blank run nothing |
| Http.OneAttempt | crates/doiget-core/src/http.rs:1178-1312 | One turn is repeated exactly when attempts are left and the answer is a passing transport failure, in the body too, or one of six statuses, with the sleep that belongs to it; otherwise it gives what the answer comes to |
| Http.ReadBody | crates/doiget-core/src/http.rs:1256-1277 | The streaming loop gives the whole body up to 100,000,000 bytes, or the size at the chunk that passes that, or the fault at which it breaks off |
| Http.FetchInner | crates/doiget-core/src/http.rs:1178-1312 | Every answer before the last was a passing transport failure, one in the body, or a status among 408, 429, 500, 502, 503 and 504; the last is none of these or the fourth. Each sleep is what the server asked for, up to 30 seconds, or 500 ms doubled for each attempt, and jitter; all sleep at most 90 seconds. The result is what the last answer comes to: all its bytes, within the cap and a PDF when asked, or which of four errors with its numbers |
| Http.OutcomeIsUnique | crates/doiget-core/src/http.rs:1178-1312 | An answer comes to one result only |
| Http.EndIsUnique | crates/doiget-core/src/http.rs:1178-1312 | The answers settle which attempt a fetch ends with |
| Http.SleepIsBounded | crates/doiget-core/src/http.rs:89-117 | No sleep between two attempts exceeds 30 seconds, jitter included, and all of them 90 |
| Http.RetryAfterIff | crates/doiget-core/src/http.rs:89-100 | A header is heeded if and only if it is visible ASCII and holds, with white space around and one plus sign before them or not, digits below 2 to the 64th; then for so many seconds, and 30 at most |
| Http.SecondsAreHeeded | crates/doiget-core/src/http.rs:89-100 | The decimal form of every number below 2 to the 64th is heeded, for that many seconds up to 30 |
| Http.GlobMatchesLabels | crates/doiget-core/src/http.rs:268-277 | A glob matches if and only if the labels of its suffix are the last labels of the host |
| Http.PermitsIff | crates/doiget-core/src/http.rs:198-277 | A redirect may lead, in any case of the letters, to three resolvers, to a host named outright, and to a host at or below the one behind `*.` |
| Http.FollowRedirects | crates/doiget-core/src/http.rs:1586-1635 | Only https hops to permitted hosts are followed, no more than the limit leaves room for, and the verdict names the reason the run ended |

## Left out

- Files, gzip, fsync, the mutex, directories and permissions are abstract: a file is its lines and whether the last one is terminated, and a write gets whole, part or nothing of a row to the disk.
- JSON is abstract: a line is blank, a v2 row, a v1 row or garbage, two spellings of one row are the same line, and part of a row, or two rows run together, never parse. So is a row behind white space that no newline ends, where the source may read it. A line of invalid UTF-8 counts as garbage, where the source may return an I/O error.
- A hash column's text is either `GENESIS` or another text known only by equality.
- `ts_seq` is unbounded: the source's 64-bit counter is taken never to wrap. The same goes for the extractor's skip counter.
- LogLifecycle.EveryRowIsKept: holds for runs where a row that reached the disk unacknowledged is followed by a reopen, no partial write is a whole row short of its newline, and no rotation takes a name under which a row has its last copy. `RetryAfterFailureIff`, `LostNewline` and `RotationKeepsRowsIff` say what happens otherwise.
- LogLifecycle.ReopenIsUnobservable: for runs with the first two of these conditions, as are `RunInv`, `EveryFileIsSound` and `ReopenAnywhere`.
- LogLifecycle.DiskIsHistory: the order of the rows on disk is stated for growing stamps, since segments are listed by stamp. A clock set back lists them in another order; `DiskIsHistoryInSomeOrder` is about that.
- Retention pruning and repeat suppression. Pruning is best-effort housekeeping; the repeat index is not part of this model.
- PaperText.ExtractsTheDocument: XML lexing and the recovery from mismatched tags are left out; the machine itself is modelled on any event sequence, the theorem is about well-nested ones.
- Markup.PlainTitle: entity decoding is a parameter.
- Markup.Boundary: Unicode's alphanumeric, alphabetic and lower-case letters are parameters.
- TagGrammar.TitleReadsAs: for texts without a line break; `Markup.UnbrokenIsNormalized` and `TitleGaps.RunIsAdded` are about those with some.
- Chunks keep the text of their tags, which the source drops, so that the split can be said to lose nothing.
- MetadataQuality.Metadata.RepairWith: the source's early stop once every field is repaired is a condition of the loop body; parsing a source's JSON is left out.
- CitationGraph.Expand: reading ids and references out of an answer's JSON is left out; an oracle gives them.
- Http.FollowRedirects: how many requests came before a chain of hops is a parameter. Header building, URL redaction, TLS, the rate limiter and error texts are left out.
- Safekeys.DoiKeyIsShared: one-way, since `KeysCollideIff` is the exact condition.
- `paper_tex_source.rs` beyond entry names and cache files: archive decoding, selection of the main file and its own character limit would only repeat easier forms of what is here.
- Command line, credentials, configuration, discovery, preprint and PubMed sources, error-code and grant tables: plumbing and finite case splits.
