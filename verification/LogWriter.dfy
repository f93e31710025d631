/**
 The log as the program holds it: a directory it changes file by file, and a
 writer whose next number and last hash move with it.
 */
module LogWriter {
  import opened Wrappers
  import opened Provenance
  import opened ChainVerify
  import opened LogLifecycle

  datatype LogError = Stopped(at: Stop) | Corrupted(line: nat)

  /** A file without lines has no bytes. */
  ghost predicate Measures(sizeOf: File<Columns> -> nat) {
    forall f: File<Columns> :: f.lines == [] ==> sizeOf(f) == 0
  }

  class LogDirectory {
    var current: File<Columns>
    var segments: seq<Segment<Columns>>
    var tmp: Option<Segment<Columns>>

    function State(): Dir<Columns>
      reads this
    {
      Dir(current, segments, tmp)
    }

    constructor ()
      ensures State() == Empty<Columns>().dir
    {
      current, segments, tmp := NoFile(), [], None;
    }

    /** Write the temporary copy, rename it into the archive, unlink the
        original: each step only once the one before it is done. */
    method RotateLog(stamp: nat, stop: Stop) returns (ok: bool)
      modifies this
      ensures State() == old(RotateStep(State(), FRESH, stamp, stop).0)
      ensures ok <==> !stop.BeforeRename? && !stop.BeforeUnlink?
    {
      var copy := Segment(stamp, current);
      tmp := Some(copy);
      if stop.BeforeRename? {
        return false;
      }
      segments := Archive(segments, copy);
      tmp := None;
      if stop.BeforeUnlink? {
        return false;
      }
      current := NoFile();
      return true;
    }

    /** Verify every archived segment, oldest first, and then the current file:
        each is a chain of its own. */
    method VerifyAll(h: Hasher<Columns>) returns (reports: seq<VerifyReport>)
      ensures |reports| == |segments| + 1
      ensures forall i :: 0 <= i < |segments| ==> reports[i] == Report(h, segments[i].file.lines)
      ensures reports[|segments|] == Report(h, current.lines)
    {
      reports := [];
      for i := 0 to |segments|
        invariant |reports| == i
        invariant forall j :: 0 <= j < i ==> reports[j] == Report(h, segments[j].file.lines)
      {
        var report := Verify(h, segments[i].file);
        reports := reports + [report];
      }
      var last := Verify(h, current);
      reports := reports + [last];
    }
  }

  class ProvenanceLog {
    const dir: LogDirectory
    const sessionId: string
    const rotateThreshold: nat
    const h: Hasher<Columns>
    const sizeOf: File<Columns> -> nat
    var nextSeq: nat
    var lastHash: HashText

    ghost predicate Valid() {
      Measures(sizeOf)
    }

    function Memory(): Mem
      reads this
    {
      Mem(nextSeq, lastHash)
    }

    predicate Due()
      reads this, dir
    {
      rotateThreshold > 0 && sizeOf(dir.current) >= rotateThreshold
    }

    constructor (dir: LogDirectory, sessionId: string, rotateThreshold: nat,
                 h: Hasher<Columns>, sizeOf: File<Columns> -> nat, mem: Mem)
      requires Measures(sizeOf)
      ensures Valid()
      ensures this.dir == dir && this.sessionId == sessionId && this.rotateThreshold == rotateThreshold
      ensures this.h == h && this.sizeOf == sizeOf && Memory() == mem
    {
      this.dir, this.sessionId, this.rotateThreshold := dir, sessionId, rotateThreshold;
      this.h, this.sizeOf := h, sizeOf;
      nextSeq, lastHash := mem.nextSeq, mem.lastHash;
    }

    /** A log opens exactly when every line of the current file parses, and
        resumes behind its last row. The files are only read. */
    static method OpenWithRotateThreshold(dir: LogDirectory, sessionId: string, rotateThreshold: nat,
                                          h: Hasher<Columns>, sizeOf: File<Columns> -> nat)
      returns (r: Result<ProvenanceLog, LogError>)
      requires Measures(sizeOf)
      ensures r.Ok? <==> Parses(dir.current.lines)
      ensures r.Ok? ==> var log := r.value;
                        && fresh(log) && log.Valid() && log.dir == dir && log.rotateThreshold == rotateThreshold
                        && log.sessionId == sessionId && log.h == h && log.sizeOf == sizeOf
                        && Ok(log.Memory()) == Recovered(dir.current.lines, |dir.current.lines|)
                        && ResumesBehind(log.Memory(), Rows(dir.current.lines))
      ensures r.Err? ==> r.error.Corrupted? && FirstUnparsed(dir.current.lines, r.error.line)
                         && Recovered(dir.current.lines, |dir.current.lines|) == Err(r.error.line)
    {
      var recovered := RecoverState(dir.current);
      match recovered {
        case Err(line) =>
          return Err(Corrupted(line));
        case Ok(mem) =>
          var log := new ProvenanceLog(dir, sessionId, rotateThreshold, h, sizeOf, mem);
          return Ok(log);
      }
    }

    /** One append is one step of a run: the disk and the memory move as the
        step says, only a completed append is acknowledged, and what is
        acknowledged is the number of its row. A file is rotated only when it
        holds something. */
    method Append(input: RowInput, ts: int, stamp: nat, stop: Stop) returns (r: Result<nat, LogError>)
      requires Valid()
      modifies this, dir
      ensures Valid()
      ensures (dir.State(), Memory())
           == old(AppendStep(h, dir.State(), Memory(), Columns(ts, input, sessionId, LOG_SCHEMA_VERSION),
                             Due(), stamp, stop))
      ensures r.Ok? <==> stop.Completes?
      ensures r.Ok? ==>
              var rotates := rotateThreshold > 0 && old(sizeOf(dir.current)) >= rotateThreshold;
              var before := if rotates then [] else old(dir.current.lines);
              var body := RowForHash(r.value, Columns(ts, input, sessionId, "v2"),
                                     if rotates then Genesis else old(lastHash));
              && r.value == (if rotates then 1 else old(nextSeq)) && nextSeq == r.value + 1 && lastHash == h(body)
              && dir.current.terminated
              && dir.current.lines == (if rotates || old(dir.current.terminated) || before == []
                                       then before + [Row(LogRow(body, h(body)))]
                                       else before[..|before| - 1] + [Garbage])
              && (if rotates then Segment(stamp, old(dir.current)) in dir.segments
                  else dir.segments == old(dir.segments))
      ensures r.Err? ==>
              var rotates := rotateThreshold > 0 && old(sizeOf(dir.current)) >= rotateThreshold;
              if rotates && stop.BeforeRename? then
                && dir.current == old(dir.current) && dir.segments == old(dir.segments)
                && dir.tmp == Some(Segment(stamp, dir.current)) && Memory() == old(Memory())
              else if rotates && stop.BeforeUnlink? then
                && dir.current == old(dir.current) && Segment(stamp, dir.current) in dir.segments && dir.tmp.None?
                && Memory() == old(Memory())
              else
                var before := if rotates then [] else old(dir.current.lines);
                var body := RowForHash(nextSeq, Columns(ts, input, sessionId, "v2"), lastHash);
                var whole := rotates || old(dir.current.terminated) || before == [];
                && Memory() == (if rotates then Mem(1, Genesis) else old(Memory()))
                && match stop
                   case MidRow =>
                     dir.current == File((if whole then before else before[..|before| - 1]) + [Garbage], false)
                   case BeforeNewline =>
                     dir.current == File(if whole then before + [Row(LogRow(body, h(body)))]
                                         else before[..|before| - 1] + [Garbage], false)
                   case BeforeSync =>
                     dir.current == File(if whole then before + [Row(LogRow(body, h(body)))]
                                         else before[..|before| - 1] + [Garbage], true)
                   case _ => if rotates then dir.current == File([], true) else dir.State() == old(dir.State())
      ensures old(Due()) ==> old(dir.current.lines) != []
    {
      ArchiveHas(dir.segments, Segment(stamp, dir.current));
      if rotateThreshold > 0 {
        var size := sizeOf(dir.current);
        if size >= rotateThreshold {
          var rotated := dir.RotateLog(stamp, stop);
          if !rotated {
            return Err(Stopped(stop));
          }
          nextSeq := 1;
          lastHash := Genesis;
        }
      }
      if stop.BeforeRename? || stop.BeforeUnlink? || stop.BeforeWrite? {
        return Err(Stopped(stop));
      }
      var tsSeq := nextSeq;
      var body := RowForHash(tsSeq, Columns(ts, input, sessionId, LOG_SCHEMA_VERSION), lastHash);
      var thisHash := h(body);
      var row := LogRow(body, thisHash);
      if stop.MidRow? {
        dir.current := WithTornRow(dir.current);
        return Err(Stopped(stop));
      }
      dir.current := WithRow(dir.current, row, !stop.BeforeNewline?);
      if stop.BeforeNewline? || stop.BeforeSync? {
        return Err(Stopped(stop));
      }
      nextSeq := tsSeq + 1;
      lastHash := thisHash;
      return Ok(tsSeq);
    }
  }
}
