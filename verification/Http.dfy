/**
 The retrying fetch, and the hosts it may be redirected to.

 What the network does is given: one answer per attempt, and the nanoseconds
 the jitter is taken from. Times are in milliseconds.
 */
module Http {
  import opened Wrappers
  import opened Strings
  import opened Whitespace

  newtype byte = x: int | 0 <= x < 256

  const PDF_MAX_BYTES := 100_000_000
  const PDF_MAGIC: seq<byte> := [0x25, 0x50, 0x44, 0x46, 0x2D]
  const MAX_FETCH_RETRIES := 3
  const RETRY_BASE_DELAY := 500
  const RETRY_MAX_DELAY := 30_000
  const U64_MAX := 0xFFFF_FFFF_FFFF_FFFF

  /** What went wrong in the transport; several of these may hold. */
  datatype Fault = Fault(timeout: bool, connect: bool, body: bool, redirect: bool)

  /** A body as it streams in. */
  datatype BodyEvent = Data(bytes: seq<byte>) | Broken(fault: Fault)

  /** What one attempt gives. */
  datatype Attempt =
    | SendFails(fault: Fault)
    | Response(status: nat, retryAfter: Option<string>, contentLength: Option<nat>, body: seq<BodyEvent>)

  datatype HttpError =
    | Network
    | HttpStatus(status: nat, retryAfter: Option<nat>)
    | OversizedBody(actual: nat, cap: nat)
    | NotAPdf(got: seq<byte>)

  predicate IsTransientStatus(code: nat) {
    code in {408, 429, 500, 502, 503, 504}
  }

  predicate IsTransient(f: Fault) {
    (f.timeout || f.connect || f.body) && !f.redirect
  }

  predicate IsSuccess(code: nat) {
    200 <= code < 300
  }

  // ---- Delays ----

  function Value(digits: string): nat
    requires Digits(digits)
  {
    if digits == "" then 0 else
      assert Digits(digits[..|digits| - 1]);
      Value(digits[..|digits| - 1]) * 10 + (digits[|digits| - 1] - '0') as nat
  }

  /** What Rust's `u64` parser accepts: digits, with one plus sign before them
      or none. */
  function ParseU64(s: string): Option<nat> {
    var digits := if s != "" && s[0] == '+' then s[1..] else s;
    if digits == "" || !Digits(digits) || Value(digits) > U64_MAX then None else Some(Value(digits))
  }

  predicate VisibleAscii(s: string) {
    forall i :: 0 <= i < |s| ==> ' ' <= s[i] <= '~' || s[i] == '\t'
  }

  function ParseRetryAfter(header: Option<string>): Option<nat> {
    if header.None? || !VisibleAscii(header.value) then None
    else match ParseU64(Trim(header.value))
         case None => None
         case Some(secs) => Some(if secs * 1000 < RETRY_MAX_DELAY then secs * 1000 else RETRY_MAX_DELAY)
  }

  function Pow2(n: nat): nat {
    if n == 0 then 1 else 2 * Pow2(n - 1)
  }

  function BackoffDelay(attempt: nat, nanos: nat): nat {
    var factor := Pow2(if attempt < 20 then attempt else 20);
    var capped := if RETRY_BASE_DELAY * factor < RETRY_MAX_DELAY then RETRY_BASE_DELAY * factor else RETRY_MAX_DELAY;
    capped + nanos % RETRY_BASE_DELAY
  }

  // ---- What the retries promise ----

  /** A header that asks for so many seconds: section 10.2.3 of RFC 9110 writes them as
      digits alone; a plus sign before them and white space around them are also taken. */
  ghost predicate Asks(header: string, secs: nat) {
    && (forall i :: 0 <= i < |header| ==> ' ' <= header[i] <= '~' || header[i] == '\t')
    && exists before, plus, digits, behind :: AsksAs(header, before, plus, digits, behind, secs)
  }

  ghost predicate AsksAs(header: string, before: string, plus: string, digits: string, behind: string, secs: nat) {
    && header == before + (plus + digits + behind) && Blank(before) && Blank(behind) && (plus == "" || plus == "+")
    && digits != "" && Digits(digits) && secs == Value(digits) <= 0xFFFF_FFFF_FFFF_FFFF
  }

  /** The milliseconds the server asks for, of which no more than half a minute is heeded. */
  ghost predicate Told(header: Option<string>, told: Option<nat>) {
    match told
    case Some(ms) =>
      header.Some? && exists secs: nat :: Asks(header.value, secs) && ms == if secs < 30 then secs * 1000 else 30_000
    case None => header.Some? ==> forall secs: nat :: !Asks(header.value, secs)
  }

  /** The bytes of a body. */
  function Gathered(body: seq<BodyEvent>): seq<byte> {
    if body == [] then []
    else Gathered(body[..|body| - 1]) + if body[|body| - 1].Data? then body[|body| - 1].bytes else []
  }

  ghost predicate AllData(body: seq<BodyEvent>, n: nat)
    requires n <= |body|
  {
    forall i :: 0 <= i < n ==> body[i].Data?
  }

  /** A body as far as it was read. */
  datatype Read = Whole(bytes: seq<byte>) | TooBig(actual: nat) | CutOff(fault: Fault)

  /** The stream breaks off before there are too many bytes. */
  ghost predicate BreaksAt(body: seq<BodyEvent>, n: nat, fault: Fault) {
    n < |body| && AllData(body, n) && body[n] == Broken(fault) && |Gathered(body[..n])| <= 100_000_000
  }

  /** This is the chunk with which there are too many. */
  ghost predicate OverflowsAt(body: seq<BodyEvent>, n: nat, actual: nat) {
    && n < |body| && AllData(body, n + 1) && |Gathered(body[..n])| <= 100_000_000
    && actual == |Gathered(body[..n + 1])| > 100_000_000
  }

  ghost predicate ReadAs(body: seq<BodyEvent>, read: Read) {
    match read
    case Whole(bytes) => AllData(body, |body|) && bytes == Gathered(body) && |bytes| <= 100_000_000
    case TooBig(actual) => exists n: nat :: OverflowsAt(body, n, actual)
    case CutOff(fault) => exists n: nat :: BreaksAt(body, n, fault)
  }

  /** A failure that may pass. */
  ghost predicate Passing(f: Fault) {
    !f.redirect && (f.timeout || f.connect || f.body)
  }

  /** An answer worth another attempt: a passing transport failure, in the body too, or
      one of six statuses. */
  ghost predicate Repeatable(a: Attempt) {
    match a
    case SendFails(fault) => Passing(fault)
    case Response(status, _, declared, body) =>
      if 200 <= status <= 299 then
        && (declared.Some? ==> declared.value <= 100_000_000)
        && exists fault :: ReadAs(body, CutOff(fault)) && Passing(fault)
      else
        status == 408 || status == 429 || status == 500 || status == 502 || status == 503 || status == 504
  }

  /** The sleep after attempt `k`: what the server asks for, and otherwise half a second,
      doubled for each attempt, and some jitter. */
  ghost predicate SleepIs(a: Attempt, k: nat, nanos: nat, delay: nat) {
    if a.Response? && !(200 <= a.status <= 299) && !Told(a.retryAfter, None) then Told(a.retryAfter, Some(delay))
    else delay == (if k == 0 then 500 else if k == 1 then 1000 else 2000) + nanos % 500
  }

  predicate StartsAsPdf(bytes: seq<byte>) {
    |bytes| >= 5 && bytes[0] == 0x25 && bytes[1] == 0x50 && bytes[2] == 0x44 && bytes[3] == 0x46 && bytes[4] == 0x2D
  }

  /** What an answer comes to when it is not repeated. */
  ghost predicate Outcome(a: Attempt, checkMagic: bool, r: Result<seq<byte>, HttpError>) {
    match a
    case SendFails(_) => r == Err(Network)
    case Response(status, header, declared, body) =>
      if !(200 <= status <= 299) then
        r.Err? && r.error.HttpStatus? && r.error.status == status && Told(header, r.error.retryAfter)
      else if declared.Some? && declared.value > 100_000_000 then
        r == Err(OversizedBody(declared.value, 100_000_000))
      else match r
           case Ok(bytes) => ReadAs(body, Whole(bytes)) && (checkMagic ==> StartsAsPdf(bytes))
           case Err(Network) => exists fault :: ReadAs(body, CutOff(fault))
           case Err(OversizedBody(actual, cap)) => ReadAs(body, TooBig(actual)) && cap == 100_000_000
           case Err(NotAPdf(got)) => checkMagic && IsNoPdf(body, Gathered(body), got)
           case Err(HttpStatus(_, _)) => false
  }

  /** The whole body starts otherwise; its first five bytes, or zeros, are reported. */
  ghost predicate IsNoPdf(body: seq<BodyEvent>, bytes: seq<byte>, got: seq<byte>) {
    && ReadAs(body, Whole(bytes)) && !StartsAsPdf(bytes) && |got| == 5
    && forall i :: 0 <= i < 5 ==> got[i] == if i < |bytes| then bytes[i] else 0
  }

  // ---- The loop ----

  method ReadBody(body: seq<BodyEvent>) returns (read: Read)
    ensures ReadAs(body, read)
  {
    var buf: seq<byte> := [];
    for i := 0 to |body|
      invariant AllData(body, i) && buf == Gathered(body[..i]) && |buf| <= PDF_MAX_BYTES
    {
      match body[i] {
        case Broken(fault) =>
          assert BreaksAt(body, i, fault);
          return CutOff(fault);
        case Data(bytes) =>
          assert body[..i + 1][..i] == body[..i];
          var projected := |buf| + |bytes|;
          if projected > PDF_MAX_BYTES {
            assert OverflowsAt(body, i, projected);
            return TooBig(projected);
          }
          buf := buf + bytes;
      }
    }
    assert body[..|body|] == body;
    return Whole(buf);
  }

  datatype Turn = Retry(delay: nat) | Done(result: Result<seq<byte>, HttpError>)

  /** One turn of the loop. */
  method OneAttempt(response: Attempt, attempt: nat, nanos: nat, checkMagic: bool) returns (turn: Turn)
    ensures turn.Retry? <==> attempt < 3 && Repeatable(response)
    ensures turn.Retry? ==> SleepIs(response, attempt, nanos, turn.delay)
    ensures turn.Done? ==> Outcome(response, checkMagic, turn.result)
  {
    BackoffIs(attempt, nanos);
    if response.SendFails? {
      if attempt < MAX_FETCH_RETRIES && IsTransient(response.fault) {
        return Retry(BackoffDelay(attempt, nanos));
      }
      return Done(Err(Network));
    }
    if !IsSuccess(response.status) {
      var told := ParseRetryAfter(response.retryAfter);
      RetryAfterIff(response.retryAfter, told);
      if attempt < MAX_FETCH_RETRIES && IsTransientStatus(response.status) {
        return Retry(if told.Some? then told.value else BackoffDelay(attempt, nanos));
      }
      return Done(Err(HttpStatus(response.status, told)));
    }
    if response.contentLength.Some? && response.contentLength.value > PDF_MAX_BYTES {
      return Done(Err(OversizedBody(response.contentLength.value, PDF_MAX_BYTES)));
    }
    var read := ReadBody(response.body);
    RepeatableIff(response, read);
    match read {
      case TooBig(actual) =>
        return Done(Err(OversizedBody(actual, PDF_MAX_BYTES)));
      case CutOff(fault) =>
        if attempt < MAX_FETCH_RETRIES && IsTransient(fault) {
          return Retry(BackoffDelay(attempt, nanos));
        }
        return Done(Err(Network));
      case Whole(bytes) =>
        MagicIff(bytes);
        if checkMagic {
          var got := Head5(bytes);
          if got != PDF_MAGIC {
            return Done(Err(NotAPdf(got)));
          }
        }
        return Done(Ok(bytes));
    }
  }

  /** The fetch ends with attempt `n`: the first that is not worth repeating, or the fourth. */
  ghost predicate EndsWith(answers: nat -> Attempt, n: nat) {
    && n <= 3 && (forall k: nat :: k < n ==> Repeatable(answers(k)))
    && (n < 3 ==> !Repeatable(answers(n)))
  }

  ghost predicate SleptAfter(answers: nat -> Attempt, nanos: nat -> nat, sleeps: seq<nat>, k: nat)
    requires k < |sleeps|
  {
    SleepIs(answers(k), k, nanos(k), sleeps[k])
  }

  function Sum(sleeps: seq<nat>): nat {
    if sleeps == [] then 0 else Sum(sleeps[..|sleeps| - 1]) + sleeps[|sleeps| - 1]
  }

  /** The sleeps between the attempts, and what the last attempt comes to. */
  method FetchInner(answers: nat -> Attempt, nanos: nat -> nat, checkMagic: bool)
    returns (r: Result<seq<byte>, HttpError>, sleeps: seq<nat>)
    ensures EndsWith(answers, |sleeps|)
    ensures forall k: nat :: k < |sleeps| ==> SleptAfter(answers, nanos, sleeps, k)
    ensures Sum(sleeps) <= 90_000
    ensures Outcome(answers(|sleeps|), checkMagic, r)
  {
    sleeps := [];
    while true
      invariant |sleeps| <= 3 && forall k: nat :: k < |sleeps| ==> Repeatable(answers(k))
      invariant forall k: nat :: k < |sleeps| ==> SleptAfter(answers, nanos, sleeps, k)
      decreases 3 - |sleeps|
    {
      var attempt := |sleeps|;
      var turn := OneAttempt(answers(attempt), attempt, nanos(attempt), checkMagic);
      match turn {
        case Retry(delay) =>
          SleepsOn(answers, nanos, sleeps, delay);
          sleeps := sleeps + [delay];
        case Done(result) =>
          SleepIsBounded(answers, nanos, sleeps);
          return result, sleeps;
      }
    }
  }

  lemma SleepsOn(answers: nat -> Attempt, nanos: nat -> nat, sleeps: seq<nat>, delay: nat)
    requires forall k: nat :: k < |sleeps| ==> SleptAfter(answers, nanos, sleeps, k)
    requires SleepIs(answers(|sleeps|), |sleeps|, nanos(|sleeps|), delay)
    ensures forall k: nat :: k < |sleeps| + 1 ==> SleptAfter(answers, nanos, sleeps + [delay], k)
  {
    forall k: nat | k < |sleeps| + 1 ensures SleptAfter(answers, nanos, sleeps + [delay], k) {
      assert k < |sleeps| ==> SleptAfter(answers, nanos, sleeps, k);
    }
  }

  /** Five bytes, filled up with zeros. */
  function Head5(bytes: seq<byte>): (got: seq<byte>)
    ensures |got| == 5
  {
    if |bytes| >= 5 then bytes[..5] else bytes + seq(5 - |bytes|, _ => 0)
  }

  // ---- Why it keeps that ----

  lemma MagicIff(bytes: seq<byte>)
    ensures Head5(bytes) == PDF_MAGIC <==> StartsAsPdf(bytes)
    ensures forall i :: 0 <= i < 5 ==> Head5(bytes)[i] == if i < |bytes| then bytes[i] else 0
  {
    assert PDF_MAGIC[0] == 0x25 && PDF_MAGIC[1] == 0x50 && PDF_MAGIC[2] == 0x44 && PDF_MAGIC[3] == 0x46;
    assert PDF_MAGIC[4] == 0x2D && |PDF_MAGIC| == 5;
  }

  lemma BackoffIs(attempt: nat, nanos: nat)
    ensures attempt < 3 ==>
            BackoffDelay(attempt, nanos)
            == (if attempt == 0 then 500 else if attempt == 1 then 1000 else 2000) + nanos % 500
  {
    assert Pow2(0) == 1 && Pow2(1) == 2 && Pow2(2) == 4;
  }

  lemma {:induction false} GatheredGrows(body: seq<BodyEvent>, m: nat, n: nat)
    requires m <= n <= |body|
    ensures |Gathered(body[..m])| <= |Gathered(body[..n])|
    decreases n
  {
    if m < n {
      assert body[..n][..n - 1] == body[..n - 1];
      GatheredGrows(body, m, n - 1);
    }
  }

  /** A body is read in one way. */
  lemma ReadIsUnique(body: seq<BodyEvent>, first: Read, second: Read)
    requires ReadAs(body, first) && ReadAs(body, second)
    ensures first == second
  {
    assert body[..|body|] == body;
    if first.TooBig? && second.TooBig? {
      var m: nat :| OverflowsAt(body, m, first.actual);
      var n: nat :| OverflowsAt(body, n, second.actual);
      if m < n { GatheredGrows(body, m + 1, n); }
      if n < m { GatheredGrows(body, n + 1, m); }
    } else if first.TooBig? {
      NotTooBig(body, second, first.actual);
    } else if second.TooBig? {
      NotTooBig(body, first, second.actual);
    }
  }

  lemma NotTooBig(body: seq<BodyEvent>, read: Read, actual: nat)
    requires ReadAs(body, read) && !read.TooBig?
    ensures !ReadAs(body, TooBig(actual))
  {
    if n: nat :| OverflowsAt(body, n, actual) {
      if read.Whole? {
        assert body[..|body|] == body;
        GatheredGrows(body, n + 1, |body|);
      } else {
        var m: nat :| BreaksAt(body, m, read.fault);
        if n < m { GatheredGrows(body, n + 1, m); }
      }
    }
  }

  lemma RepeatableIff(a: Attempt, read: Read)
    requires a.Response? && 200 <= a.status <= 299 && ReadAs(a.body, read)
    requires a.contentLength.Some? ==> a.contentLength.value <= 100_000_000
    ensures Repeatable(a) <==> read.CutOff? && Passing(read.fault)
  {
    if fault :| ReadAs(a.body, CutOff(fault)) && Passing(fault) {
      ReadIsUnique(a.body, CutOff(fault), read);
    }
  }

  lemma NumberIsTrimmed(header: string, before: string, plus: string, digits: string, behind: string, secs: nat)
    requires AsksAs(header, before, plus, digits, behind, secs)
    ensures Trim(header) == plus + digits && ParseU64(plus + digits) == Some(secs)
  {
    var t := plus + digits;
    SpaceIff(t[0]);
    SpaceIff(t[|t| - 1]);
    assert t[|t| - 1] == digits[|digits| - 1];
    TrimIs(before, t, behind);
    assert plus == "+" ==> t[1..] == digits;
    assert plus == "" ==> t == digits;
  }

  lemma TrimmedNumberAsks(header: string)
    requires ParseU64(Trim(header)).Some?
    requires forall i :: 0 <= i < |header| ==> ' ' <= header[i] <= '~' || header[i] == '\t'
    ensures Asks(header, ParseU64(Trim(header)).value)
  {
    var t := Trim(header);
    TrimSplits(header);
    var plus, digits := if t[0] == '+' then "+" else "", if t[0] == '+' then t[1..] else t;
    assert t == plus + digits;
    assert AsksAs(header, Leading(header), plus, digits, Trailing(header), Value(digits));
  }

  /** Which values of the header are heeded, and for how long. */
  lemma RetryAfterIff(header: Option<string>, told: Option<nat>)
    ensures ParseRetryAfter(header) == told <==> Told(header, told)
  {
    if header.Some? {
      if exists secs: nat :: Asks(header.value, secs) {
        forall secs: nat | Asks(header.value, secs) ensures ParseU64(Trim(header.value)) == Some(secs) {
          var before, plus, digits, behind :| AsksAs(header.value, before, plus, digits, behind, secs);
          NumberIsTrimmed(header.value, before, plus, digits, behind, secs);
        }
      } else if VisibleAscii(header.value) && ParseU64(Trim(header.value)).Some? {
        TrimmedNumberAsks(header.value);
      }
    }
  }

  // ---- What a fetch guarantees ----

  /** An answer comes to one thing. */
  lemma OutcomeIsUnique(a: Attempt, checkMagic: bool, r: Result<seq<byte>, HttpError>, s: Result<seq<byte>, HttpError>)
    requires Outcome(a, checkMagic, r) && Outcome(a, checkMagic, s)
    ensures r == s
  {
    if a.Response? && !(200 <= a.status <= 299) {
      RetryAfterIff(a.retryAfter, r.error.retryAfter);
      RetryAfterIff(a.retryAfter, s.error.retryAfter);
    } else if a.Response? && (a.contentLength.Some? ==> a.contentLength.value <= 100_000_000) {
      var x := ReadFor(a, checkMagic, r);
      var y := ReadFor(a, checkMagic, s);
      ReadIsUnique(a.body, x, y);
      if r.Err? && s.Err? && r.error.NotAPdf? && s.error.NotAPdf? {
        assert r.error.got == s.error.got;
      }
    }
  }

  lemma ReadFor(a: Attempt, checkMagic: bool, r: Result<seq<byte>, HttpError>) returns (read: Read)
    requires a.Response? && 200 <= a.status <= 299 && Outcome(a, checkMagic, r)
    requires a.contentLength.Some? ==> a.contentLength.value <= 100_000_000
    ensures ReadAs(a.body, read)
    ensures match r
            case Ok(bytes) => read == Whole(bytes) && (checkMagic ==> StartsAsPdf(bytes))
            case Err(Network) => read.CutOff?
            case Err(OversizedBody(actual, cap)) => read == TooBig(actual) && cap == 100_000_000
            case Err(NotAPdf(got)) => read.Whole? && checkMagic && IsNoPdf(a.body, read.bytes, got)
            case Err(HttpStatus(_, _)) => false
  {
    match r {
      case Ok(bytes) => read := Whole(bytes);
      case Err(Network) =>
        var fault :| ReadAs(a.body, CutOff(fault));
        read := CutOff(fault);
      case Err(OversizedBody(actual, _)) => read := TooBig(actual);
      case Err(NotAPdf(_)) => read := Whole(Gathered(a.body));
    }
  }

  /** Which attempt a fetch ends with is settled by the answers. */
  lemma EndIsUnique(answers: nat -> Attempt, m: nat, n: nat)
    requires EndsWith(answers, m) && EndsWith(answers, n)
    ensures m == n
  {
    assert m < n ==> Repeatable(answers(m));
    assert n < m ==> Repeatable(answers(n));
  }

  /** One sleep is at most half a minute, so a fetch sleeps at most 90 seconds. */
  lemma SleepIsBounded(answers: nat -> Attempt, nanos: nat -> nat, sleeps: seq<nat>)
    requires |sleeps| <= 3 && forall k: nat :: k < |sleeps| ==> SleptAfter(answers, nanos, sleeps, k)
    ensures forall k :: 0 <= k < |sleeps| ==> sleeps[k] <= 30_000
    ensures Sum(sleeps) <= 90_000
  {
    forall k: nat | k < |sleeps| ensures sleeps[k] <= 30_000 {
      assert SleptAfter(answers, nanos, sleeps, k);
    }
    SumIsBounded(sleeps);
  }

  lemma {:induction false} SumIsBounded(sleeps: seq<nat>)
    requires forall k :: 0 <= k < |sleeps| ==> sleeps[k] <= 30_000
    ensures Sum(sleeps) <= |sleeps| * 30_000
  {
    if sleeps != [] {
      SumIsBounded(sleeps[..|sleeps| - 1]);
    }
  }

  /** A number in decimal digits. */
  function Decimal(n: nat): string {
    if n < 10 then [DigitOf(n)] else Decimal(n / 10) + [DigitOf(n % 10)]
  }

  function DigitOf(n: nat): char
    requires n < 10
  {
    "0123456789"[n]
  }

  lemma {:induction false} DecimalIsRead(n: nat)
    ensures Decimal(n) != "" && Digits(Decimal(n)) && Value(Decimal(n)) == n
  {
    var s, last := Decimal(n), DigitOf(n % 10);
    assert IsDigit(last) && last as int - '0' as int == n % 10;
    assert Value("") == 0;
    if n < 10 {
      assert s[..0] == "" && s[0] == last;
    } else {
      DecimalIsRead(n / 10);
      assert s[..|s| - 1] == Decimal(n / 10) && s[|s| - 1] == last;
    }
  }

  /** A header that names its seconds in decimal is heeded, for half a minute at most. */
  lemma SecondsAreHeeded(secs: nat)
    requires secs <= 0xFFFF_FFFF_FFFF_FFFF
    ensures ParseRetryAfter(Some(Decimal(secs))) == Some(if secs < 30 then secs * 1000 else 30_000)
  {
    var s := Decimal(secs);
    DecimalIsRead(secs);
    DigitsAsk(s, secs);
    RetryAfterIff(Some(s), Some(if secs < 30 then secs * 1000 else 30_000));
  }

  lemma DigitsAsk(digits: string, secs: nat)
    requires digits != "" && Digits(digits) && secs == Value(digits) <= 0xFFFF_FFFF_FFFF_FFFF
    ensures Asks(digits, secs)
  {
    assert "" + ("" + digits + "") == digits;
    assert AsksAs(digits, "", "", digits, "", secs);
  }

  // ---- Hosts ----

  function Labels(s: string): (labels: seq<string>)
    ensures labels != []
  {
    var k := IndexFrom(s, 0, '.');
    if k == |s| then [s] else [s[..k]] + Labels(s[k + 1..])
  }

  predicate HasSuffix(s: string, suffix: string) {
    |suffix| <= |s| && s[|s| - |suffix|..] == suffix
  }

  predicate HostMatches(host: string, pattern: string) {
    var p := Lowered(pattern);
    if StartsWith(p, "*.") then
      var suffix := p[2..];
      host == suffix || HasSuffix(host, "." + suffix)
    else host == p
  }

  const RESOLVERS := ["doi.org", "dx.doi.org", "hdl.handle.net"]

  predicate Permits(redirectHosts: seq<string>, host: string) {
    || Lowered(host) in RESOLVERS
    || exists i :: 0 <= i < |redirectHosts| && HostMatches(Lowered(host), redirectHosts[i])
  }

  predicate IsLowered(s: string) {
    forall i :: 0 <= i < |s| ==> !IsUpper(s[i])
  }

  lemma LoweredIsSame(s: string)
    requires IsLowered(s)
    ensures Lowered(s) == s
  {
  }

  lemma IndexIs(s: string, k: nat)
    requires k <= |s| && (k < |s| ==> s[k] == '.') && forall j :: 0 <= j < k ==> s[j] != '.'
    ensures IndexFrom(s, 0, '.') == k
  {
  }

  lemma {:induction false} LabelsOfDotted(a: string, b: string)
    ensures Labels(a + "." + b) == Labels(a) + Labels(b)
    decreases |a|
  {
    var s, k := a + "." + b, IndexFrom(a, 0, '.');
    assert forall j :: 0 <= j < |a| ==> s[j] == a[j];
    assert s[|a|] == '.';
    IndexIs(s, k);
    assert s[..k] == a[..k];
    if k == |a| {
      assert s[k + 1..] == b && a[..k] == a;
    } else {
      assert s[k + 1..] == a[k + 1..] + "." + b;
      LabelsOfDotted(a[k + 1..], b);
    }
  }

  function Dotted(labels: seq<string>): string
    requires labels != []
  {
    if |labels| == 1 then labels[0] else labels[0] + "." + Dotted(labels[1..])
  }

  lemma {:induction false} DottedLabels(s: string)
    ensures Dotted(Labels(s)) == s
    decreases |s|
  {
    var k := IndexFrom(s, 0, '.');
    if k < |s| {
      DottedLabels(s[k + 1..]);
      assert Labels(s)[1..] == Labels(s[k + 1..]);
      assert s == s[..k] + "." + s[k + 1..];
    }
  }

  lemma {:induction false} DottedAppend(a: seq<string>, b: seq<string>)
    requires a != [] && b != []
    ensures Dotted(a + b) == Dotted(a) + "." + Dotted(b)
  {
    assert (a + b)[1..] == a[1..] + b;
    if |a| > 1 {
      DottedAppend(a[1..], b);
      assert a[0] + "." + (Dotted(a[1..]) + "." + Dotted(b)) == a[0] + "." + Dotted(a[1..]) + "." + Dotted(b);
    }
  }

  lemma GlobIs(host: string, suffix: string)
    requires IsLowered(suffix)
    ensures HostMatches(host, "*." + suffix) <==> host == suffix || HasSuffix(host, "." + suffix)
  {
    var p := "*." + suffix;
    LoweredIsSame(p);
    assert p[2..] == suffix && p[..2] == "*.";
  }

  lemma DottedSuffixHasLabels(host: string, suffix: string)
    requires HasSuffix(host, "." + suffix)
    ensures var h, s := Labels(host), Labels(suffix); |s| <= |h| && h[|h| - |s|..] == s
  {
    var x := host[..|host| - |suffix| - 1];
    assert host == x + ("." + suffix);
    assert x + ("." + suffix) == x + "." + suffix;
    LabelsOfDotted(x, suffix);
    assert Labels(host)[|Labels(x)|..] == Labels(suffix);
  }

  lemma LabelsMakeSuffix(host: string, suffix: string)
    requires var h, s := Labels(host), Labels(suffix); |s| <= |h| && h[|h| - |s|..] == s
    ensures host == suffix || HasSuffix(host, "." + suffix)
  {
    var h, s := Labels(host), Labels(suffix);
    var front := h[..|h| - |s|];
    assert h == front + s;
    DottedLabels(host);
    DottedLabels(suffix);
    if front == [] {
      assert h == s;
    } else {
      DottedEnd(front, s);
    }
  }

  lemma DottedEnd(front: seq<string>, s: seq<string>)
    requires front != [] && s != []
    ensures HasSuffix(Dotted(front + s), "." + Dotted(s))
  {
    DottedAppend(front, s);
    var head, tail := Dotted(front), "." + Dotted(s);
    assert head + "." + Dotted(s) == head + tail;
    assert (head + tail)[|head|..] == tail;
  }

  /** A glob matches whole labels: the suffix's are the last ones of the host. */
  lemma GlobMatchesLabels(host: string, suffix: string)
    requires IsLowered(suffix)
    ensures HostMatches(host, "*." + suffix) <==>
            var h, s := Labels(host), Labels(suffix); |s| <= |h| && h[|h| - |s|..] == s
  {
    GlobIs(host, suffix);
    var h, s := Labels(host), Labels(suffix);
    if HasSuffix(host, "." + suffix) {
      DottedSuffixHasLabels(host, suffix);
    }
    if |s| <= |h| && h[|h| - |s|..] == s {
      LabelsMakeSuffix(host, suffix);
    }
  }

  // ---- Redirects ----

  const MAX_REDIRECTS := 10

  datatype Url = Url(scheme: string, host: Option<string>)

  datatype Verdict = Follow | Stop | InsecureRedirect | RedirectDenied

  /** One hop, `previous` requests already made in the chain. */
  function Decide(redirectHosts: seq<string>, url: Url, previous: nat): Verdict {
    if url.scheme != "https" then InsecureRedirect
    else if previous >= MAX_REDIRECTS then Stop
    else if url.host.None? then RedirectDenied
    else if !Permits(redirectHosts, Lowered(url.host.value)) then RedirectDenied
    else Follow
  }

  /** A resolver by name, a host by its own pattern, or a host at or below the one
      behind `*.`, all in any case. */
  ghost predicate PermittedBy(pattern: string, host: string) {
    if |pattern| >= 2 && pattern[0] == '*' && pattern[1] == '.' then
      || SameLetters(host, pattern[2..])
      || (|pattern| - 1 <= |host| && SameLetters(host[|host| - (|pattern| - 1)..], pattern[1..]))
    else SameLetters(host, pattern)
  }

  ghost predicate Permitted(redirectHosts: seq<string>, host: string) {
    || SameLetters(host, "doi.org") || SameLetters(host, "dx.doi.org") || SameLetters(host, "hdl.handle.net")
    || exists i :: 0 <= i < |redirectHosts| && PermittedBy(redirectHosts[i], host)
  }

  lemma LoweredEnd(s: string, n: nat)
    requires n <= |s|
    ensures Lowered(s)[n..] == Lowered(s[n..]) && Lowered(s)[..n] == Lowered(s[..n])
  {
  }

  lemma MatchesIff(pattern: string, host: string)
    ensures HostMatches(Lowered(host), pattern) <==> PermittedBy(pattern, host)
  {
    var p, h := Lowered(pattern), Lowered(host);
    LoweredIff(host, pattern);
    assert StartsWith(p, "*.") <==> |pattern| >= 2 && pattern[0] == '*' && pattern[1] == '.' by {
      assert |p| >= 2 ==> p[..2][0] == ToLower(pattern[0]) && p[..2][1] == ToLower(pattern[1]);
      assert |p| >= 2 && p[0] == '*' && p[1] == '.' ==> p[..2] == "*.";
    }
    if StartsWith(p, "*.") {
      LoweredEnd(pattern, 2);
      LoweredEnd(pattern, 1);
      LoweredIff(host, pattern[2..]);
      assert "." + p[2..] == p[1..];
      if |pattern| - 1 <= |host| {
        var n := |host| - (|pattern| - 1);
        LoweredEnd(host, n);
        LoweredIff(host[n..], pattern[1..]);
      }
    }
  }

  /** Which hosts a redirect may lead to. */
  lemma PermitsIff(redirectHosts: seq<string>, host: string)
    ensures Permits(redirectHosts, host) <==> Permitted(redirectHosts, host)
  {
    assert IsLowered("doi.org") && IsLowered("dx.doi.org") && IsLowered("hdl.handle.net");
    LoweredIsSame("doi.org");
    LoweredIsSame("dx.doi.org");
    LoweredIsSame("hdl.handle.net");
    LoweredIff(host, "doi.org");
    LoweredIff(host, "dx.doi.org");
    LoweredIff(host, "hdl.handle.net");
    forall i | 0 <= i < |redirectHosts|
      ensures HostMatches(Lowered(host), redirectHosts[i]) <==> PermittedBy(redirectHosts[i], host)
    {
      MatchesIff(redirectHosts[i], host);
    }
  }

  ghost predicate Allowed(redirectHosts: seq<string>, url: Url) {
    url.scheme == "https" && url.host.Some? && Permitted(redirectHosts, url.host.value)
  }

  lemma LoweredTwice(s: string)
    ensures Lowered(Lowered(s)) == Lowered(s)
  {
  }

  /** A chain of hops under the policy follows a longest run of them: each over
      https to a permitted host, and no more than the limit leaves room for. */
  method FollowRedirects(redirectHosts: seq<string>, hops: seq<Url>, carried: nat)
    returns (followed: nat, verdict: Verdict)
    ensures followed <= |hops|
    ensures forall i :: 0 <= i < followed ==> Allowed(redirectHosts, hops[i])
    ensures followed <= if carried < 10 then 10 - carried else 0
    ensures followed == |hops| <==> verdict.Follow?
    ensures followed < |hops| ==>
            match verdict
            case InsecureRedirect => hops[followed].scheme != "https"
            case Stop => hops[followed].scheme == "https" && carried + followed >= 10
            case RedirectDenied => hops[followed].scheme == "https" && carried + followed < 10
                                   && !Allowed(redirectHosts, hops[followed])
            case Follow => false
  {
    followed, verdict := 0, Follow;
    while followed < |hops|
      invariant followed <= |hops| && verdict.Follow?
      invariant forall i :: 0 <= i < followed ==> Allowed(redirectHosts, hops[i])
      invariant followed <= if carried < 10 then 10 - carried else 0
    {
      var url := hops[followed];
      verdict := Decide(redirectHosts, url, carried + followed);
      if url.host.Some? {
        LoweredTwice(url.host.value);
        PermitsIff(redirectHosts, url.host.value);
      }
      if verdict != Follow {
        return;
      }
      followed := followed + 1;
    }
  }
}
