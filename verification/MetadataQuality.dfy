/**
 Metadata that lost characters to U+FFFD: when a candidate restores it, and the
 repair that takes nothing else.
 */
module MetadataQuality {
  import opened Wrappers

  const REPLACEMENT_CHAR := '\U{FFFD}'
  const RESTORE_MAX_CHARS := 2000

  predicate HasLoss(s: string) {
    exists i :: 0 <= i < |s| && s[i] == '\U{FFFD}'
  }

  // ---- What it is to restore ----

  function Sum(widths: seq<nat>, n: nat): nat
    requires n <= |widths|
  {
    if n == 0 then 0 else Sum(widths, n - 1) + widths[n - 1]
  }

  /** The character at `i` of the damaged text stands where `widths` puts it. */
  predicate Placed(damaged: string, candidate: string, widths: seq<nat>, i: nat)
    requires i < |damaged| == |widths|
  {
    var at := Sum(widths, i);
    if damaged[i] == '\U{FFFD}' then 1 <= widths[i] <= 2
    else widths[i] == 1 && at < |candidate| && candidate[at] == damaged[i]
  }

  /** A cut of the candidate, one piece to each character of the damaged text:
      one or two characters for a lost one, the same character for any other. */
  ghost predicate Alignment(damaged: string, candidate: string, widths: seq<nat>) {
    && |widths| == |damaged|
    && Sum(widths, |widths|) == |candidate|
    && forall i: nat :: i < |damaged| ==> Placed(damaged, candidate, widths, i)
  }

  ghost predicate Restored(damaged: string, candidate: string) {
    && HasLoss(damaged) && !HasLoss(candidate)
    && |damaged| <= 2000 && |candidate| <= 2000
    && exists widths :: Alignment(damaged, candidate, widths)
  }

  // ---- Prefix by prefix ----

  /** The first `n` characters of the damaged text match the first `j` of the
      candidate. */
  predicate Reaches(damaged: string, n: nat, candidate: string, j: nat)
    requires n <= |damaged| && j <= |candidate|
  {
    if n == 0 then j == 0
    else if damaged[n - 1] == REPLACEMENT_CHAR then
      (j >= 1 && Reaches(damaged, n - 1, candidate, j - 1)) || (j >= 2 && Reaches(damaged, n - 1, candidate, j - 2))
    else j >= 1 && candidate[j - 1] == damaged[n - 1] && Reaches(damaged, n - 1, candidate, j - 1)
  }

  /** Widths that place the first `n` characters on the first `j`. */
  ghost predicate Places(damaged: string, n: nat, candidate: string, j: nat, widths: seq<nat>) {
    && n <= |damaged| == |widths| && Sum(widths, n) == j
    && forall i: nat :: i < n ==> Placed(damaged, candidate, widths, i)
  }

  lemma {:induction false} SumAgrees(a: seq<nat>, b: seq<nat>, n: nat)
    requires n <= |a| && n <= |b| && forall i :: 0 <= i < n ==> a[i] == b[i]
    ensures Sum(a, n) == Sum(b, n)
  {
    if n > 0 {
      SumAgrees(a, b, n - 1);
    }
  }

  lemma PlacesExtends(damaged: string, n: nat, candidate: string, j: nat, widths: seq<nat>, w: nat)
    requires n < |damaged| && Places(damaged, n, candidate, j, widths)
    requires if damaged[n] == REPLACEMENT_CHAR then 1 <= w <= 2
             else w == 1 && j < |candidate| && candidate[j] == damaged[n]
    ensures Places(damaged, n + 1, candidate, j + w, widths[n := w])
  {
    var more := widths[n := w];
    SumAgrees(widths, more, n);
    forall i: nat | i < n + 1 ensures Placed(damaged, candidate, more, i) {
      if i < n {
        assert Placed(damaged, candidate, widths, i);
        SumAgrees(widths, more, i);
      }
    }
  }

  lemma {:induction false} ReachesIff(damaged: string, n: nat, candidate: string, j: nat)
    requires n <= |damaged| && j <= |candidate|
    ensures Reaches(damaged, n, candidate, j) <==> exists widths :: Places(damaged, n, candidate, j, widths)
  {
    if n == 0 {
      var none := seq(|damaged|, _ => 0);
      assert j == 0 ==> Places(damaged, 0, candidate, 0, none);
      return;
    }
    if Reaches(damaged, n, candidate, j) {
      var one := j >= 1 && Reaches(damaged, n - 1, candidate, j - 1);
      var w := if damaged[n - 1] == REPLACEMENT_CHAR && !one then 2 else 1;
      ReachesIff(damaged, n - 1, candidate, j - w);
      var widths :| Places(damaged, n - 1, candidate, j - w, widths);
      PlacesExtends(damaged, n - 1, candidate, j - w, widths, w);
    }
    if widths :| Places(damaged, n, candidate, j, widths) {
      assert Placed(damaged, candidate, widths, n - 1);
      assert Places(damaged, n - 1, candidate, j - widths[n - 1], widths);
      ReachesIff(damaged, n - 1, candidate, j - widths[n - 1]);
    }
  }

  lemma AlignmentIff(damaged: string, candidate: string)
    ensures Reaches(damaged, |damaged|, candidate, |candidate|)
            <==> exists widths :: Alignment(damaged, candidate, widths)
  {
    ReachesIff(damaged, |damaged|, candidate, |candidate|);
    if widths :| Alignment(damaged, candidate, widths) {
      assert Places(damaged, |damaged|, candidate, |candidate|, widths);
    }
    if widths :| Places(damaged, |damaged|, candidate, |candidate|, widths) {
      assert Alignment(damaged, candidate, widths);
    }
  }

  function Losses(s: string, n: nat): nat
    requires n <= |s|
  {
    if n == 0 then 0 else Losses(s, n - 1) + if s[n - 1] == REPLACEMENT_CHAR then 1 else 0
  }

  /** Only lengths the lost characters account for can match. */
  lemma {:induction false} ReachesLength(damaged: string, n: nat, candidate: string, j: nat)
    requires n <= |damaged| && j <= |candidate| && Reaches(damaged, n, candidate, j)
    ensures n <= j <= n + Losses(damaged, n)
  {
    if n > 0 {
      if j >= 1 && Reaches(damaged, n - 1, candidate, j - 1) {
        ReachesLength(damaged, n - 1, candidate, j - 1);
      } else {
        ReachesLength(damaged, n - 1, candidate, j - 2);
      }
    }
  }

  /** Once nothing is reached, nothing further on is. */
  lemma {:induction false} NothingReached(damaged: string, n: nat, m: nat, candidate: string, j: nat)
    requires n <= m <= |damaged| && j <= |candidate|
    requires forall k: nat :: k <= |candidate| ==> !Reaches(damaged, n, candidate, k)
    ensures !Reaches(damaged, m, candidate, j)
    decreases m
  {
    if n < m {
      if j >= 1 {
        NothingReached(damaged, n, m - 1, candidate, j - 1);
      }
      if j >= 2 {
        NothingReached(damaged, n, m - 1, candidate, j - 2);
      }
    }
  }

  // ---- The two-row search ----

  method CountLosses(s: string) returns (lost: nat)
    ensures lost == Losses(s, |s|)
  {
    lost := 0;
    for i := 0 to |s|
      invariant lost == Losses(s, i)
    {
      if s[i] == REPLACEMENT_CHAR {
        lost := lost + 1;
      }
    }
  }

  /** One more character of the damaged text: the row `next` from the row
      `reach`; `any` when something is reached. */
  method Advance(damaged: string, n: nat, candidate: string, reach: array<bool>, next: array<bool>)
    returns (any: bool)
    requires n < |damaged| && reach != next && reach.Length == next.Length == |candidate| + 1
    requires forall j: nat :: j <= |candidate| ==> reach[j] == Reaches(damaged, n, candidate, j)
    modifies next
    ensures forall j: nat :: j <= |candidate| ==> next[j] == Reaches(damaged, n + 1, candidate, j)
    ensures any <==> exists j: nat :: j <= |candidate| && next[j]
  {
    for j := 0 to next.Length
      invariant forall k :: 0 <= k < j ==> !next[k]
    {
      next[j] := false;
    }
    var lost := damaged[n] == REPLACEMENT_CHAR;
    for j := 0 to |candidate| + 1
      invariant forall k: nat :: k <= |candidate| ==>
        next[k] == if lost then (1 <= k <= j && reach[k - 1]) || (2 <= k <= j + 1 && reach[k - 2])
                   else 1 <= k <= j && candidate[k - 1] == damaged[n] && reach[k - 1]
    {
      if reach[j] {
        if lost {
          if j + 1 <= |candidate| {
            next[j + 1] := true;
          }
          if j + 2 <= |candidate| {
            next[j + 2] := true;
          }
        } else if j < |candidate| && candidate[j] == damaged[n] {
          next[j + 1] := true;
        }
      }
    }
    any := exists j: nat :: j <= |candidate| && next[j];
  }

  /** The length check, the bound and the early exit never change the answer. */
  method Restores(damaged: string, candidate: string) returns (r: bool)
    ensures r <==> Restored(damaged, candidate)
  {
    AlignmentIff(damaged, candidate);
    if HasLoss(candidate) || !HasLoss(damaged) {
      return false;
    }
    var lost := CountLosses(damaged);
    if |damaged| > RESTORE_MAX_CHARS || |candidate| > RESTORE_MAX_CHARS {
      return false;
    }
    if Reaches(damaged, |damaged|, candidate, |candidate|) {
      ReachesLength(damaged, |damaged|, candidate, |candidate|);
    }
    if |candidate| < |damaged| || |candidate| > |damaged| + lost {
      return false;
    }
    var reach := new bool[|candidate| + 1](_ => false);
    var next := new bool[|candidate| + 1](_ => false);
    reach[0] := true;
    for i := 0 to |damaged|
      invariant reach != next && reach.Length == next.Length == |candidate| + 1
      invariant fresh(reach) && fresh(next)
      invariant forall j: nat :: j <= |candidate| ==> reach[j] == Reaches(damaged, i, candidate, j)
    {
      var any := Advance(damaged, i, candidate, reach, next);
      if !any {
        ghost var n := i + 1;
        forall j: nat | j <= |candidate| ensures !Reaches(damaged, n, candidate, j) {
          assert !next[j];
        }
        NothingReached(damaged, n, |damaged|, candidate, |candidate|);
        return false;
      }
      reach, next := next, reach;
    }
    r := reach[|candidate|];
  }

  // ---- The repair ----

  datatype CheckedField = TitleField | AuthorsField | VenueField | PublisherField | AbstractField

  /** What one source has for each field that can be repaired. */
  datatype Work = Work(title: Option<string>, venue: Option<string>)

  /** A source that serves the reference or does not, and what asking it gives. */
  datatype Source = Source(name: string, canServe: bool, answer: Option<Work>)

  datatype QualityReport = QualityReport(repaired: map<CheckedField, string>, remaining: seq<CheckedField>)

  datatype Values = Values(title: string, authors: seq<string>, venue: Option<string>,
                           publisher: Option<string>, abstract_: Option<string>)

  predicate OptionHasLoss(s: Option<string>) {
    s.Some? && HasLoss(s.value)
  }

  predicate Damaged(v: Values, f: CheckedField) {
    match f
    case TitleField => HasLoss(v.title)
    case AuthorsField => exists i :: 0 <= i < |v.authors| && HasLoss(v.authors[i])
    case VenueField => OptionHasLoss(v.venue)
    case PublisherField => OptionHasLoss(v.publisher)
    case AbstractField => OptionHasLoss(v.abstract_)
  }

  const CHECKED_FIELDS := [TitleField, AuthorsField, VenueField, PublisherField, AbstractField]

  function DamagedAmong(v: Values, fields: seq<CheckedField>): seq<CheckedField> {
    if fields == [] then [] else
      (if Damaged(v, fields[0]) then [fields[0]] else []) + DamagedAmong(v, fields[1..])
  }

  function Candidate(s: Source, f: CheckedField): Option<string> {
    if !s.canServe || s.answer.None? then None
    else match f
         case TitleField => s.answer.value.title
         case VenueField => s.answer.value.venue
         case _ => None
  }

  ghost predicate RestoresTitle(s: Source, damaged: string) {
    s.canServe && s.answer.Some? && s.answer.value.title.Some? && Restored(damaged, s.answer.value.title.value)
  }

  ghost predicate RestoresVenue(s: Source, damaged: string) {
    s.canServe && s.answer.Some? && s.answer.value.venue.Some? && Restored(damaged, s.answer.value.venue.value)
  }

  /** This source restores the damaged text of the field. */
  ghost predicate Offers(s: Source, f: CheckedField, damaged: string) {
    (f == TitleField && RestoresTitle(s, damaged)) || (f == VenueField && RestoresVenue(s, damaged))
  }

  /** What it then offers. */
  function Offered(s: Source, f: CheckedField): Option<string>
    requires s.answer.Some?
  {
    if f == TitleField then s.answer.value.title else s.answer.value.venue
  }

  lemma OffersIff(s: Source, f: CheckedField, damaged: string)
    ensures Offers(s, f, damaged) <==> Candidate(s, f).Some? && Restored(damaged, Candidate(s, f).value)
    ensures Offers(s, f, damaged) ==> Offered(s, f) == Candidate(s, f)
  {
  }

  /** The first source that restores the title; and the venue. */
  ghost predicate FirstForTitle(sources: seq<Source>, i: nat, damaged: string) {
    i < |sources| && RestoresTitle(sources[i], damaged) && NoTitleBefore(sources, i, damaged)
  }

  ghost predicate FirstForVenue(sources: seq<Source>, i: nat, damaged: string) {
    i < |sources| && RestoresVenue(sources[i], damaged) && NoVenueBefore(sources, i, damaged)
  }

  ghost predicate NoTitleBefore(sources: seq<Source>, n: nat, damaged: string)
    requires n <= |sources|
  {
    forall i :: 0 <= i < n ==> !RestoresTitle(sources[i], damaged)
  }

  ghost predicate NoVenueBefore(sources: seq<Source>, n: nat, damaged: string)
    requires n <= |sources|
  {
    forall i :: 0 <= i < n ==> !RestoresVenue(sources[i], damaged)
  }

  /** The first of the first `n` sources that restores the field. */
  ghost function FirstOffer(sources: seq<Source>, n: nat, f: CheckedField, damaged: string): Option<Source>
    requires n <= |sources|
  {
    if n == 0 then None
    else
      var before := FirstOffer(sources, n - 1, f, damaged);
      if before.Some? then before else if Offers(sources[n - 1], f, damaged) then Some(sources[n - 1]) else None
  }

  /** What the field holds when the first `n` sources have been asked. */
  ghost function Repaired(sources: seq<Source>, n: nat, f: CheckedField, damaged: string): string
    requires n <= |sources|
  {
    var offer := FirstOffer(sources, n, f, damaged);
    if offer.Some? && Candidate(offer.value, f).Some? then Candidate(offer.value, f).value else damaged
  }

  lemma {:induction false} OfferIsOffered(sources: seq<Source>, n: nat, f: CheckedField, damaged: string)
    requires n <= |sources|
    ensures var offer := FirstOffer(sources, n, f, damaged);
            offer.Some? ==> Offers(offer.value, f, damaged)
    ensures FirstOffer(sources, n, f, damaged).None? <==> forall i :: 0 <= i < n ==> !Offers(sources[i], f, damaged)
  {
    if n > 0 {
      OfferIsOffered(sources, n - 1, f, damaged);
    }
  }

  lemma {:induction false} OfferStands(sources: seq<Source>, n: nat, m: nat, f: CheckedField, damaged: string)
    requires n <= m <= |sources| && FirstOffer(sources, n, f, damaged).Some?
    ensures FirstOffer(sources, m, f, damaged) == FirstOffer(sources, n, f, damaged)
    decreases m
  {
    if n < m {
      OfferStands(sources, n, m - 1, f, damaged);
    }
  }

  /** A field ends up restored or as it was, and free of loss exactly when one
      of the sources restores it. */
  lemma RepairTakesOnlyRestorations(sources: seq<Source>, f: CheckedField, damaged: string)
    requires HasLoss(damaged)
    ensures var value := Repaired(sources, |sources|, f, damaged);
            && (value == damaged || Restored(damaged, value))
            && (!HasLoss(value) <==> exists i :: 0 <= i < |sources| && Offers(sources[i], f, damaged))
  {
    OfferIsOffered(sources, |sources|, f, damaged);
  }

  /** What a slot shows of the repair of one field so far: the repaired value,
      and its source in the report. */
  ghost predicate Shows(sources: seq<Source>, n: nat, f: CheckedField, wanted: bool, damaged: string,
                        now: string, repaired: map<CheckedField, string>)
    requires n <= |sources|
  {
    var offer := if wanted then FirstOffer(sources, n, f, damaged) else None;
    && now == (if offer.Some? then Repaired(sources, n, f, damaged) else damaged)
    && (if offer.Some? then f in repaired && repaired[f] == offer.value.name else f !in repaired)
  }

  /** What one source makes of one field. */
  ghost predicate Tried(s: Source, f: CheckedField, wanted: bool, now: string, repaired: map<CheckedField, string>,
                        after: string, report: map<CheckedField, string>)
  {
    if wanted && f !in repaired && Offers(s, f, now)
    then Some(after) == Offered(s, f) && f in report && report[f] == s.name
    else after == now && (if f in repaired then f in report && report[f] == repaired[f] else f !in report)
  }

  lemma ShowsNext(sources: seq<Source>, i: nat, f: CheckedField, wanted: bool, damaged: string,
                  now: string, repaired: map<CheckedField, string>,
                  after: string, report: map<CheckedField, string>)
    requires i < |sources| && Shows(sources, i, f, wanted, damaged, now, repaired)
    requires Tried(sources[i], f, wanted, now, repaired, after, report)
    ensures Shows(sources, i + 1, f, wanted, damaged, after, report)
  {
    OfferIsOffered(sources, i, f, damaged);
    OffersIff(sources[i], f, damaged);
  }

  /** A source is asked if it serves the reference and a field that is to be
      repaired has not been by the sources before it. */
  ghost predicate AskedAt(sources: seq<Source>, i: nat, was: Values, hasDoi: bool)
    requires i < |sources|
  {
    && sources[i].canServe && hasDoi
    && ((HasLoss(was.title) && NoTitleBefore(sources, i, was.title))
        || (was.venue.Some? && HasLoss(was.venue.value) && NoVenueBefore(sources, i, was.venue.value)))
  }

  /** The text of the first source that restores it, named in the report, or the old text. */
  ghost predicate TitleIs(sources: seq<Source>, wanted: bool, was: string, now: string,
                          repaired: map<CheckedField, string>)
  {
    && (forall i: nat :: wanted && FirstForTitle(sources, i, was) ==>
          now == sources[i].answer.value.title.value && TitleField in repaired
          && repaired[TitleField] == sources[i].name)
    && (!wanted || NoTitleBefore(sources, |sources|, was) ==> now == was && TitleField !in repaired)
  }

  ghost predicate VenueIs(sources: seq<Source>, wanted: bool, was: Option<string>, now: Option<string>,
                          repaired: map<CheckedField, string>)
  {
    && (forall i: nat :: wanted && was.Some? && FirstForVenue(sources, i, was.value) ==>
          now == sources[i].answer.value.venue && VenueField in repaired
          && repaired[VenueField] == sources[i].name)
    && (!wanted || was.None? || NoVenueBefore(sources, |sources|, was.value) ==>
          now == was && VenueField !in repaired)
  }

  lemma {:induction false} FirstOfferIs(sources: seq<Source>, n: nat, i: nat, f: CheckedField, damaged: string)
    requires i < n <= |sources| && Offers(sources[i], f, damaged)
    requires forall j :: 0 <= j < i ==> !Offers(sources[j], f, damaged)
    ensures FirstOffer(sources, n, f, damaged) == Some(sources[i])
  {
    OfferIsOffered(sources, i, f, damaged);
    if i < n - 1 {
      FirstOfferIs(sources, n - 1, i, f, damaged);
    }
  }

  lemma OfferIff(sources: seq<Source>, i: nat, damaged: string)
    requires i <= |sources|
    ensures FirstOffer(sources, i, TitleField, damaged).None? <==> NoTitleBefore(sources, i, damaged)
    ensures FirstOffer(sources, i, VenueField, damaged).None? <==> NoVenueBefore(sources, i, damaged)
  {
    OfferIsOffered(sources, i, TitleField, damaged);
    OfferIsOffered(sources, i, VenueField, damaged);
  }

  lemma ShownTitle(sources: seq<Source>, wanted: bool, was: string, now: string, repaired: map<CheckedField, string>)
    requires Shows(sources, |sources|, TitleField, wanted, was, now, repaired)
    ensures TitleIs(sources, wanted, was, now, repaired)
  {
    OfferIff(sources, |sources|, was);
    forall i: nat | wanted && FirstForTitle(sources, i, was)
      ensures now == sources[i].answer.value.title.value && TitleField in repaired
              && repaired[TitleField] == sources[i].name
    {
      FirstOfferIs(sources, |sources|, i, TitleField, was);
      OffersIff(sources[i], TitleField, was);
    }
  }

  lemma ShownVenue(sources: seq<Source>, wanted: bool, was: string, now: string, repaired: map<CheckedField, string>)
    requires Shows(sources, |sources|, VenueField, wanted, was, now, repaired)
    ensures VenueIs(sources, wanted, Some(was), Some(now), repaired)
  {
    OfferIff(sources, |sources|, was);
    forall i: nat | wanted && FirstForVenue(sources, i, was)
      ensures Some(now) == sources[i].answer.value.venue && VenueField in repaired
              && repaired[VenueField] == sources[i].name
    {
      FirstOfferIs(sources, |sources|, i, VenueField, was);
      OffersIff(sources[i], VenueField, was);
    }
  }

  /** Exactly the damaged fields are left, in their order. */
  ghost predicate Remains(v: Values, remaining: seq<CheckedField>) {
    && (TitleField in remaining <==> HasLoss(v.title))
    && (AuthorsField in remaining <==> exists i :: 0 <= i < |v.authors| && HasLoss(v.authors[i]))
    && (VenueField in remaining <==> v.venue.Some? && HasLoss(v.venue.value))
    && (PublisherField in remaining <==> v.publisher.Some? && HasLoss(v.publisher.value))
    && (AbstractField in remaining <==> v.abstract_.Some? && HasLoss(v.abstract_.value))
    && InOrder(remaining)
  }

  function Place(f: CheckedField): nat {
    match f
    case TitleField => 0
    case AuthorsField => 1
    case VenueField => 2
    case PublisherField => 3
    case AbstractField => 4
  }

  predicate InOrder(fields: seq<CheckedField>) {
    forall i, j :: 0 <= i < j < |fields| ==> Place(fields[i]) < Place(fields[j])
  }

  lemma OneBefore(f: CheckedField, later: seq<CheckedField>)
    requires InOrder(later) && forall g: CheckedField :: g in later ==> Place(f) < Place(g)
    ensures InOrder([f] + later)
  {
  }

  lemma {:induction false} AmongIs(v: Values, fields: seq<CheckedField>)
    requires InOrder(fields)
    ensures forall f: CheckedField :: f in DamagedAmong(v, fields) <==> f in fields && Damaged(v, f)
    ensures InOrder(DamagedAmong(v, fields))
  {
    if fields != [] {
      var rest, later := fields[1..], DamagedAmong(v, fields[1..]);
      AmongIs(v, rest);
      OneBefore(fields[0], later);
      assert [] + later == later;
    }
  }

  lemma RemainsIs(v: Values)
    ensures Remains(v, DamagedAmong(v, CHECKED_FIELDS))
  {
    AmongIs(v, CHECKED_FIELDS);
    assert CHECKED_FIELDS[0] == TitleField && CHECKED_FIELDS[1] == AuthorsField && CHECKED_FIELDS[2] == VenueField;
    assert CHECKED_FIELDS[3] == PublisherField && CHECKED_FIELDS[4] == AbstractField;
  }

  /** The repair when the first `i` sources have been asked. */
  ghost predicate Stage(sources: seq<Source>, i: nat, hasDoi: bool, was: Values, now: Values,
                        repaired: map<CheckedField, string>)
    requires i <= |sources|
  {
    && now == was.(title := now.title, venue := now.venue) && now.venue.Some? == was.venue.Some?
    && Shows(sources, i, TitleField, hasDoi && HasLoss(was.title), was.title, now.title, repaired)
    && (was.venue.Some? ==>
          Shows(sources, i, VenueField, hasDoi && HasLoss(was.venue.value),
                was.venue.value, now.venue.value, repaired))
    && repaired.Keys <= {TitleField, VenueField} && (was.venue.None? ==> VenueField !in repaired)
  }

  /** What one source makes of both fields. */
  ghost predicate BothTried(s: Source, wantTitle: bool, wantVenue: bool,
                            now: Values, repaired: map<CheckedField, string>,
                            after: Values, report: map<CheckedField, string>)
  {
    && after == now.(title := after.title, venue := after.venue) && after.venue.Some? == now.venue.Some?
    && Tried(s, TitleField, wantTitle, now.title, repaired, after.title, report)
    && (now.venue.Some? ==>
          Tried(s, VenueField, wantVenue, now.venue.value, repaired, after.venue.value, report))
    && report.Keys <= repaired.Keys + {TitleField} + (if wantVenue then {VenueField} else {})
  }

  lemma StageNext(sources: seq<Source>, i: nat, hasDoi: bool, was: Values, now: Values,
                  repaired: map<CheckedField, string>, after: Values, report: map<CheckedField, string>)
    requires i < |sources| && Stage(sources, i, hasDoi, was, now, repaired)
    requires BothTried(sources[i], hasDoi && HasLoss(was.title), hasDoi && OptionHasLoss(was.venue),
                       now, repaired, after, report)
    ensures Stage(sources, i + 1, hasDoi, was, after, report)
  {
    ShowsNext(sources, i, TitleField, hasDoi && HasLoss(was.title), was.title, now.title, repaired,
              after.title, report);
    if was.venue.Some? {
      ShowsNext(sources, i, VenueField, hasDoi && HasLoss(was.venue.value), was.venue.value, now.venue.value, repaired,
                after.venue.value, report);
    }
  }

  /** A source that is passed over changes nothing. */
  lemma StagePasses(sources: seq<Source>, i: nat, hasDoi: bool, was: Values, now: Values,
                    repaired: map<CheckedField, string>)
    requires i < |sources| && Stage(sources, i, hasDoi, was, now, repaired) && !AskedAt(sources, i, was, hasDoi)
    ensures Stage(sources, i + 1, hasDoi, was, now, repaired)
  {
    AskIff(sources, i, hasDoi, was, now, repaired);
    StageNext(sources, i, hasDoi, was, now, repaired, now, repaired);
  }

  lemma AskIff(sources: seq<Source>, i: nat, hasDoi: bool, was: Values, now: Values,
               repaired: map<CheckedField, string>)
    requires i < |sources| && Stage(sources, i, hasDoi, was, now, repaired)
    ensures AskedAt(sources, i, was, hasDoi) <==>
            && sources[i].canServe
            && ((hasDoi && HasLoss(was.title) && TitleField !in repaired)
                || (hasDoi && OptionHasLoss(was.venue) && VenueField !in repaired))
  {
    OfferIff(sources, i, was.title);
    if was.venue.Some? {
      OfferIff(sources, i, was.venue.value);
    }
  }

  lemma StageEnds(sources: seq<Source>, hasDoi: bool, was: Values, now: Values, repaired: map<CheckedField, string>)
    requires Stage(sources, |sources|, hasDoi, was, now, repaired)
    ensures TitleIs(sources, hasDoi, was.title, now.title, repaired)
    ensures VenueIs(sources, hasDoi, was.venue, now.venue, repaired)
  {
    ShownTitle(sources, hasDoi && HasLoss(was.title), was.title, now.title, repaired);
    if was.venue.Some? {
      ShownVenue(sources, hasDoi && HasLoss(was.venue.value), was.venue.value, now.venue.value, repaired);
    }
  }

  class Metadata {
    var values: Values
    var hasDoi: bool
    var repairedFields: Option<map<CheckedField, string>>

    constructor (values: Values, hasDoi: bool, repairedFields: Option<map<CheckedField, string>>)
      ensures this.values == values && this.hasDoi == hasDoi && this.repairedFields == repairedFields
    {
      this.values, this.hasDoi, this.repairedFields := values, hasDoi, repairedFields;
    }

    /** Ask one source for one field that is still damaged. */
    method TryField(source: Source, f: CheckedField, current: string, repaired: map<CheckedField, string>)
      returns (value: string, report: map<CheckedField, string>)
      ensures if f !in repaired && Offers(source, f, current)
              then Some(value) == Offered(source, f) && report == repaired[f := source.name]
              else value == current && report == repaired
    {
      value, report := current, repaired;
      OffersIff(source, f, current);
      if f in repaired {
        return;
      }
      var found := Candidate(source, f);
      if found.Some? {
        var ok := Restores(current, found.value);
        if ok {
          value := found.value;
          report := repaired[f := source.name];
        }
      }
    }

    /** Ask one source for the fields that are wanted and not repaired yet. */
    method RepairFrom(s: Source, wantTitle: bool, wantVenue: bool, repaired: map<CheckedField, string>)
      returns (report: map<CheckedField, string>)
      requires wantVenue ==> values.venue.Some?
      modifies this`values
      ensures BothTried(s, wantTitle, wantVenue, old(values), repaired, values, report)
    {
      report := repaired;
      if wantTitle {
        var value;
        value, report := TryField(s, TitleField, values.title, report);
        values := values.(title := value);
      }
      if wantVenue {
        var value;
        value, report := TryField(s, VenueField, values.venue.value, report);
        values := values.(venue := Some(value));
      }
    }

    /** Title and venue take the value of the first source that restores them,
        and nothing else changes; the report says which source that was, and
        which fields are damaged still. A source is asked only if it serves the
        reference and a field is left to repair, so none is asked twice. */
    method RepairWith(sources: seq<Source>) returns (report: QualityReport, asked: seq<nat>)
      modifies this
      ensures TitleIs(sources, hasDoi, old(values).title, values.title, report.repaired)
      ensures VenueIs(sources, hasDoi, old(values).venue, values.venue, report.repaired)
      ensures values == old(values).(title := values.title, venue := values.venue)
      ensures report.repaired.Keys <= {TitleField, VenueField} && Remains(values, report.remaining)
      ensures hasDoi == old(hasDoi)
      ensures repairedFields == if old(repairedFields).Some? then Some(old(repairedFields).value + report.repaired)
                                else None
      ensures forall i, j :: 0 <= i < j < |asked| ==> asked[i] < asked[j]
      ensures forall i: nat :: i in asked <==> i < |sources| && AskedAt(sources, i, old(values), hasDoi)
    {
      ghost var was := values;
      var wantTitle, wantVenue := hasDoi && HasLoss(values.title), hasDoi && OptionHasLoss(values.venue);
      var repaired: map<CheckedField, string> := map[];
      asked := [];
      for i := 0 to |sources|
        invariant Stage(sources, i, hasDoi, was, values, repaired)
        invariant hasDoi == old(hasDoi) && repairedFields == old(repairedFields)
        invariant forall a, b :: 0 <= a < b < |asked| ==> asked[a] < asked[b]
        invariant forall a :: 0 <= a < |asked| ==> asked[a] < i
        invariant forall k: nat :: k in asked <==> k < i && AskedAt(sources, k, was, hasDoi)
      {
        var s := sources[i];
        ghost var now, before := values, repaired;
        AskIff(sources, i, hasDoi, was, now, before);
        if s.canServe && ((wantTitle && TitleField !in repaired) || (wantVenue && VenueField !in repaired)) {
          asked := asked + [i];
          repaired := RepairFrom(s, wantTitle, wantVenue, repaired);
          StageNext(sources, i, hasDoi, was, now, before, values, repaired);
        } else {
          StagePasses(sources, i, hasDoi, was, now, before);
        }
      }
      StageEnds(sources, hasDoi, was, values, repaired);
      RemainsIs(values);
      report := QualityReport(repaired, DamagedAmong(values, CHECKED_FIELDS));
      if repairedFields.Some? {
        repairedFields := Some(repairedFields.value + repaired);
      }
    }
  }
}
