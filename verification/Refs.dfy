/**
 DOIs and arXiv ids: what the validators accept, and how an input is told to
 be one or the other.
 */
module Refs {
  import opened Wrappers
  import opened Strings

  datatype Ref = Doi(id: string) | Arxiv(id: string)

  datatype RefParseError =
    | Empty
    | MissingDoiPrefix
    | MissingDoiSuffixSeparator
    | InvalidDoiRegistrant
    | EmptyDoiSuffix
    | DoiSuffixTooLong(len: nat, max: nat)
    | InvalidDoiSuffixChar(ch: char)
    | InvalidArxivShape
    | UnrecognisedShape

  const DOI_SUFFIX_MAX_LEN := 256

  // ---- The grammar the documentation states ----

  predicate DoiSuffix(s: string) {
    forall i :: 0 <= i < |s| ==>
      || 'A' <= s[i] <= 'Z' || 'a' <= s[i] <= 'z' || '0' <= s[i] <= '9'
      || s[i] == '.' || s[i] == '_' || s[i] == '/' || s[i] == '(' || s[i] == ')' || s[i] == '-' || s[i] == ':'
  }

  predicate DoiParts(s: string, registrant: string, suffix: string) {
    && s == "10." + registrant + "/" + suffix
    && 4 <= |registrant| <= 9 && Digits(registrant)
    && 0 < |suffix| <= 256 && DoiSuffix(suffix)
  }

  ghost predicate DoiShape(s: string) {
    exists registrant, suffix :: DoiParts(s, registrant, suffix)
  }

  /** Nothing, or `v` and at least one digit. */
  predicate Version(s: string) {
    s == "" || (|s| >= 2 && s[0] == 'v' && Digits(s[1..]))
  }

  predicate NewParts(s: string, date: string, number: string, version: string) {
    && s == date + "." + number + version
    && |date| == 4 && Digits(date) && 4 <= |number| <= 5 && Digits(number) && Version(version)
  }

  /** Lower-case words joined by hyphens. */
  predicate HyphenatedWords(s: string) {
    && s != "" && s[0] != '-' && s[|s| - 1] != '-'
    && forall i :: 0 <= i < |s| ==> 'a' <= s[i] <= 'z' || s[i] == '-'
  }

  /** Nothing, or a dot and two capitals. */
  predicate DottedCapitals(s: string) {
    s == "" || (|s| == 3 && s[0] == '.' && 'A' <= s[1] <= 'Z' && 'A' <= s[2] <= 'Z')
  }

  predicate OldParts(s: string, archive: string, group: string, number: string, version: string) {
    && s == archive + group + "/" + number + version
    && HyphenatedWords(archive) && DottedCapitals(group) && |number| == 7 && Digits(number) && Version(version)
  }

  ghost predicate ArxivShape(s: string) {
    || (exists date, number, version :: NewParts(s, date, number, version))
    || (exists archive, group, number, version :: OldParts(s, archive, group, number, version))
  }

  // ---- What the validators compute ----

  predicate IsDoiSuffixChar(c: char) {
    IsAlpha(c) || IsDigit(c) || c in "._/()-:"
  }

  predicate LowerOrHyphen(s: string) {
    forall i :: 0 <= i < |s| ==> IsLower(s[i]) || s[i] == '-'
  }

  /** A subject class: lower-case words joined by hyphens. */
  predicate Archive(s: string) {
    s != "" && LowerOrHyphen(s) && s[0] != '-' && s[|s| - 1] != '-'
  }

  predicate Group(s: string) {
    s == "" || (|s| == 3 && s[0] == '.' && IsUpper(s[1]) && IsUpper(s[2]))
  }

  function FirstBadChar(s: string): (bad: Option<char>)
    ensures bad.None? <==> DoiSuffix(s)
  {
    if s == "" then None
    else if !IsDoiSuffixChar(s[0]) then Some(s[0])
    else
      assert s == [s[0]] + s[1..];
      FirstBadChar(s[1..])
  }

  function ValidateSuffix(suffix: string): Option<RefParseError> {
    if suffix == "" then Some(EmptyDoiSuffix)
    else if ByteLen(suffix) > DOI_SUFFIX_MAX_LEN then
      Some(DoiSuffixTooLong(ByteLen(suffix), DOI_SUFFIX_MAX_LEN))
    else match FirstBadChar(suffix)
         case Some(c) => Some(InvalidDoiSuffixChar(c))
         case None => None
  }

  /** What follows the "10.": the registrant up to the first slash, then the suffix. */
  function ValidateAfterPrefix(rest: string): Option<RefParseError> {
    var slash := IndexFrom(rest, 0, '/');
    if slash == |rest| then Some(MissingDoiSuffixSeparator)
    else
      var registrant, suffix := rest[..slash], rest[slash + 1..];
      if !(4 <= |registrant| <= 9) || !Digits(registrant) then Some(InvalidDoiRegistrant)
      else ValidateSuffix(suffix)
  }

  function ValidateDoi(s: string): Option<RefParseError> {
    if s == "" then Some(Empty)
    else if !StartsWith(s, "10.") then Some(MissingDoiPrefix)
    else ValidateAfterPrefix(s[3..])
  }

  /** From `i` on, nothing or a version. */
  predicate EndsInVersion(s: string, i: nat)
    requires i <= |s|
  {
    i == |s| || (s[i] == 'v' && i + 1 < |s| && DigitsEnd(s, i + 1) == |s|)
  }

  predicate IsNewStyle(s: string) {
    var dot := IndexFrom(s, 0, '.');
    dot == 4 && dot < |s| && Digits(s[..4]) &&
    var end := DigitsEnd(s, 5);
    4 <= end - 5 <= 5 && EndsInVersion(s, end)
  }

  predicate IsOldStyle(s: string) {
    var slash := IndexFrom(s, 0, '/');
    slash < |s| &&
    var dot := IndexFrom(s[..slash], 0, '.');
    Archive(s[..dot]) && Group(s[dot..slash]) &&
    var end := DigitsEnd(s, slash + 1);
    end - (slash + 1) == 7 && EndsInVersion(s, end)
  }

  method ScanVersion(s: string, from: nat) returns (ok: bool)
    requires from <= |s|
    ensures ok == EndsInVersion(s, from)
  {
    if from == |s| {
      return true;
    }
    if s[from] != 'v' {
      return false;
    }
    var i := from + 1;
    while i < |s| && IsDigit(s[i])
      invariant from < i <= |s| && DigitsEnd(s, i) == DigitsEnd(s, from + 1)
    {
      i := i + 1;
    }
    return i != from + 1 && i == |s|;
  }

  method ScanDigits(s: string, from: nat) returns (i: nat)
    requires from <= |s|
    ensures i == DigitsEnd(s, from)
  {
    i := from;
    while i < |s| && IsDigit(s[i])
      invariant from <= i <= |s| && DigitsEnd(s, i) == DigitsEnd(s, from)
    {
      i := i + 1;
    }
  }

  method ValidateArxivNew(s: string) returns (ok: bool)
    ensures ok <==> IsNewStyle(s)
  {
    var dot := IndexFrom(s, 0, '.');
    if dot == |s| || dot != 4 || !Digits(s[..4]) {
      return false;
    }
    var end := ScanDigits(s, 5);
    if !(4 <= end - 5 <= 5) {
      return false;
    }
    ok := ScanVersion(s, end);
  }

  method ValidateArxivOld(s: string) returns (ok: bool)
    ensures ok <==> IsOldStyle(s)
  {
    var slash := IndexFrom(s, 0, '/');
    if slash == |s| {
      return false;
    }
    var dot := IndexFrom(s[..slash], 0, '.');
    if !Archive(s[..dot]) || !Group(s[dot..slash]) {
      return false;
    }
    var end := ScanDigits(s, slash + 1);
    if end - (slash + 1) != 7 {
      return false;
    }
    ok := ScanVersion(s, end);
  }

  predicate HasScheme(s: string, scheme: string) {
    |scheme| <= |s| && Lowered(s[..|scheme|]) == scheme
  }

  function ParseDoi(s: string): Result<Ref, RefParseError> {
    var id := if HasScheme(s, "doi:") then s[4..] else s;
    match ValidateDoi(id)
    case Some(e) => Err(e)
    case None => Ok(Doi(id))
  }

  function ParseArxiv(s: string): Result<Ref, RefParseError> {
    var id := if HasScheme(s, "arxiv:") then s[6..] else s;
    if id == "" then Err(Empty)
    else if IsNewStyle(id) || IsOldStyle(id) then Ok(Arxiv(id))
    else Err(InvalidArxivShape)
  }

  function ParseRef(s: string): Result<Ref, RefParseError> {
    if s == "" then Err(Empty)
    else if HasScheme(s, "doi:") then ParseDoi(s)
    else if HasScheme(s, "arxiv:") then ParseArxiv(s)
    else if StartsWith(s, "10.") then ParseDoi(s)
    else match ParseArxiv(s)
         case Ok(r) => Ok(r)
         case Err(_) => Err(UnrecognisedShape)
  }

  // ---- The validators accept exactly the grammar ----

  lemma {:induction false} DigitsEndUnique(s: string, i: nat, k: nat)
    requires i <= k <= |s| && Digits(s[i..k]) && (k < |s| ==> !IsDigit(s[k]))
    ensures DigitsEnd(s, i) == k
    decreases k - i
  {
    if i < k {
      assert s[i..k][0] == s[i] && s[i..k][1..] == s[i + 1..k];
      DigitsEndUnique(s, i + 1, k);
    }
  }

  lemma VersionIff(s: string, i: nat)
    requires i <= |s|
    ensures EndsInVersion(s, i) <==> Version(s[i..])
  {
    var tail := s[i..];
    assert |tail| == |s| - i;
    if i + 1 < |s| {
      var digits := tail[1..];
      assert tail[0] == s[i] && digits == s[i + 1..|s|];
      if Digits(digits) {
        DigitsEndUnique(s, i + 1, |s|);
      }
      assert DigitsEnd(s, i + 1) == |s| ==> Digits(digits);
    }
  }

  lemma DoiPartsValidate(s: string, registrant: string, suffix: string)
    requires DoiParts(s, registrant, suffix)
    ensures ValidateDoi(s).None?
  {
    var rest := registrant + "/" + suffix;
    assert s == "10." + rest;
    assert s[..3] == "10." && s[3..] == rest;
    SuffixValidates(suffix);
    SplitsAtSlash(rest, registrant, suffix);
    assert ValidateAfterPrefix(rest).None?;
  }

  lemma SuffixValidates(suffix: string)
    ensures ValidateSuffix(suffix).None? <==> 0 < |suffix| <= DOI_SUFFIX_MAX_LEN && DoiSuffix(suffix)
  {
    if DoiSuffix(suffix) {
      AsciiByteLen(suffix);
    }
  }

  lemma SplitsAtSlash(rest: string, registrant: string, suffix: string)
    requires rest == registrant + "/" + suffix && Digits(registrant)
    ensures var n := IndexFrom(rest, 0, '/');
            n < |rest| && rest[..n] == registrant && rest[n + 1..] == suffix
  {
    var n := |registrant|;
    assert rest[n] == '/' && rest[..n] == registrant && rest[n + 1..] == suffix;
    assert forall j :: 0 <= j < n ==> rest[j] == registrant[j];
    assert IndexFrom(rest, 0, '/') == n;
  }

  lemma DoiIff(s: string)
    ensures ValidateDoi(s).None? <==> DoiShape(s)
  {
    if ValidateDoi(s).None? {
      var rest := s[3..];
      var slash := IndexFrom(rest, 0, '/');
      SuffixValidates(rest[slash + 1..]);
      assert rest == rest[..slash] + "/" + rest[slash + 1..];
      assert s == "10." + rest[..slash] + "/" + rest[slash + 1..];
      assert DoiParts(s, rest[..slash], rest[slash + 1..]);
    }
    if registrant, suffix :| DoiParts(s, registrant, suffix) {
      DoiPartsValidate(s, registrant, suffix);
    }
  }

  lemma NewStyleIff(s: string)
    ensures IsNewStyle(s) <==> exists date, number, version :: NewParts(s, date, number, version)
  {
    if IsNewStyle(s) {
      var end := DigitsEnd(s, 5);
      VersionIff(s, end);
      assert s == s[..4] + "." + s[5..end] + s[end..];
      assert NewParts(s, s[..4], s[5..end], s[end..]);
    }
    if date, number, version :| NewParts(s, date, number, version) {
      assert s[4] == '.' && s[..4] == date;
      assert forall i :: 0 <= i < 4 ==> IsDigit(date[i]) && s[i] == date[i];
      var end := 5 + |number|;
      assert s[5..end] == number && s[end..] == version;
      assert version != "" ==> s[end] == version[0] == 'v';
      DigitsEndUnique(s, 5, end);
      VersionIff(s, end);
    }
  }

  lemma OldStyleIff(s: string)
    ensures IsOldStyle(s) <==>
            exists archive, group, number, version :: OldParts(s, archive, group, number, version)
  {
    if IsOldStyle(s) {
      var slash := IndexFrom(s, 0, '/');
      var dot := IndexFrom(s[..slash], 0, '.');
      var end := DigitsEnd(s, slash + 1);
      VersionIff(s, end);
      assert s[..slash][..dot] == s[..dot] && s[..slash][dot..] == s[dot..slash];
      assert s == s[..slash] + "/" + s[slash + 1..end] + s[end..];
      assert s[..dot] + s[dot..slash] == s[..slash];
      assert OldParts(s, s[..dot], s[dot..slash], s[slash + 1..end], s[end..]);
    }
    if archive, group, number, version :| OldParts(s, archive, group, number, version) {
      OldPartsAreOldStyle(s, archive, group, number, version);
    }
  }

  lemma OldPartsAreOldStyle(s: string, archive: string, group: string, number: string, version: string)
    requires OldParts(s, archive, group, number, version)
    ensures IsOldStyle(s)
  {
    var class_ := archive + group;
    var slash := |class_|;
    var end := slash + 8;
    assert s[..slash] == class_ && s[slash] == '/';
    assert s[slash + 1..end] == number && s[end..] == version;
    forall j | 0 <= j < slash ensures s[j] != '/' {
      assert s[j] == class_[j];
    }
    assert IndexFrom(s, 0, '/') == slash;
    forall j | 0 <= j < |archive| ensures class_[j] != '.' {
      assert class_[j] == archive[j];
    }
    assert group != "" ==> class_[|archive|] == group[0] == '.';
    assert IndexFrom(class_, 0, '.') == |archive|;
    assert s[..|archive|] == archive && s[|archive|..slash] == group;
    assert version != "" ==> s[end] == version[0] == 'v';
    DigitsEndUnique(s, slash + 1, end);
    VersionIff(s, end);
  }

  /** A reference that parses is bare and well-formed, of the kind it says. */
  ghost predicate ValidRef(r: Ref) {
    match r
    case Doi(id) => DoiShape(id)
    case Arxiv(id) => ArxivShape(id)
  }

  lemma ParsedIsValid(s: string)
    requires ParseRef(s).Ok?
    ensures ValidRef(ParseRef(s).value)
  {
    var r := ParseRef(s).value;
    DoiIff(r.id);
    NewStyleIff(r.id);
    OldStyleIff(r.id);
  }

  lemma SchemeEnds(s: string, scheme: string)
    requires HasScheme(s, scheme) && scheme != ""
    ensures ToLower(s[0]) == scheme[0] && ToLower(s[|scheme| - 1]) == scheme[|scheme| - 1]
  {
    var head := s[..|scheme|];
    assert Lowered(head)[0] == ToLower(head[0]);
    assert Lowered(head)[|scheme| - 1] == ToLower(head[|scheme| - 1]);
  }

  lemma BareIdHasNoScheme(r: Ref)
    requires ValidRef(r)
    ensures !HasScheme(r.id, "doi:") && !HasScheme(r.id, "arxiv:")
  {
    TenMeansDoi(r);
    if r.Arxiv? {
      ArxivChars(r.id);
    } else {
      assert r.id[..3][0] == "10."[0];
    }
    if HasScheme(r.id, "doi:") {
      SchemeEnds(r.id, "doi:");
    }
    if HasScheme(r.id, "arxiv:") {
      SchemeEnds(r.id, "arxiv:");
    }
  }

  /** ... and parsing its bare id again gives it back. */
  lemma BareIdParsesBack(r: Ref)
    requires ValidRef(r)
    ensures ParseRef(r.id) == Ok(r)
  {
    TenMeansDoi(r);
    BareIdHasNoScheme(r);
    if r.Doi? {
      DoiIff(r.id);
    } else {
      NewStyleIff(r.id);
      OldStyleIff(r.id);
      assert r.id != "";
    }
  }

  /** The id behind its scheme, in any case. */
  ghost predicate Behind(s: string, scheme: string, id: string) {
    |s| == |scheme| + |id| && SameLetters(s[..|scheme|], scheme) && s[|scheme|..] == id
  }

  function SchemeOf(r: Ref): string {
    if r.Doi? then "doi:" else "arxiv:"
  }

  lemma HasSchemeIff(s: string, scheme: string)
    requires scheme == "doi:" || scheme == "arxiv:"
    ensures HasScheme(s, scheme) <==> |scheme| <= |s| && SameLetters(s[..|scheme|], scheme)
  {
    assert Lowered("doi:") == "doi:" && Lowered("arxiv:") == "arxiv:";
    if |scheme| <= |s| {
      LoweredIff(s[..|scheme|], scheme);
    }
  }

  lemma OneScheme(s: string)
    requires HasScheme(s, "arxiv:")
    ensures !HasScheme(s, "doi:")
  {
    SchemeEnds(s, "arxiv:");
    if HasScheme(s, "doi:") {
      SchemeEnds(s, "doi:");
    }
  }

  /** The inputs that are a reference: its bare id, and the id behind its scheme. */
  lemma ParseRefIff(s: string, r: Ref)
    ensures ParseRef(s) == Ok(r) <==> ValidRef(r) && (s == r.id || Behind(s, SchemeOf(r), r.id))
  {
    HasSchemeIff(s, "doi:");
    HasSchemeIff(s, "arxiv:");
    if ParseRef(s) == Ok(r) {
      ParsedIsValid(s);
    }
    if ValidRef(r) && s == r.id {
      BareIdParsesBack(r);
    }
    if ValidRef(r) && Behind(s, SchemeOf(r), r.id) {
      if r.Arxiv? {
        OneScheme(s);
      }
      DoiIff(r.id);
      NewStyleIff(r.id);
      OldStyleIff(r.id);
    }
  }

  /** Where the parts of a DOI that is refused begin and end. */
  ghost predicate DoiCut(s: string, registrant: string, suffix: string) {
    s == "10." + registrant + "/" + suffix && '/' !in registrant
  }

  ghost predicate RegistrantShape(registrant: string) {
    4 <= |registrant| <= 9 && Digits(registrant)
  }

  /** Why an id is refused as a DOI: the first of these faults. */
  ghost predicate DoiFault(s: string, e: RefParseError) {
    match e
    case Empty => s == ""
    case MissingDoiPrefix => s != "" && (|s| < 3 || s[..3] != "10.")
    case MissingDoiSuffixSeparator => |s| >= 3 && s[..3] == "10." && '/' !in s
    case InvalidDoiRegistrant =>
      exists registrant, suffix :: DoiCut(s, registrant, suffix) && !RegistrantShape(registrant)
    case EmptyDoiSuffix =>
      exists registrant :: DoiCut(s, registrant, "") && RegistrantShape(registrant)
    case DoiSuffixTooLong(len, max) =>
      max == 256 && exists registrant, suffix :: DoiCut(s, registrant, suffix) && RegistrantShape(registrant)
                                                 && len == ByteLen(suffix) > 256
    case InvalidDoiSuffixChar(c) =>
      exists registrant, suffix, i ::
        DoiCut(s, registrant, suffix) && RegistrantShape(registrant) && ByteLen(suffix) <= 256
        && 0 <= i < |suffix| && suffix[i] == c && !DoiSuffix([c]) && DoiSuffix(suffix[..i])
    case InvalidArxivShape => false
    case UnrecognisedShape => false
  }

  lemma {:induction false} FirstBadIs(s: string) returns (i: nat)
    requires FirstBadChar(s).Some?
    ensures i < |s| && s[i] == FirstBadChar(s).value && !DoiSuffix([s[i]]) && DoiSuffix(s[..i])
  {
    if !IsDoiSuffixChar(s[0]) {
      i := 0;
      assert [s[0]][0] == s[0];
    } else {
      var j := FirstBadIs(s[1..]);
      i := j + 1;
      assert s[..i] == [s[0]] + s[1..][..j];
    }
  }

  lemma DoiErrors(s: string)
    requires ValidateDoi(s).Some?
    ensures DoiFault(s, ValidateDoi(s).value)
  {
    if |s| >= 3 && s[..3] == "10." {
      var rest := s[3..];
      var slash := IndexFrom(rest, 0, '/');
      if slash == |rest| {
        assert s == "10." + rest;
      } else {
        var registrant, suffix := rest[..slash], rest[slash + 1..];
        assert s == "10." + registrant + "/" + suffix;
        assert DoiCut(s, registrant, suffix);
        if RegistrantShape(registrant) && 0 < ByteLen(suffix) <= 256 {
          var i := FirstBadIs(suffix);
        }
      }
    }
  }

  /** What is reported of an input that is no reference. */
  lemma ParseErrors(s: string)
    requires ParseRef(s).Err?
    ensures var e := ParseRef(s).error;
            if s == "" then e == Empty
            else if |s| >= 4 && SameLetters(s[..4], "doi:") then DoiFault(s[4..], e)
            else if |s| >= 6 && SameLetters(s[..6], "arxiv:") then e == if |s| == 6 then Empty else InvalidArxivShape
            else if |s| >= 3 && s[..3] == "10." then DoiFault(s, e)
            else e == UnrecognisedShape
  {
    HasSchemeIff(s, "doi:");
    HasSchemeIff(s, "arxiv:");
    if HasScheme(s, "doi:") {
      DoiErrors(s[4..]);
    } else if !HasScheme(s, "arxiv:") && StartsWith(s, "10.") {
      DoiErrors(s);
    }
  }

  predicate IsArxivChar(c: char) {
    IsAlpha(c) || IsDigit(c) || c in ".-/"
  }

  lemma ArxivChars(s: string)
    requires ArxivShape(s)
    ensures forall i :: 0 <= i < |s| ==> IsArxivChar(s[i])
  {
    if date, number, version :| NewParts(s, date, number, version) {
      VersionChars(version);
      assert s == date + "." + number + version;
    } else {
      var archive, group, number, version :| OldParts(s, archive, group, number, version);
      VersionChars(version);
      assert s == archive + group + "/" + number + version;
    }
  }

  lemma VersionChars(s: string)
    requires Version(s)
    ensures forall i :: 0 <= i < |s| ==> IsDigit(s[i]) || s[i] == 'v'
  {
    if s != "" {
      assert s == [s[0]] + s[1..];
    }
  }

  /** The prefix rule that migration applies to a logged id: a valid reference
      starts with "10." exactly when it is a DOI. */
  lemma TenMeansDoi(r: Ref)
    requires ValidRef(r)
    ensures StartsWith(r.id, "10.") <==> r.Doi?
  {
    match r {
      case Doi(id) =>
        var registrant, suffix :| DoiParts(id, registrant, suffix);
        assert id == "10." + (registrant + "/" + suffix);
      case Arxiv(id) =>
        if date, number, version :| NewParts(id, date, number, version) {
          assert id[2] == date[2] && IsDigit(date[2]);
        } else {
          var archive, group, number, version :| OldParts(id, archive, group, number, version);
          assert id[0] == archive[0];
        }
    }
  }
}
