/**
 The audit identity of a fetch: four fields, hashed with a NUL between them.

 Strings stand for their UTF-8 bytes, where a zero byte is a NUL character and
 nothing else; `sha` is SHA-256 in hex.
 */
module Canonical {
  import opened Wrappers
  import opened Strings
  import opened Refs

  datatype SourceType = DoiSource | ArxivSource

  datatype CanonicalRef = CanonicalRef(
    sourceType: SourceType,
    sourceId: string,
    resolverProfile: string,
    version: Option<string>)

  const NUL := "\0"

  function WireStr(t: SourceType): string {
    match t
    case DoiSource => "doi"
    case ArxivSource => "arxiv"
  }

  function VersionText(c: CanonicalRef): string {
    if c.version.Some? then c.version.value else ""
  }

  /** The bytes that are hashed. */
  function Preimage(c: CanonicalRef): string {
    WireStr(c.sourceType) + NUL + c.sourceId + NUL + c.resolverProfile + NUL + VersionText(c)
  }

  function Promote(r: Ref, profile: string, version: Option<string>): CanonicalRef {
    CanonicalRef(if r.Doi? then DoiSource else ArxivSource, r.id, profile, version)
  }

  /** A hasher holds what it was fed. */
  class Hasher {
    var fed: string

    constructor ()
      ensures fed == ""
    {
      fed := "";
    }

    method Update(bytes: string)
      modifies this
      ensures fed == old(fed) + bytes
    {
      fed := fed + bytes;
    }
  }

  method Digest(c: CanonicalRef, sha: string -> string) returns (hex: string)
    ensures hex == sha((if c.sourceType.DoiSource? then "doi" else "arxiv") + "\0" + c.sourceId + "\0"
                       + c.resolverProfile + "\0" + if c.version.Some? then c.version.value else "")
    ensures hex == sha(Preimage(c))
  {
    var hasher := new Hasher();
    hasher.Update(WireStr(c.sourceType));
    hasher.Update(NUL);
    hasher.Update(c.sourceId);
    hasher.Update(NUL);
    hasher.Update(c.resolverProfile);
    hasher.Update(NUL);
    if c.version.Some? {
      hasher.Update(c.version.value);
    }
    assert Preimage(c) == hasher.fed;
    return sha(hasher.fed);
  }

  predicate NulFree(s: string) {
    forall i :: 0 <= i < |s| ==> s[i] != '\0'
  }

  lemma SplitAtNul(a: string, x: string, b: string, y: string)
    requires NulFree(a) && NulFree(b) && a + NUL + x == b + NUL + y
    ensures a == b && x == y
  {
    var s, t := a + NUL + x, b + NUL + y;
    assert s[|a|] == '\0' && t[|b|] == '\0';
    assert a == s[..|a|] && b == t[..|b|];
    assert x == s[|a| + 1..] && y == t[|b| + 1..];
  }

  /** Without a NUL in the id or the profile, two identities hash the same
      bytes exactly when they agree in all four fields, an absent version
      counting as the empty one. */
  lemma PreimageInjective(a: CanonicalRef, b: CanonicalRef)
    requires NulFree(a.sourceId) && NulFree(a.resolverProfile)
    requires NulFree(b.sourceId) && NulFree(b.resolverProfile)
    ensures Preimage(a) == Preimage(b) <==>
            && a.sourceType == b.sourceType && a.sourceId == b.sourceId
            && a.resolverProfile == b.resolverProfile && VersionText(a) == VersionText(b)
  {
    if Preimage(a) == Preimage(b) {
      SplitFour(WireStr(a.sourceType), a.sourceId, a.resolverProfile, VersionText(a),
                WireStr(b.sourceType), b.sourceId, b.resolverProfile, VersionText(b));
      assert |WireStr(DoiSource)| != |WireStr(ArxivSource)|;
    }
  }

  lemma SplitFour(t: string, i: string, p: string, v: string, u: string, j: string, q: string, w: string)
    requires NulFree(t) && NulFree(i) && NulFree(p) && NulFree(u) && NulFree(j) && NulFree(q)
    requires t + NUL + i + NUL + p + NUL + v == u + NUL + j + NUL + q + NUL + w
    ensures t == u && i == j && p == q && v == w
  {
    var a1, b1 := p + NUL + v, q + NUL + w;
    var a2, b2 := i + NUL + a1, j + NUL + b1;
    assert t + NUL + a2 == t + NUL + i + NUL + p + NUL + v;
    assert u + NUL + b2 == u + NUL + j + NUL + q + NUL + w;
    SplitAtNul(t, a2, u, b2);
    SplitAtNul(i, a1, j, b1);
    SplitAtNul(p, v, q, w);
  }

  /** A NUL in the profile moves freely into the version. */
  lemma NulInProfileCollides(t: SourceType, id: string, p: string, q: string, v: string)
    ensures Preimage(CanonicalRef(t, id, p + NUL + q, Some(v)))
         == Preimage(CanonicalRef(t, id, p, Some(q + NUL + v)))
  {
    var head := WireStr(t) + NUL + id + NUL;
    assert head + (p + NUL + q) + NUL + v == head + p + NUL + (q + NUL + v);
  }

  lemma ValidRefIsNulFree(r: Ref)
    requires ValidRef(r)
    ensures NulFree(r.id)
  {
    if r.Arxiv? {
      ArxivChars(r.id);
    } else {
      var registrant, suffix :| DoiParts(r.id, registrant, suffix);
      assert r.id == "10." + registrant + "/" + suffix;
    }
  }

  /** Two parsed references hash the same bytes exactly when they are the same
      reference under the same profile and version. */
  lemma ParsedIdentity(s: string, t: string, p: string, q: string, v: Option<string>, w: Option<string>)
    requires ParseRef(s).Ok? && ParseRef(t).Ok? && NulFree(p) && NulFree(q)
    ensures Preimage(Promote(ParseRef(s).value, p, v)) == Preimage(Promote(ParseRef(t).value, q, w)) <==>
            && ParseRef(s).value == ParseRef(t).value && p == q
            && VersionText(Promote(ParseRef(s).value, p, v)) == VersionText(Promote(ParseRef(t).value, q, w))
  {
    ParsedIsValid(s);
    ParsedIsValid(t);
    ValidRefIsNulFree(ParseRef(s).value);
    ValidRefIsNulFree(ParseRef(t).value);
    PreimageInjective(Promote(ParseRef(s).value, p, v), Promote(ParseRef(t).value, q, w));
  }

  /** The identity that migration gives a logged id it cannot parse again. */
  function LoggedRef(id: string, source: Option<string>): CanonicalRef {
    CanonicalRef(if StartsWith(id, "10.") then DoiSource else ArxivSource, id,
                 if source.Some? then source.value else "", None)
  }

  /** For every reference that ever parsed it is the one the fetch had. */
  lemma LoggedRefAgrees(s: string, source: string)
    requires ParseRef(s).Ok?
    ensures LoggedRef(ParseRef(s).value.id, Some(source)) == Promote(ParseRef(s).value, source, None)
  {
    ParsedIsValid(s);
    TenMeansDoi(ParseRef(s).value);
  }
}
