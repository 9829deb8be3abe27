/** Version identification: an exact pass over the catalog, then a
    closest-match pass by score. */
module Identification {
  import opened Wrappers
  import opened Records
  import opened Matching

  /** The outcome of identification: a catalog version label, or the
      inconclusive marker. */
  datatype Identification = Identified(version: string) | Unknown

  /** `i` is the first position in catalog order whose version the files match exactly. */
  ghost predicate IsFirstExact(h: Hasher, files: seq<File>, vs: seq<VersionDefinition>, i: int)
  {
    && 0 <= i < |vs|
    && FilesMatchVersion(h, files, vs[i])
    && forall k :: 0 <= k < i ==> !FilesMatchVersion(h, files, vs[k])
  }

  /** No version of the catalog is an exact match. */
  ghost predicate NoExactMatch(h: Hasher, files: seq<File>, vs: seq<VersionDefinition>)
  {
    forall k :: 0 <= k < |vs| ==> !FilesMatchVersion(h, files, vs[k])
  }

  /** `i` is the closest match: a positive score, strictly above every
      earlier version and at least every later one (the first of the
      highest scorers). */
  ghost predicate IsClosest(h: Hasher, files: seq<File>, vs: seq<VersionDefinition>, i: int)
  {
    && 0 <= i < |vs|
    && Score(h, files, vs[i]) > 0
    && (forall k :: 0 <= k < i ==> Score(h, files, vs[k]) < Score(h, files, vs[i]))
    && (forall k :: i < k < |vs| ==> Score(h, files, vs[k]) <= Score(h, files, vs[i]))
  }

  /** No fetched file matches any signature of any version. */
  ghost predicate NoEvidence(h: Hasher, files: seq<File>, vs: seq<VersionDefinition>)
  {
    forall k :: 0 <= k < |vs| ==> Score(h, files, vs[k]) == 0
  }

  /** The exact pass from position `from` on: the first exact match, if any. */
  function FirstExact(h: Hasher, files: seq<File>, vs: seq<VersionDefinition>, from: nat): (r: Option<nat>)
    requires from <= |vs|
    ensures r.Some? ==> from <= r.value < |vs| && FilesMatchVersion(h, files, vs[r.value])
    ensures r.Some? ==> forall k :: from <= k < r.value ==> !FilesMatchVersion(h, files, vs[k])
    ensures r.None? ==> forall k :: from <= k < |vs| ==> !FilesMatchVersion(h, files, vs[k])
    decreases |vs| - from
  {
    if from == |vs| then None
    else if FilesMatchVersion(h, files, vs[from]) then Some(from)
    else FirstExact(h, files, vs, from + 1)
  }

  /** The closest-match scores of the catalog's versions, in catalog order. */
  function Scores(h: Hasher, files: seq<File>, vs: seq<VersionDefinition>): (scores: seq<nat>)
    ensures |scores| == |vs|
    ensures forall k :: 0 <= k < |vs| ==> scores[k] == Score(h, files, vs[k])
  {
    seq(|vs|, k requires 0 <= k < |vs| => Score(h, files, vs[k]))
  }

  /** The closest-match pass over the first `n` scores: scanning in
      catalog order and replacing the best so far only on a strictly
      higher score, starting from score zero. */
  function BestAmong(scores: seq<nat>, n: nat): (r: Option<nat>)
    requires n <= |scores|
    ensures r.None? <==> forall k :: 0 <= k < n ==> scores[k] == 0
    ensures r.Some? ==> r.value < n && scores[r.value] > 0
    ensures r.Some? ==> forall k :: 0 <= k < r.value ==> scores[k] < scores[r.value]
    ensures r.Some? ==> forall k :: r.value < k < n ==> scores[k] <= scores[r.value]
  {
    if n == 0 then None
    else
      var prev := BestAmong(scores, n - 1);
      var best := if prev.None? then 0 else scores[prev.value];
      if scores[n - 1] > best then Some(n - 1) else prev
  }

  /** Identify the version of the target from the files fetched from it:
      the first exact match in catalog order; failing that, the closest
      match; failing that (no file matches any signature), Unknown. */
  function IdentifyVersion(h: Hasher, catalog: VersionList, files: seq<File>): (r: Identification)
    ensures forall i :: IsFirstExact(h, files, catalog.versions, i) ==> r == Identified(catalog.versions[i].version)
    ensures NoExactMatch(h, files, catalog.versions) ==>
              forall i :: IsClosest(h, files, catalog.versions, i) ==> r == Identified(catalog.versions[i].version)
    ensures r == Unknown <==> NoExactMatch(h, files, catalog.versions) && NoEvidence(h, files, catalog.versions)
    ensures r.Identified? ==> exists i :: 0 <= i < |catalog.versions| && catalog.versions[i].version == r.version
  {
    var vs := catalog.versions;
    match FirstExact(h, files, vs, 0)
    case Some(i) => Identified(vs[i].version)
    case None =>
      match BestAmong(Scores(h, files, vs), |vs|)
      case Some(j) => Identified(vs[j].version)
      case None => Unknown
  }

  /** Identification depends on the fetched files only as a set: the order
      in which fetches complete, and duplicate responses, do not change
      the result. */
  lemma IdentifyDependsOnlyOnFileSet(h: Hasher, catalog: VersionList, files1: seq<File>, files2: seq<File>)
    requires forall f :: f in files1 <==> f in files2
    ensures IdentifyVersion(h, catalog, files1) == IdentifyVersion(h, catalog, files2)
  {
    var vs := catalog.versions;
    forall k | 0 <= k < |vs|
      ensures Score(h, files1, vs[k]) == Score(h, files2, vs[k])
      ensures FilesMatchVersion(h, files1, vs[k]) == FilesMatchVersion(h, files2, vs[k])
    {
      MatchingDependsOnlyOnFileSet(h, files1, files2, vs[k]);
    }
    FirstExactAgrees(h, files1, files2, vs, 0);
    assert Scores(h, files1, vs) == Scores(h, files2, vs);
  }

  /** Two file collections that agree on which versions they match exactly
      give the same exact pass. */
  lemma {:induction false} FirstExactAgrees(h: Hasher, files1: seq<File>, files2: seq<File>, vs: seq<VersionDefinition>, from: nat)
    requires from <= |vs|
    requires forall k :: 0 <= k < |vs| ==> FilesMatchVersion(h, files1, vs[k]) == FilesMatchVersion(h, files2, vs[k])
    ensures FirstExact(h, files1, vs, from) == FirstExact(h, files2, vs, from)
    decreases |vs| - from
  {
    if from < |vs| && !FilesMatchVersion(h, files1, vs[from]) {
      FirstExactAgrees(h, files1, files2, vs, from + 1);
    }
  }

  /** With no evidence at all the result is Unknown, provided every version
      has at least one signature (a version without signatures is an exact
      match for anything). In particular, no fetched files means Unknown. */
  lemma NoMatchingFileMeansUnknown(h: Hasher, catalog: VersionList, files: seq<File>)
    requires forall k :: 0 <= k < |catalog.versions| ==> |catalog.versions[k].signatures| > 0
    requires forall f, k, j :: f in files && 0 <= k < |catalog.versions| && 0 <= j < |catalog.versions[k].signatures|
               ==> !FileMatchesSignature(h, f, catalog.versions[k].signatures[j])
    ensures IdentifyVersion(h, catalog, files) == Unknown
  {
    var vs := catalog.versions;
    forall k | 0 <= k < |vs|
      ensures Score(h, files, vs[k]) == 0
      ensures !FilesMatchVersion(h, files, vs[k])
    {
      var sigs := vs[k].signatures;
      forall j | 0 <= j < |sigs|
        ensures !SignatureMatched(h, files, sigs[j])
      {
        forall i | 0 <= i < |files|
          ensures !FileMatchesSignature(h, files[i], sigs[j])
        {
          assert files[i] in files;
        }
      }
      ScoreIsMatchedSignatureCount(h, files, vs[k]);
      assert MatchedIndices(h, files, sigs) == {};
      assert !SignatureMatched(h, files, sigs[0]);
    }
  }
}
