/** Matching fetched files against signatures and version definitions,
    and the per-version score used by the closest-match pass. */
module Matching {
  import opened Wrappers
  import opened Records
  import opened Hashing

  /** A file matches a signature when it was fetched under the signature's
      path and its digest under the signature's algorithm is the recorded one. */
  /** The digest is the one `GetFileHash` computes under the signature's
      algorithm name. */
  function FileMatchesSignature(h: Hasher, f: File, s: Signature): (b: bool)
    ensures b ==> f.name == s.path
    ensures f.name == s.path ==> (b <==> h(s.algo, f.data) == s.hash)
  {
    f.name == s.path && h(s.algo, f.data) == s.hash
  }

  /** Matching a signature is comparing the file's digest, as `GetFileHash`
      computes it under the signature's algorithm name, with the recorded
      digest (for a file fetched under the signature's path). */
  lemma FileMatchIsDigestEquality(h: Hasher, f: File, s: Signature)
    ensures FileMatchesSignature(h, f, s) <==> f.name == s.path && GetFileHash(h, f, AlgoName(s.algo)) == Success(s.hash)
  {
    ParseAlgoRoundTrip(s.algo);
  }

  /** Some file among `files` matches `s`. */
  function SignatureMatched(h: Hasher, files: seq<File>, s: Signature): (b: bool)
    ensures b <==> exists i :: 0 <= i < |files| && FileMatchesSignature(h, files[i], s)
  {
    if files == [] then false
    else FileMatchesSignature(h, files[0], s) || SignatureMatched(h, files[1..], s)
  }

  /** Every signature of `sigs` is matched by some file. */
  function AllMatched(h: Hasher, files: seq<File>, sigs: seq<Signature>): (b: bool)
    ensures b <==> forall j :: 0 <= j < |sigs| ==> SignatureMatched(h, files, sigs[j])
  {
    if sigs == [] then true
    else SignatureMatched(h, files, sigs[0]) && AllMatched(h, files, sigs[1..])
  }

  /** The files are an exact match for the version: each of its signatures
      is matched by some file (a strict conjunction over the signatures;
      extra files and their order play no part). */
  function FilesMatchVersion(h: Hasher, files: seq<File>, def: VersionDefinition): (b: bool)
    ensures b <==> forall j :: 0 <= j < |def.signatures| ==> SignatureMatched(h, files, def.signatures[j])
  {
    AllMatched(h, files, def.signatures)
  }

  /** How many signatures of `sigs` are matched by some file. */
  function CountMatched(h: Hasher, files: seq<File>, sigs: seq<Signature>): (n: nat)
    ensures n <= |sigs|
    ensures n == |sigs| <==> forall j :: 0 <= j < |sigs| ==> SignatureMatched(h, files, sigs[j])
  {
    if sigs == [] then 0
    else
      CountMatched(h, files, sigs[..|sigs| - 1])
      + (if SignatureMatched(h, files, sigs[|sigs| - 1]) then 1 else 0)
  }

  /** The closest-match score of a version: the number of its signatures
      that some fetched file matches. Full marks exactly when the files
      are an exact match for the version. */
  function Score(h: Hasher, files: seq<File>, def: VersionDefinition): (n: nat)
    ensures n <= |def.signatures|
    ensures n == |def.signatures| <==> FilesMatchVersion(h, files, def)
  {
    CountMatched(h, files, def.signatures)
  }

  /** The indices of the signatures in `sigs` that some file matches. */
  ghost function MatchedIndices(h: Hasher, files: seq<File>, sigs: seq<Signature>): set<int>
  {
    set j | 0 <= j < |sigs| && SignatureMatched(h, files, sigs[j])
  }

  /** The positions of `true` in a sequence of flags. */
  ghost function TruePositions(flags: seq<bool>): set<int>
  {
    set j | 0 <= j < |flags| && flags[j]
  }

  /** The true positions of a sequence extend those of its prefix by at most its last position. */
  lemma TruePositionsSnoc(flags: seq<bool>)
    requires |flags| > 0
    ensures TruePositions(flags) ==
            TruePositions(flags[..|flags| - 1]) + (if flags[|flags| - 1] then {|flags| - 1} else {})
    ensures |flags| - 1 !in TruePositions(flags[..|flags| - 1])
  {
  }

  /** Whether each signature of `sigs` is matched by some file. */
  function MatchFlags(h: Hasher, files: seq<File>, sigs: seq<Signature>): (flags: seq<bool>)
    ensures |flags| == |sigs|
    ensures forall j :: 0 <= j < |sigs| ==> flags[j] == SignatureMatched(h, files, sigs[j])
  {
    seq(|sigs|, j requires 0 <= j < |sigs| => SignatureMatched(h, files, sigs[j]))
  }

  lemma MatchedIndicesAreTruePositions(h: Hasher, files: seq<File>, sigs: seq<Signature>)
    ensures MatchedIndices(h, files, sigs) == TruePositions(MatchFlags(h, files, sigs))
  {
  }

  /** The matched positions of `sigs` are those of its prefix plus, when
      matched, its last position. */
  lemma MatchedIndicesSnoc(h: Hasher, files: seq<File>, sigs: seq<Signature>)
    requires |sigs| > 0
    ensures MatchedIndices(h, files, sigs) ==
            MatchedIndices(h, files, sigs[..|sigs| - 1])
            + (if SignatureMatched(h, files, sigs[|sigs| - 1]) then {|sigs| - 1} else {})
    ensures |sigs| - 1 !in MatchedIndices(h, files, sigs[..|sigs| - 1])
  {
    var flags := MatchFlags(h, files, sigs);
    MatchedIndicesAreTruePositions(h, files, sigs);
    MatchedIndicesAreTruePositions(h, files, sigs[..|sigs| - 1]);
    assert MatchFlags(h, files, sigs[..|sigs| - 1]) == flags[..|sigs| - 1];
    TruePositionsSnoc(flags);
  }

  /** The score is the number of individually matched signatures, counted
      as the size of the set of their positions. */
  lemma {:induction false} CountMatchedIsMatchedIndicesSize(h: Hasher, files: seq<File>, sigs: seq<Signature>)
    ensures CountMatched(h, files, sigs) == |MatchedIndices(h, files, sigs)|
    decreases |sigs|
  {
    if sigs != [] {
      CountMatchedIsMatchedIndicesSize(h, files, sigs[..|sigs| - 1]);
      MatchedIndicesSnoc(h, files, sigs);
    }
  }

  /** Score as the size of the set of matched signature positions. */
  lemma ScoreIsMatchedSignatureCount(h: Hasher, files: seq<File>, def: VersionDefinition)
    ensures Score(h, files, def) == |MatchedIndices(h, files, def.signatures)|
  {
    CountMatchedIsMatchedIndicesSize(h, files, def.signatures);
  }

  /** A file fetched under another path never matches a signature, whatever its digest. */
  lemma OtherPathNeverMatches(h: Hasher, f: File, s: Signature)
    requires f.name != s.path
    ensures !FileMatchesSignature(h, f, s)
  {
  }

  /** Fetching more files (as a set) never lowers a signature's status:
      a matched signature stays matched. */
  lemma SignatureMatchedMonotone(h: Hasher, files1: seq<File>, files2: seq<File>, s: Signature)
    requires forall f :: f in files1 ==> f in files2
    ensures SignatureMatched(h, files1, s) ==> SignatureMatched(h, files2, s)
  {
    if SignatureMatched(h, files1, s) {
      var i :| 0 <= i < |files1| && FileMatchesSignature(h, files1[i], s);
      assert files1[i] in files2;
    }
  }

  /** Fetching more files never lowers a version's score. */
  lemma {:induction false} CountMatchedMonotone(h: Hasher, files1: seq<File>, files2: seq<File>, sigs: seq<Signature>)
    requires forall f :: f in files1 ==> f in files2
    ensures CountMatched(h, files1, sigs) <= CountMatched(h, files2, sigs)
    decreases |sigs|
  {
    if sigs != [] {
      CountMatchedMonotone(h, files1, files2, sigs[..|sigs| - 1]);
      SignatureMatchedMonotone(h, files1, files2, sigs[|sigs| - 1]);
    }
  }

  /** Fetching more files never lowers a version's score and never undoes an exact match. */
  lemma MoreFilesNeverHurt(h: Hasher, files1: seq<File>, files2: seq<File>, def: VersionDefinition)
    requires forall f :: f in files1 ==> f in files2
    ensures Score(h, files1, def) <= Score(h, files2, def)
    ensures FilesMatchVersion(h, files1, def) ==> FilesMatchVersion(h, files2, def)
  {
    CountMatchedMonotone(h, files1, files2, def.signatures);
  }

  /** Matching depends on the fetched files only as a set: their order and
      any duplicates are irrelevant. */
  lemma MatchingDependsOnlyOnFileSet(h: Hasher, files1: seq<File>, files2: seq<File>, def: VersionDefinition)
    requires forall f :: f in files1 <==> f in files2
    ensures Score(h, files1, def) == Score(h, files2, def)
    ensures FilesMatchVersion(h, files1, def) == FilesMatchVersion(h, files2, def)
  {
    MoreFilesNeverHurt(h, files1, files2, def);
    MoreFilesNeverHurt(h, files2, files1, def);
  }

  /** A version's exact match rests on each of its signatures: if a file is
      the only one matching some signature of the version, dropping it
      (every copy of it) turns the exact match into a non-match. */
  lemma RemovingSoleWitnessBreaksMatch(h: Hasher, files: seq<File>, def: VersionDefinition, f: File, j: int)
    requires 0 <= j < |def.signatures|
    requires FileMatchesSignature(h, f, def.signatures[j])
    requires forall g :: g in files && g != f ==> !FileMatchesSignature(h, g, def.signatures[j])
    ensures !FilesMatchVersion(h, RemoveAll(files, f), def)
  {
  }

  /** `files` with every copy of `f` dropped. */
  function RemoveAll(files: seq<File>, f: File): (r: seq<File>)
    ensures forall g :: g in r <==> g in files && g != f
  {
    if files == [] then []
    else (if files[0] == f then [] else [files[0]]) + RemoveAll(files[1..], f)
  }

  /** A version with no signatures is an exact match for any fetched files,
      even for none at all. */
  lemma EmptyDefinitionMatchesAnything(h: Hasher, files: seq<File>, version: string)
    ensures FilesMatchVersion(h, files, VersionDefinition(version, []))
  {
  }
}
