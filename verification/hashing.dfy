/** Digest computation for a fetched file, selected by algorithm name. */
module Hashing {
  import opened Wrappers
  import opened Records

  /** Why a digest could not be computed. */
  datatype HashError = UnknownAlgorithm(name: string)

  /** The canonical (lower-case) name of an algorithm. */
  function AlgoName(a: Algo): (name: string)
  {
    match a
    case SHA256 => "sha256"
    case MD5 => "md5"
  }

  function LowerChar(c: char): (l: char)
  {
    if 'A' <= c <= 'Z' then (c as int - 'A' as int + 'a' as int) as char else c
  }

  function UpperChar(c: char): (u: char)
  {
    if 'a' <= c <= 'z' then (c as int - 'a' as int + 'A' as int) as char else c
  }

  /** ASCII lower-casing, character by character. */
  function Lower(s: string): (r: string)
    ensures |r| == |s|
    ensures forall i :: 0 <= i < |s| ==> r[i] == LowerChar(s[i])
  {
    if s == [] then [] else [LowerChar(s[0])] + Lower(s[1..])
  }

  /** ASCII upper-casing, character by character. */
  function Upper(s: string): (r: string)
    ensures |r| == |s|
    ensures forall i :: 0 <= i < |s| ==> r[i] == UpperChar(s[i])
  {
    if s == [] then [] else [UpperChar(s[0])] + Upper(s[1..])
  }

  /** The algorithm an algorithm name denotes, ignoring ASCII case
      ("sha256" and the catalog's "SHA256" name the same algorithm);
      None for a name that denotes no supported algorithm. */
  function ParseAlgo(name: string): (r: Option<Algo>)
    ensures r.Some? <==> exists a: Algo :: Lower(name) == AlgoName(a)
    ensures r.Some? ==> Lower(name) == AlgoName(r.value)
  {
    if Lower(name) == AlgoName(SHA256) then Some(SHA256)
    else if Lower(name) == AlgoName(MD5) then Some(MD5)
    else None
  }

  /** A name made of lower-case letters and digits. */
  predicate IsLowerAlnum(s: string)
  {
    forall i :: 0 <= i < |s| ==> 'a' <= s[i] <= 'z' || '0' <= s[i] <= '9'
  }

  /** Lower-casing leaves a lower-case name unchanged and undoes upper-casing it. */
  lemma LowerUndoesUpper(s: string)
    requires IsLowerAlnum(s)
    ensures Lower(s) == s
    ensures Lower(Upper(s)) == s
  {
    assert forall i :: 0 <= i < |s| ==> Lower(s)[i] == s[i];
    assert forall i :: 0 <= i < |s| ==> Lower(Upper(s))[i] == s[i];
  }

  /** Every algorithm is recognised under its canonical name and under its
      upper-case spelling. */
  lemma ParseAlgoRoundTrip(a: Algo)
    ensures ParseAlgo(AlgoName(a)) == Some(a)
    ensures ParseAlgo(Upper(AlgoName(a))) == Some(a)
  {
    LowerUndoesUpper(AlgoName(a));
  }

  /** The hex digest of a file's bytes under the named algorithm; an
      unknown algorithm name is an error rather than a digest. */
  function GetFileHash(h: Hasher, file: File, algoName: string): (r: Result<string, HashError>)
    ensures r.Failure? <==> ParseAlgo(algoName).None?
    ensures r.Failure? ==> r.error == UnknownAlgorithm(algoName)
    ensures r.Success? ==> r.value == h(ParseAlgo(algoName).value, file.data)
  {
    match ParseAlgo(algoName)
    case Some(a) => Success(h(a, file.data))
    case None => Failure(UnknownAlgorithm(algoName))
  }

  /** The digest depends only on the file's bytes and the algorithm:
      the file's name plays no part, and equal names in any ASCII case
      give equal digests. */
  lemma FileHashDependsOnlyOnBytesAndAlgorithm(h: Hasher, f1: File, f2: File, n1: string, n2: string)
    requires f1.data == f2.data
    requires Lower(n1) == Lower(n2)
    ensures GetFileHash(h, f1, n1).Success? <==> GetFileHash(h, f2, n2).Success?
    ensures GetFileHash(h, f1, n1).Success? ==> GetFileHash(h, f1, n1).value == GetFileHash(h, f2, n2).value
  {
  }

  /** Hashing with "sha256" and with "md5" gives the SHA-256 and the MD5
      digest of the file's bytes respectively; the catalog's "SHA256"
      spelling selects the default algorithm. */
  lemma GetFileHashNamedAlgorithms(h: Hasher, file: File)
    ensures GetFileHash(h, file, "sha256") == Success(h(SHA256, file.data))
    ensures GetFileHash(h, file, "md5") == Success(h(MD5, file.data))
    ensures GetFileHash(h, file, "SHA256") == Success(h(DefaultAlgo, file.data))
  {
  }

  /** A signature built from a path and a digest only, as the catalog's
      record constructor does when `algo` is omitted: it is checked with the
      algorithm the catalog spells "SHA256", the same one get_file_hash
      calls "sha256". */
  function DefaultSignature(path: string, hash: string): (s: Signature)
    ensures s.path == path && s.hash == hash
    ensures ParseAlgo("SHA256") == Some(s.algo)
    ensures ParseAlgo("sha256") == Some(s.algo)
  {
    ParseAlgoRoundTrip(SHA256);
    assert Upper("sha256") == "SHA256";
    Signature(path, hash, DefaultAlgo)
  }
}
