/** The immutable records the version identifier works on: fetched files,
    per-file signatures, per-version signature sets and the product catalog. */
module Records {

  newtype byte = x: int | 0 <= x < 256

  type Bytes = seq<byte>

  /** A fetched artifact: the relative path it was requested under and its body. */
  datatype File = File(name: string, data: Bytes)

  /** The digest algorithms a signature may be recorded with. */
  datatype Algo = SHA256 | MD5

  /** The algorithm a signature uses when the catalog does not name one. */
  const DefaultAlgo: Algo := SHA256

  /** A digest function: the hex digest of some bytes under an algorithm.
      The digest arithmetic itself is not modelled; every operation that
      hashes takes the digest function as a parameter. */
  type Hasher = (Algo, Bytes) -> string

  /** One expected fingerprint: the hex digest `hash` of the file at `path`. */
  datatype Signature = Signature(path: string, hash: string, algo: Algo)

  /** The full signature set identifying one release. */
  datatype VersionDefinition = VersionDefinition(version: string, signatures: seq<Signature>)

  /** The catalog of one product: its versions in catalog order. */
  datatype VersionList = VersionList(producer: string, key: string, versions: seq<VersionDefinition>)

  /** The bytes of an ASCII/Latin-1 text literal, as a Python `b"..."` literal gives them. */
  function AsciiBytes(s: string): (r: Bytes)
    requires forall i :: 0 <= i < |s| ==> s[i] as int < 256
    ensures |r| == |s|
    ensures forall i :: 0 <= i < |s| ==> r[i] as int == s[i] as int
  {
    seq(|s|, i requires 0 <= i < |s| => s[i] as int as byte)
  }
}
