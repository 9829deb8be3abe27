/** The signature catalog's derived list of paths to fetch. */
module Catalog {
  import opened Records

  /** No path occurs twice. */
  ghost predicate Distinct(paths: seq<string>)
  {
    forall i, j :: 0 <= i < j < |paths| ==> paths[i] != paths[j]
  }

  /** Some signature of `sigs` is recorded for `p`. */
  ghost predicate HasSignatureFor(sigs: seq<Signature>, p: string)
  {
    exists j :: 0 <= j < |sigs| && sigs[j].path == p
  }

  /** Some version of `defs` has a signature recorded for `p`. */
  ghost predicate CatalogHasPath(defs: seq<VersionDefinition>, p: string)
  {
    exists i :: 0 <= i < |defs| && HasSignatureFor(defs[i].signatures, p)
  }

  /** Append to `acc` the paths of `sigs` it does not hold yet, in order of first occurrence. */
  function AddSignaturePaths(acc: seq<string>, sigs: seq<Signature>): (r: seq<string>)
    ensures |acc| <= |r| && r[..|acc|] == acc
    ensures Distinct(acc) ==> Distinct(r)
    ensures forall p :: p in r <==> p in acc || HasSignatureFor(sigs, p)
    decreases |sigs|
  {
    if sigs == [] then acc
    else
      var next := if sigs[0].path in acc then acc else acc + [sigs[0].path];
      var r := AddSignaturePaths(next, sigs[1..]);
      assert forall p :: HasSignatureFor(sigs, p) <==> p == sigs[0].path || HasSignatureFor(sigs[1..], p) by {
        forall p
          ensures HasSignatureFor(sigs, p) ==> p == sigs[0].path || HasSignatureFor(sigs[1..], p)
        {
          if HasSignatureFor(sigs, p) && p != sigs[0].path {
            var j :| 0 <= j < |sigs| && sigs[j].path == p;
            assert sigs[1..][j - 1].path == p;
          }
        }
        forall p
          ensures HasSignatureFor(sigs[1..], p) ==> HasSignatureFor(sigs, p)
        {
          if HasSignatureFor(sigs[1..], p) {
            var j :| 0 <= j < |sigs[1..]| && sigs[1..][j].path == p;
            assert sigs[j + 1].path == p;
          }
        }
      }
      assert r[..|acc|] == next[..|acc|];
      r
  }

  /** Append to `acc` the paths of every version of `defs`, in catalog order. */
  function AddCatalogPaths(acc: seq<string>, defs: seq<VersionDefinition>): (r: seq<string>)
    ensures |acc| <= |r| && r[..|acc|] == acc
    ensures Distinct(acc) ==> Distinct(r)
    ensures forall p :: p in r <==> p in acc || CatalogHasPath(defs, p)
    decreases |defs|
  {
    if defs == [] then acc
    else
      var next := AddSignaturePaths(acc, defs[0].signatures);
      var r := AddCatalogPaths(next, defs[1..]);
      assert forall p :: CatalogHasPath(defs, p) <==> HasSignatureFor(defs[0].signatures, p) || CatalogHasPath(defs[1..], p) by {
        forall p
          ensures CatalogHasPath(defs, p) ==> HasSignatureFor(defs[0].signatures, p) || CatalogHasPath(defs[1..], p)
        {
          if CatalogHasPath(defs, p) && !HasSignatureFor(defs[0].signatures, p) {
            var i :| 0 <= i < |defs| && HasSignatureFor(defs[i].signatures, p);
            assert defs[1..][i - 1] == defs[i];
          }
        }
        forall p
          ensures CatalogHasPath(defs[1..], p) ==> CatalogHasPath(defs, p)
        {
          if CatalogHasPath(defs[1..], p) {
            var i :| 0 <= i < |defs[1..]| && HasSignatureFor(defs[1..][i].signatures, p);
            assert defs[i + 1] == defs[1..][i];
          }
        }
      }
      assert r[..|acc|] == next[..|acc|];
      r
  }

  /** The paths that must be fetched to identify any version of the
      catalog: every signature path of every version, each once, in order
      of first occurrence. */
  function RequiredPaths(catalog: VersionList): (r: seq<string>)
    ensures Distinct(r)
    ensures forall p :: p in r <==> CatalogHasPath(catalog.versions, p)
  {
    AddCatalogPaths([], catalog.versions)
  }

  /** Every signature path of every version of the catalog is in `paths`:
      fetching `paths` requests every file the catalog has a signature for. */
  ghost predicate CoversCatalog(paths: seq<string>, catalog: VersionList)
  {
    forall p :: CatalogHasPath(catalog.versions, p) ==> p in paths
  }

  /** The required paths are the least list covering the catalog: they cover
      it, and any covering list (such as a separately loaded list of files
      to fetch) holds each of them. */
  lemma RequiredPathsIsLeastCover(catalog: VersionList, paths: seq<string>)
    ensures CoversCatalog(RequiredPaths(catalog), catalog)
    ensures CoversCatalog(paths, catalog) ==> forall p :: p in RequiredPaths(catalog) ==> p in paths
  {
  }
}
