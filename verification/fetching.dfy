/** Fetching the catalog's files from a target. The network engine is a
    parameter: `respond` gives the outcome of requesting one URL. */
module Fetching {
  import opened Records
  import opened Matching
  import opened Catalog
  import opened Identification

  /** The outcome of one request, as the engine's successful-responses view
      reports it: a body, or nothing. */
  datatype FetchOutcome = Fetched(body: Bytes) | Failed

  /** The target's behaviour: the outcome of requesting each URL. */
  type Responder = string -> FetchOutcome

  /** Request `target + path` for each path, in list order, and keep a File
      (named by the requested relative path) for every successful response;
      failed requests contribute nothing. */
  method FetchFiles(respond: Responder, target: string, paths: seq<string>) returns (requests: seq<string>, files: seq<File>)
    ensures |requests| == |paths|
    ensures forall i :: 0 <= i < |paths| ==> requests[i] == target + paths[i]
    ensures |files| <= |paths|
    ensures forall f :: f in files <==>
              exists i :: 0 <= i < |paths| && f.name == paths[i] && respond(requests[i]) == Fetched(f.data)
  {
    requests := [];
    files := [];
    var n := 0;
    while n < |paths|
      invariant n <= |paths|
      invariant |requests| == n
      invariant forall i :: 0 <= i < n ==> requests[i] == target + paths[i]
      invariant |files| <= n
      invariant forall f :: f in files <==>
                  exists i :: 0 <= i < n && f.name == paths[i] && respond(requests[i]) == Fetched(f.data)
    {
      var url := target + paths[n];
      requests := requests + [url];
      if respond(url).Fetched? {
        files := files + [File(paths[n], respond(url).body)];
      }
      n := n + 1;
    }
  }

  /** The target serves every file of `def` with the recorded content: each
      signature's URL answers with bytes whose digest is the recorded one. */
  ghost predicate ServesVersion(h: Hasher, respond: Responder, target: string, def: VersionDefinition)
  {
    forall j :: 0 <= j < |def.signatures| ==>
      var s := def.signatures[j];
      respond(target + s.path).Fetched? && h(s.algo, respond(target + s.path).body) == s.hash
  }

  /** Fetching a path list that holds every path of catalog version `k`
      from a target that serves that version's files yields an exact match
      for it, so identification is conclusive, and it names version `k`
      unless an earlier version also matches exactly. */
  lemma FetchedServedVersionMatches(h: Hasher, respond: Responder, target: string, catalog: VersionList,
                                    paths: seq<string>, requests: seq<string>, files: seq<File>, k: int)
    requires 0 <= k < |catalog.versions|
    requires forall j :: 0 <= j < |catalog.versions[k].signatures| ==> catalog.versions[k].signatures[j].path in paths
    requires ServesVersion(h, respond, target, catalog.versions[k])
    requires |requests| == |paths|
    requires forall i :: 0 <= i < |paths| ==> requests[i] == target + paths[i]
    requires forall f :: f in files <==>
               exists i :: 0 <= i < |paths| && f.name == paths[i] && respond(requests[i]) == Fetched(f.data)
    ensures FilesMatchVersion(h, files, catalog.versions[k])
    ensures IdentifyVersion(h, catalog, files).Identified?
    ensures (forall m :: 0 <= m < k ==> !FilesMatchVersion(h, files, catalog.versions[m])) ==>
              IdentifyVersion(h, catalog, files) == Identified(catalog.versions[k].version)
  {
    var def := catalog.versions[k];
    forall j | 0 <= j < |def.signatures|
      ensures SignatureMatched(h, files, def.signatures[j])
    {
      var s := def.signatures[j];
      var i :| 0 <= i < |paths| && paths[i] == s.path;
      var f := File(s.path, respond(target + s.path).body);
      assert f in files by {
        assert f.name == paths[i] && respond(requests[i]) == Fetched(f.data);
      }
      var fi :| 0 <= fi < |files| && files[fi] == f;
      assert FileMatchesSignature(h, files[fi], s);
    }
    if forall m :: 0 <= m < k ==> !FilesMatchVersion(h, files, catalog.versions[m]) {
      assert IsFirstExact(h, files, catalog.versions, k);
    }
    assert !NoExactMatch(h, files, catalog.versions);
  }

  /** The catalog's required paths hold every path of each of its versions,
      so fetching them from a target that serves a version's files gives an
      exact match for that version. */
  lemma FetchedRequiredPathsMatchServedVersion(h: Hasher, respond: Responder, target: string, catalog: VersionList,
                                               requests: seq<string>, files: seq<File>, k: int)
    requires 0 <= k < |catalog.versions|
    requires ServesVersion(h, respond, target, catalog.versions[k])
    requires |requests| == |RequiredPaths(catalog)|
    requires forall i :: 0 <= i < |requests| ==> requests[i] == target + RequiredPaths(catalog)[i]
    requires forall f :: f in files <==>
               exists i :: 0 <= i < |requests| && f.name == RequiredPaths(catalog)[i] && respond(requests[i]) == Fetched(f.data)
    ensures FilesMatchVersion(h, files, catalog.versions[k])
  {
    var sigs := catalog.versions[k].signatures;
    forall j | 0 <= j < |sigs|
      ensures sigs[j].path in RequiredPaths(catalog)
    {
      assert HasSignatureFor(sigs, sigs[j].path);
      assert CatalogHasPath(catalog.versions, sigs[j].path);
    }
    FetchedServedVersionMatches(h, respond, target, catalog, RequiredPaths(catalog), requests, files, k);
  }
}
