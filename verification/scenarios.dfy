/** The unit-test scenarios of the version identifier, as lemmas over an
    arbitrary digest function. Each scenario assumes only that the digest
    tells apart the different contents it compares. */
module Scenarios {
  import opened Wrappers
  import opened Records
  import opened Hashing
  import opened Matching
  import opened Identification
  import opened Fetching
  import opened Catalog

  const ReadmeData: Bytes := AsciiBytes("This is the readme file.")
  const StyleData: Bytes := AsciiBytes("This is the style file.")
  const Readme1Data: Bytes := AsciiBytes("ReadMe file for 1.0 version.")
  const Readme2Data: Bytes := AsciiBytes("ReadMe file for 2.0 version.")
  const FileJs1Data: Bytes := AsciiBytes("file.js for 1.0 version.")
  const FileJs2Data: Bytes := AsciiBytes("file.js for 2.0 version.")

  const ReadmeFile: File := File("readme.html", ReadmeData)
  const StyleFile: File := File("style.css", StyleData)

  function StyleSig(h: Hasher): (s: Signature) { DefaultSignature("style.css", h(SHA256, StyleData)) }
  function Readme1Sig(h: Hasher): (s: Signature) { DefaultSignature("readme.html", h(SHA256, Readme1Data)) }
  function Readme2Sig(h: Hasher): (s: Signature) { DefaultSignature("readme.html", h(SHA256, Readme2Data)) }

  function Version1(h: Hasher): (d: VersionDefinition) { VersionDefinition("1.0", [Readme1Sig(h), StyleSig(h)]) }
  function Version2(h: Hasher): (d: VersionDefinition) { VersionDefinition("2.0", [Readme2Sig(h), StyleSig(h)]) }

  /** Each file matches the default-algorithm signature of its own path and
      digest, and never the signature recorded for the other path. */
  lemma FileMatchSignatureScenario(h: Hasher)
    ensures FileMatchesSignature(h, ReadmeFile, DefaultSignature("readme.html", h(SHA256, ReadmeData)))
    ensures !FileMatchesSignature(h, ReadmeFile, StyleSig(h))
    ensures FileMatchesSignature(h, StyleFile, StyleSig(h))
    ensures !FileMatchesSignature(h, StyleFile, DefaultSignature("readme.html", h(SHA256, ReadmeData)))
  {
  }

  /** Each version's own files match it; the shared style.css does not make
      one version's files match the other version. */
  lemma FilesMatchVersionScenario(h: Hasher)
    requires h(SHA256, Readme1Data) != h(SHA256, Readme2Data)
    ensures FilesMatchVersion(h, [File("readme.html", Readme1Data), StyleFile], Version1(h))
    ensures FilesMatchVersion(h, [File("readme.html", Readme2Data), StyleFile], Version2(h))
    ensures !FilesMatchVersion(h, [File("readme.html", Readme1Data), StyleFile], Version2(h))
    ensures !FilesMatchVersion(h, [File("readme.html", Readme2Data), StyleFile], Version1(h))
  {
    var files1 := [File("readme.html", Readme1Data), StyleFile];
    var files2 := [File("readme.html", Readme2Data), StyleFile];
    assert FileMatchesSignature(h, files1[0], Version1(h).signatures[0]);
    assert FileMatchesSignature(h, files1[1], Version1(h).signatures[1]);
    assert FileMatchesSignature(h, files2[0], Version2(h).signatures[0]);
    assert FileMatchesSignature(h, files2[1], Version2(h).signatures[1]);
    assert !SignatureMatched(h, files1, Version2(h).signatures[0]);
    assert !SignatureMatched(h, files2, Version1(h).signatures[0]);
  }

  /** Exact pass: files identical to version 2.0's reference set identify 2.0. */
  lemma IdentifyExactScenario(h: Hasher)
    requires h(SHA256, Readme1Data) != h(SHA256, Readme2Data)
    ensures IdentifyVersion(h, VersionList("unittest", "wordpress", [Version1(h), Version2(h)]),
                            [File("readme.html", Readme2Data), StyleFile]) == Identified("2.0")
  {
    FilesMatchVersionScenario(h);
    var vs := [Version1(h), Version2(h)];
    assert IsFirstExact(h, [File("readme.html", Readme2Data), StyleFile], vs, 1);
  }

  function FileJs1Sig(h: Hasher): (s: Signature) { DefaultSignature("file.js", h(SHA256, FileJs1Data)) }
  function FileJs2Sig(h: Hasher): (s: Signature) { DefaultSignature("file.js", h(SHA256, FileJs2Data)) }

  function Version1Full(h: Hasher): (d: VersionDefinition) { VersionDefinition("1.0", [Readme1Sig(h), StyleSig(h), FileJs1Sig(h)]) }
  function Version2Full(h: Hasher): (d: VersionDefinition) { VersionDefinition("2.0", [Readme2Sig(h), StyleSig(h), FileJs2Sig(h)]) }

  /** With the readme missing, file.js of 1.0 plus the shared style.css
      match two of version 1.0's three signatures. */
  lemma ClosestScenarioScoreOf1(h: Hasher)
    ensures Score(h, [File("file.js", FileJs1Data), StyleFile], Version1Full(h)) == 2
  {
    var files := [File("file.js", FileJs1Data), StyleFile];
    var sigs := Version1Full(h).signatures;
    assert !SignatureMatched(h, files, sigs[0]);
    assert SignatureMatched(h, files, sigs[1]) by {
      assert FileMatchesSignature(h, files[1], sigs[1]);
    }
    assert SignatureMatched(h, files, sigs[2]) by {
      assert FileMatchesSignature(h, files[0], sigs[2]);
    }
    assert CountMatched(h, files, sigs[..1]) == 0 by {
      assert sigs[..1][..0] == [];
    }
    assert CountMatched(h, files, sigs[..2]) == 1 by {
      assert sigs[..2][..1] == sigs[..1];
    }
    assert sigs[..3] == sigs;
  }

  /** The same files match only the shared style.css of version 2.0. */
  lemma ClosestScenarioScoreOf2(h: Hasher)
    requires h(SHA256, FileJs1Data) != h(SHA256, FileJs2Data)
    ensures Score(h, [File("file.js", FileJs1Data), StyleFile], Version2Full(h)) == 1
  {
    var files := [File("file.js", FileJs1Data), StyleFile];
    var sigs := Version2Full(h).signatures;
    assert !SignatureMatched(h, files, sigs[0]);
    assert SignatureMatched(h, files, sigs[1]) by {
      assert FileMatchesSignature(h, files[1], sigs[1]);
    }
    assert !SignatureMatched(h, files, sigs[2]);
    ScoreIsMatchedSignatureCount(h, files, Version2Full(h));
    assert MatchedIndices(h, files, sigs) == {1};
  }

  /** Closest-match pass: no version matches exactly, and 1.0, scoring 2
      against 1, is identified. */
  lemma IdentifyClosestScenario(h: Hasher)
    requires h(SHA256, FileJs1Data) != h(SHA256, FileJs2Data)
    ensures IdentifyVersion(h, VersionList("unittest", "wordpress", [Version1Full(h), Version2Full(h)]),
                            [File("file.js", FileJs1Data), StyleFile]) == Identified("1.0")
  {
    var files := [File("file.js", FileJs1Data), StyleFile];
    var vs := [Version1Full(h), Version2Full(h)];
    ClosestScenarioScoreOf1(h);
    ClosestScenarioScoreOf2(h);
    assert NoExactMatch(h, files, vs);
    assert IsClosest(h, files, vs, 0);
  }

  const Target: string := "http://www.target.url/"

  /** fetch_files requests each required path under the target, in order. */
  method FetchRequestsScenario(respond: Responder) returns (requests: seq<string>, files: seq<File>)
    ensures requests == [Target + "readme.html", Target + "style.css", Target + "wp-include/file.js"]
  {
    requests, files := FetchFiles(respond, Target, ["readme.html", "style.css", "wp-include/file.js"]);
  }

  /** The sample catalog the loader test reads: one version, 2.0, whose only
      signature is for file.js. */
  const SampleCatalog: VersionList :=
    VersionList("unittest", "wordpress", [VersionDefinition("2.0", [Signature("file.js", "1234", SHA256)])])

  /** The list of files to fetch loaded with it. */
  const SampleSignaturesFiles: seq<string> := ["readme.html", "my_file.css", "file.js"]

  /** The loaded list of files to fetch covers the sample catalog, but holds
      paths no loaded signature has: it is not the catalog's required paths. */
  lemma LoadedSampleScenario()
    ensures CoversCatalog(SampleSignaturesFiles, SampleCatalog)
    ensures RequiredPaths(SampleCatalog) == ["file.js"]
    ensures RequiredPaths(SampleCatalog) != SampleSignaturesFiles
  {
    var vs := SampleCatalog.versions;
    forall p | CatalogHasPath(vs, p)
      ensures p in SampleSignaturesFiles
    {
      var i :| 0 <= i < |vs| && HasSignatureFor(vs[i].signatures, p);
      assert p == "file.js";
      assert SampleSignaturesFiles[2] == "file.js";
    }
    var r := RequiredPaths(SampleCatalog);
    assert CatalogHasPath(vs, "file.js") by {
      assert HasSignatureFor(vs[0].signatures, "file.js");
    }
    assert "file.js" in r;
    assert forall p :: p in r ==> p == "file.js";
    assert r == ["file.js"];
  }
}
