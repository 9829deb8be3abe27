# Version identification (vane2), modelled in Dafny

This project models the version-identification core of the vane2 web
vulnerability scanner: `VersionIdentification` fetches a fixed list of static
files from a target site, hashes them, and compares the digests with a catalog
of per-version file signatures to name the release the site runs.

The implementation module (`vane/versionidentification.py`) is not part of
this model's sources; its behaviour is the one its unit tests
(`tests/versionidentification_tests.py`) pin down. Where the tests are
silent, the model makes a few choices, each marked as an assumption below.

The model has four layers, one module each, on top of the shared records:

- `Records` (records.dfy): `File(name, data)`, `Signature(path, hash, algo)`,
  `VersionDefinition(version, signatures)`, `VersionList(producer, key,
  versions)`; bytes are `seq<byte>`. The digest function is a parameter
  `h: Hasher`, a total function from an algorithm and bytes to a hex string:
  SHA-256 and MD5 themselves are not modelled, and determinism holds by
  construction.
- `Hashing` (hashing.dfy): `get_file_hash` by algorithm name. Names are
  matched ignoring ASCII case, so the tests' `"sha256"` and the catalog's
  `"SHA256"` select the same algorithm; an unknown name is an error value.
  A signature built without an algorithm uses SHA-256.
- `Matching` (matching.dfy): `_file_match_signature`, `_files_match_version`
  and the closest-match score, with the reference definition of the score as
  the size of the set of matched signature positions.
- `Identification` (identification.dfy): `identify_version` — the first exact
  match in catalog order, else the first version with the strictly highest
  positive score, else `Unknown`.
- `Catalog` (catalog.dfy): the catalog's required paths, the distinct
  signature paths of the catalog in order of first occurrence, proved to be
  the least list covering the catalog. The list of files the identifier
  actually fetches (`signatures_files`) is loaded next to the catalog and
  may hold more paths; the model takes it as an input list.
- `Fetching` (fetching.dfy): `fetch_files` — one request `target + path` per
  required path, in list order, keeping a file for each successful response.
  The network engine is a parameter `respond` giving each URL's outcome.
- `Scenarios` (scenarios.dfy): the unit-test scenarios as lemmas, for any
  digest function that tells apart the contents each scenario compares.

## Model

| member | source | states |
|---|---|---|
| Hashing.ParseAlgo | tests/versionidentification_tests.py:35-36 | An algorithm name denotes an algorithm exactly when its ASCII lower-casing is that algorithm's canonical name; otherwise there is none. |
| Hashing.ParseAlgoRoundTrip | tests/versionidentification_tests.py:35-36 | Each algorithm is recognised under its canonical name and under its upper-case spelling (the catalog's "SHA256"). |
| Hashing.GetFileHash | tests/versionidentification_tests.py:31-39 | The digest is the hash of the file's bytes under the named algorithm; it fails, with the name, exactly when the name denotes no algorithm. |
| Hashing.FileHashDependsOnlyOnBytesAndAlgorithm | tests/versionidentification_tests.py:35-36 | Files with equal bytes hashed under names equal up to case get the same digest, whatever the files are called. |
| Hashing.DefaultSignature | tests/versionidentification_tests.py:44-45 | A signature built from a path and a digest alone keeps both and is checked with the algorithm named "sha256" (the catalog's "SHA256"). |
| Hashing.GetFileHashNamedAlgorithms | tests/versionidentification_tests.py:31-39 | "sha256" gives the SHA-256 digest of the data, "md5" the MD5 digest, and "SHA256" the default algorithm's digest. |
| Matching.FileMatchesSignature | tests/versionidentification_tests.py:41-50 | A file matches only a signature of its own path, and, for that path, exactly when its digest under the signature's algorithm is the recorded hash. |
| Matching.FileMatchIsDigestEquality | tests/versionidentification_tests.py:42-47 | A file matches a signature exactly when it was fetched under the signature's path and its digest under the signature's algorithm name is the recorded hash. |
| Matching.OtherPathNeverMatches | tests/versionidentification_tests.py:48-50 | A file fetched under a different path never matches a signature, whatever the digests. |
| Matching.SignatureMatched | tests/versionidentification_tests.py:61-64 | A signature is matched exactly when some file of the collection matches it. |
| Matching.FilesMatchVersion | tests/versionidentification_tests.py:52-64 | Files match a version exactly when every one of its signatures is matched by some file; they fail exactly when some signature is unmatched. |
| Matching.Score | tests/versionidentification_tests.py:83-106 | A version's score never exceeds its number of signatures and reaches it exactly when the files match the version. |
| Matching.CountMatchedIsMatchedIndicesSize | tests/versionidentification_tests.py:83-106 | The count of matched signatures equals the size of the set of positions of signatures some file matches. |
| Matching.ScoreIsMatchedSignatureCount | tests/versionidentification_tests.py:83-106 | A version's score is the number of its signature positions that some file matches. |
| Matching.MoreFilesNeverHurt | tests/versionidentification_tests.py:61-64 | Fetching a superset of files never lowers a version's score and never undoes an exact match. |
| Matching.MatchingDependsOnlyOnFileSet | tests/versionidentification_tests.py:61-64 | Score and exact match depend on the fetched files only as a set: order and duplicates are irrelevant. |
| Matching.RemovingSoleWitnessBreaksMatch | tests/versionidentification_tests.py:63-64 | Dropping the only file that matches some signature of a version turns it into a non-match. |
| Matching.EmptyDefinitionMatchesAnything | tests/versionidentification_tests.py:61-64 | No test exercises it: under the strict conjunction these calls pin down, a version with no signatures is an exact match for any files, none included. |
| Identification.FirstExact | tests/versionidentification_tests.py:66-81 | The exact pass returns the first position in catalog order whose version the files match exactly, or none when no later version matches. |
| Identification.BestAmong | tests/versionidentification_tests.py:83-106 | The closest pass returns a position with a positive score, strictly above every earlier score and at least every later one; none exactly when all scores are zero. |
| Identification.IdentifyVersion | tests/versionidentification_tests.py:66-106 | The result is the first exact match's label; failing an exact match, the closest match's label; Unknown exactly when nothing matches exactly and every score is zero; a label is always a catalog version's. |
| Identification.IdentifyDependsOnlyOnFileSet | tests/versionidentification_tests.py:76-79 | Identification gives the same result for any two fetched collections holding the same files, whatever their order or duplicates. |
| Identification.FirstExactAgrees | tests/versionidentification_tests.py:66-81 | Two file collections that agree on which versions match exactly give the same exact pass. |
| Identification.NoMatchingFileMeansUnknown | tests/versionidentification_tests.py:83-106 | Assumption, no test exercises it (the closest-match test has positive scores): when no fetched file matches any signature and every version has a signature, the result is Unknown. |
| Catalog.RequiredPaths | tests/versionidentification_tests.py:113-116 | The catalog's required paths are distinct and are exactly the signature paths of its versions; the loaded `signatures_files` of line 116 is a different, longer list (see "## Left out"). |
| Catalog.RequiredPathsIsLeastCover | tests/versionidentification_tests.py:113-116 | The required paths cover the catalog, and every covering list, such as a loaded `signatures_files`, holds each of them. |
| Fetching.FetchFiles | tests/versionidentification_tests.py:20-29 | One request per path, in order, each for the target followed by the path; a file is kept exactly when its request succeeded, named by the path and holding the body. |
| Fetching.FetchedServedVersionMatches | tests/versionidentification_tests.py:20-29 | Fetching any path list holding a version's paths from a target that serves that version's files yields an exact match for it, a conclusive result, and that version when no earlier one matches. |
| Fetching.FetchedRequiredPathsMatchServedVersion | tests/versionidentification_tests.py:20-29 | Fetching the catalog's required paths from a target that serves a version's files yields an exact match for that version. |
| Scenarios.FileMatchSignatureScenario | tests/versionidentification_tests.py:41-50 | Readme and style files each match their own default-algorithm signature and not the other's. |
| Scenarios.FilesMatchVersionScenario | tests/versionidentification_tests.py:52-64 | Each version's files match it, and the shared style.css does not make them match the other version. |
| Scenarios.IdentifyExactScenario | tests/versionidentification_tests.py:66-81 | The files of version 2.0 identify "2.0", not "1.0". |
| Scenarios.ClosestScenarioScoreOf1 | tests/versionidentification_tests.py:83-106 | With the readme missing, file.js of 1.0 and the shared style.css give version 1.0 a score of 2. |
| Scenarios.ClosestScenarioScoreOf2 | tests/versionidentification_tests.py:83-106 | The same files give version 2.0 a score of 1. |
| Scenarios.IdentifyClosestScenario | tests/versionidentification_tests.py:83-106 | With no exact match, "1.0" is identified. |
| Scenarios.LoadedSampleScenario | tests/versionidentification_tests.py:108-116 | The loaded `signatures_files` covers the loaded one-version catalog, whose required paths are only ["file.js"], so the two lists differ. |
| Scenarios.FetchRequestsScenario | tests/versionidentification_tests.py:20-29 | Fetching the three test paths requests target + "readme.html", target + "style.css" and target + "wp-include/file.js", in that order. |

## Left out

- The HTTP engine (hammertime's `request` and `successful_requests`): it becomes the `respond` parameter, a deterministic outcome per URL; concurrency, retries and timeouts are not modelled.
- Fetching.FetchFiles: states which files are produced, not their order, because the engine yields responses in completion order; identification is proved independent of that order instead.
- Loading the JSON catalog (`load_versions_signatures`, the marshmallow schema and the sample file): a foreign library plus file I/O. Catalogs are Dafny values; an algorithm name is resolved to an `Algo` when a signature is built, so a signature with an unknown algorithm, which would make Python's hashing raise at match time, cannot be expressed.
- The digest arithmetic of SHA-256 and MD5: the digest is the parameter `h`. Scenario lemmas assume only that `h` gives different digests for the different contents they compare.
- Digest algorithms other than SHA-256 and MD5.
- The `VersionIdentification` constructor and the test doubles.
- Identification.IdentifyVersion: the Unknown result on zero evidence and the first-occurrence tie-break of the closest pass are assumptions; the tests assert neither.
- Digest comparison is exact string equality, as Python's `==` on the hex strings; a case-insensitive comparison of hex digests is not modelled, and the tests only use lower-case digests.
- An empty fetch is not Unknown in every catalog: with a strict conjunction over signatures, a version that has no signatures is an exact match for any files (Matching.EmptyDefinitionMatchesAnything), so zero evidence gives Unknown only when every version has a signature.
- Abandoning an in-flight fetch: the model has no partial fetch phase.
- Catalog.RequiredPaths: the source does not derive `signatures_files` from the loaded signatures. The loader test's catalog has only a file.js signature, yet its `signatures_files` also holds readme.html and my_file.css (Scenarios.LoadedSampleScenario). How that list is read from the catalog file is not modelled; fetching takes it as an input list, and the model only proves the required paths are the least list it must cover. Their first-occurrence order is an assumption.
