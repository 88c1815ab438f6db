# Sleet symbols service, modelled in Dafny

Sleet is a static NuGet feed generator. Its `Symbols` service
(`src/SleetLib/Services/Symbols.cs`) turns a feed into a symbol server. It
handles each pushed package in three steps:

1. It takes every `.dll` in the package archive and reads it as a
   portable-executable image.
2. It pairs each readable `.dll` with the first `.pdb` whose path without
   extension matches, ignoring case.
3. It stores both files under paths derived from their names and hashes,
   then records three indexes:
   - the global package index;
   - one reverse index per stored file (which packages contributed it);
   - one forward index per package (which files it contributed, each with
     the path of that file's reverse index).

The model has four modules:

- `Common` (`common.dfy`): byte strings, storage paths, ordinal
  case-insensitive comparison, and the subsequence relation.
- `Extraction` (`extraction.dfy`): `GetAssembliesAsync`. The loop
  `GetAssemblies` is proved equal to a specification function, `Assemblies`,
  which is:
  - the artifacts of each binary candidate (`ArtifactsFor`), concatenated in
    archive order (`Candidates`);
  - then filtered to the first artifact per storage path (`Dedup`).

  Lemmas about `Assemblies` state the properties of the result.
- `FeedIndex` (`feed_index.dfy`): the feed state as a value (`FeedState`)
  and the net effect of one `AddPackageAsync` call (`Ingest`). It proves:
  - what changes and that nothing else does;
  - that the state only grows;
  - that ingesting twice equals ingesting once;
  - that the cross-index consistency invariant `Consistent` is preserved.
- `SymbolsService` (`symbols_service.dfy`): the `Symbols` class. It covers:
  - ingestion, as methods that update the store and index fields in place
    and are proved to produce exactly `Ingest`;
  - the query delegations and the removal stubs;
  - the validator's handle dictionary.

The services the class calls but does not define are fields of the datatype
`Extraction.Env`, deterministic and otherwise unconstrained:
- portable-executable parsing and hashing;
- `PathUtility.GetFullPathWithoutExtension`;
- `FileInfo.Name`;
- the three `SymbolsIndexUtility` path functions.

Modelling decisions:
- `ISleetFile` values are identified by their path: `Source.Get` of one path
  yields the same file. The `seen` set is therefore a set of paths.
- The global index is registered through `PackageIndex.AddPackageAsync`
  (line 46). That is the regular-package overload: lines 133-140 choose
  between it and `AddSymbolsPackageAsync` explicitly. The model therefore
  adds a symbols package to the **regular** set of the global index, and no
  ingestion ever adds to the global symbols set (`IngestKeepsGlobalSymbols`).
  For the same reason, the rule that the global index covers every package
  with a non-empty forward index holds in the code only for packages that
  contributed symbols artifacts (`SymbolsRegistered`). Regular packages are
  never added to this index.
- `PackageIndexFile` (the global index, the public `PackageIndex` property
  of line 21, and each reverse index) and `AssetIndexFile` (each forward
  index) are modelled as pairs of sets (`PackageSets`, `AssetSets`). An
  index that was never written reads as empty (`ReverseAt`, `ForwardAt`).
- By-id queries match ids with ordinal case-insensitive equality, as NuGet
  ids do.
- `AddPackageToAssemblyIndexAsync` is called once per artifact, each time
  with the whole artifact list (line 56). `IndexPackage` makes the same
  calls; every call after the first changes nothing (`AddForwardIdempotent`).

## Model

| member | source | states |
|---|---|---|
| Common.EqualsIgnoreCaseAt | src/SleetLib/Services/Symbols.cs:191-193 | ordinal ignore-case equality holds iff the lengths are equal and the strings agree position by position after upper-casing |
| Common.EqualsIgnoreCaseEquivalence | src/SleetLib/Services/Symbols.cs:191-193 | ignore-case equality is reflexive, symmetric and transitive |
| Extraction.DllIsNotPdb | src/SleetLib/Services/Symbols.cs:165-171 | no entry is both a `.dll` candidate and a `.pdb` candidate |
| Extraction.EntriesEndingWithMembers | src/SleetLib/Services/Symbols.cs:165-171 | an entry is in a candidate list iff it is in the archive and its full name ends with the suffix, ignoring case |
| Extraction.EntriesEndingWithKeepsOrder | src/SleetLib/Services/Symbols.cs:165-171 | each candidate list is a subsequence of the archive entries, so archive order is kept |
| Extraction.FindPdbSpec | src/SleetLib/Services/Symbols.cs:189-193 | the chosen `.pdb` is the first whose extension-stripped path equals the `.dll`'s, ignoring case; there is none iff no `.pdb` matches |
| Extraction.ArtifactsForSpec | src/SleetLib/Services/Symbols.cs:180-229 | a `.dll` that does not parse contributes nothing. One that parses contributes its own artifact carrying the assembly hash. When some `.pdb` pairs, it then contributes the first pairing `.pdb`'s artifact, carrying the pdb hash read from the `.dll`. Every artifact's paths are derived from its name and hash |
| Extraction.Dedup | src/SleetLib/Services/Symbols.cs:211-228 | the kept artifacts cover exactly the storage paths of the input |
| Extraction.DedupNoDuplicates | src/SleetLib/Services/Symbols.cs:163 | no two kept artifacts share a storage path, and every kept artifact comes from the input |
| Extraction.DedupKeepsOrder | src/SleetLib/Services/Symbols.cs:173-231 | the kept artifacts are a subsequence of the input |
| Extraction.DedupKeepsFirst | src/SleetLib/Services/Symbols.cs:207-227 | on a storage-path collision the first artifact with that path is kept |
| Extraction.AssembliesProperties | src/SleetLib/Services/Symbols.cs:160-234 | the result has no duplicate storage paths, covers every candidate's path and is a subsequence of the candidates. Each element is well formed and comes from a parsed archive `.dll` entry as `ArtifactsFor` describes |
| Extraction.UnparsableDllIsSkipped | src/SleetLib/Services/Symbols.cs:180-204 | inserting a `.dll` that does not parse anywhere in an archive does not change the result |
| Extraction.ReadAssembly | src/SleetLib/Services/Symbols.cs:175-196 | `valid` holds iff the image parses; the hashes and the chosen `.pdb` are exactly those from which `ArtifactsFor` builds the artifacts |
| Extraction.AddUnseen | src/SleetLib/Services/Symbols.cs:212-228 | `seen.Add`/`result.Add` advance the result and the seen set exactly as `Dedup` and `AssetPaths` do for one more artifact |
| Extraction.GetAssemblies | src/SleetLib/Services/Symbols.cs:160-234 | the loop returns `Assemblies(env, entries)`, which has no duplicate storage paths |
| FeedIndex.IndexEntriesMembers | src/SleetLib/Services/Symbols.cs:148 | the entries handed to the forward index are exactly the (asset path, index path) pairs of the artifacts, each pair taken from one artifact |
| FeedIndex.AddIdentity | src/SleetLib/Services/Symbols.cs:129-141 | the flavour's package set gains the identity; the other set is unchanged |
| FeedIndex.AddEntries | src/SleetLib/Services/Symbols.cs:150-157 | the flavour's asset set gains the entries; the other set is unchanged |
| FeedIndex.WriteAssetsSpec | src/SleetLib/Services/Symbols.cs:102-117 | the store gains exactly the artifacts' paths, and bytes already stored are never overwritten |
| FeedIndex.WriteAssetsFirstWins | src/SleetLib/Services/Symbols.cs:104-115 | a path that was absent ends up holding the bytes of the first artifact with that path |
| FeedIndex.WriteAssetsPresent | src/SleetLib/Services/Symbols.cs:106 | when every path is already stored, the store is unchanged |
| FeedIndex.AddReverseSpec | src/SleetLib/Services/Symbols.cs:129-141 | every artifact's reverse index gains the package in the flavour's set; no other reverse index changes |
| FeedIndex.IngestEffect | src/SleetLib/Services/Symbols.cs:39-64 | an empty artifact list changes nothing. Otherwise: the global index changes only for symbols packages; the store only gains paths and never overwrites; each artifact's reverse index gains the package in the flavour's set; the package's forward index gains every (asset, index) pair in the flavour's set; nothing else changes |
| FeedIndex.IngestLinks | src/SleetLib/Services/Symbols.cs:50-56 | after ingestion each artifact is stored, its reverse index lists the package, and the package's forward index lists the artifact, all in the flavour's sets |
| FeedIndex.IngestGrows | src/SleetLib/Services/Symbols.cs:34-65 | ingestion is append-only: no stored bytes change and no index loses an element |
| FeedIndex.IngestIdempotent | src/SleetLib/Services/Symbols.cs:34-65 | ingesting the same package with the same artifacts twice has the effect of ingesting it once |
| FeedIndex.AddReverseIdempotent | src/SleetLib/Services/Symbols.cs:53 | adding a package to the same reverse indexes twice equals adding it once |
| FeedIndex.AddForwardIdempotent | src/SleetLib/Services/Symbols.cs:56 | adding the same forward entries twice equals adding them once |
| FeedIndex.EmptyFeedConsistent | src/SleetLib/Services/Symbols.cs:34-65 | a brand-new feed, with nothing stored or indexed, satisfies the consistency invariant that ingestion preserves |
| FeedIndex.IngestKeepsForwardLinked | src/SleetLib/Services/Symbols.cs:50-56 | ingestion preserves this: every forward entry names a stored asset and a reverse index that lists the package in the same flavour |
| FeedIndex.IngestKeepsReverseLinked | src/SleetLib/Services/Symbols.cs:53-56 | ingestion preserves this: every package a reverse index lists has a forward entry of the same flavour pointing back at that reverse index |
| FeedIndex.IngestKeepsSymbolsRegistered | src/SleetLib/Services/Symbols.cs:44-47 | ingestion preserves this: every package with symbols assets is in the global index |
| FeedIndex.IngestConsistent | src/SleetLib/Services/Symbols.cs:34-65 | ingestion keeps the store and all indexes consistent with each other |
| SymbolsService.PackagesWithIdIgnoresCase | src/SleetLib/Services/Symbols.cs:87-100 | ids that differ only in ASCII case select the same packages |
| SymbolsService.PackagesWithIdFindsOwnId | src/SleetLib/Services/Symbols.cs:87-90 | a listed package is found by a query on its own id |
| SymbolsService.IngestedSymbolsPackageIsListed | src/SleetLib/Services/Symbols.cs:44-47 | a symbols package that yields artifacts is found afterwards by a by-id query on the global regular set |
| SymbolsService.IngestKeepsGlobalSymbols | src/SleetLib/Services/Symbols.cs:44-47 | no ingestion changes the global symbols set, and a regular ingestion leaves the global index unchanged |
| SymbolsService.CollectAssetIndexFiles | src/SleetLib/Services/Symbols.cs:243-252 | the dictionary's keys are exactly the union of regular and symbols packages. Each value is that identity's forward-index handle (`GetAssetIndexFile`). Exactly one handle is added per distinct identity |
| SymbolsService.AddAssetIndexFiles | src/SleetLib/Services/Symbols.cs:246-252 | one pass over a set: the keys gain exactly the set's identities, identities already present are not added again, and the count of added handles equals the number of keys |
| SymbolsService.Symbols.constructor | src/SleetLib/Services/Symbols.cs:23-27 | a new service works over whatever feed the storage already holds, unchanged; opening it reads and writes nothing |
| SymbolsService.Symbols.AddPackage | src/SleetLib/Services/Symbols.cs:29-32 | the new state is `Ingest` of the old one with the package's artifacts, regular flavour; consistency is preserved |
| SymbolsService.Symbols.AddSymbolsPackage | src/SleetLib/Services/Symbols.cs:72-75 | the new state is `Ingest` of the old one with the package's artifacts, symbols flavour; consistency is preserved |
| SymbolsService.Symbols.AddPackageAs | src/SleetLib/Services/Symbols.cs:34-65 | running the global-index update, then the store writes, the reverse-index updates and the forward-index updates in sequence yields exactly `Ingest(old state, identity, Assemblies(...), flavour)`; consistency is preserved |
| SymbolsService.Symbols.StoreAssemblies | src/SleetLib/Services/Symbols.cs:50 | writing every artifact in turn leaves the store equal to `WriteAssets` of the old store; the indexes are untouched |
| SymbolsService.Symbols.IndexAssemblies | src/SleetLib/Services/Symbols.cs:53 | updating every artifact's reverse index in turn yields `AddReverse` of the old reverse indexes; nothing else changes |
| SymbolsService.Symbols.IndexPackage | src/SleetLib/Services/Symbols.cs:56 | one forward-index update per artifact, each with the whole list, yields `AddForward` once (nothing for an empty list); nothing else changes |
| SymbolsService.Symbols.AddAssembly | src/SleetLib/Services/Symbols.cs:102-117 | the artifact's bytes are stored at `GetAssemblyFilePath(name, hash)` only when that path is absent; nothing else changes |
| SymbolsService.Symbols.AddAssemblyToPackageIndex | src/SleetLib/Services/Symbols.cs:129-141 | the reverse index at the given path, empty if never written, gains the package in the flavour's set; nothing else changes |
| SymbolsService.Symbols.AddPackageToAssemblyIndex | src/SleetLib/Services/Symbols.cs:143-158 | the package's forward index gains the (asset, index) pair of every artifact in the flavour's set; nothing else changes |
| SymbolsService.Symbols.RemovePackage | src/SleetLib/Services/Symbols.cs:67-70 | reports that nothing was removed and changes nothing |
| SymbolsService.Symbols.RemoveSymbolsPackage | src/SleetLib/Services/Symbols.cs:77-80 | always ends in the not-implemented failure and changes nothing |
| SymbolsService.Symbols.GetPackages | src/SleetLib/Services/Symbols.cs:82-85 | the regular set of the global index |
| SymbolsService.Symbols.GetPackagesById | src/SleetLib/Services/Symbols.cs:87-90 | exactly the regular packages whose id equals the given id, ignoring case |
| SymbolsService.Symbols.GetSymbolsPackages | src/SleetLib/Services/Symbols.cs:92-95 | the symbols set of the global index |
| SymbolsService.Symbols.GetSymbolsPackagesById | src/SleetLib/Services/Symbols.cs:97-100 | exactly the symbols packages whose id equals the given id, ignoring case |
| SymbolsService.Symbols.Validate | src/SleetLib/Services/Symbols.cs:236-265 | builds the handle dictionary and returns an empty message list, without changing the feed |

## Left out

- Concurrency: the `Task.WhenAll` fan-outs (lines 59, 255) and `RunWithLockAsync` (line 109) become one sequential update. Interleavings with other ingestions are not modelled.
- Cancellation tokens and the exceptions the store or the index files may raise: every store and index operation is modelled as succeeding.
- Portable-executable parsing and the two hash functions (lines 182-187): an uninterpreted partial function `Env.parse`, where `None` stands for any exception caught at line 197.
- Exceptions thrown outside the `try` block of `GetAssembliesAsync`, by `new FileInfo(...)` (lines 207, 220) or by `Source.Get` and the `SymbolsIndexUtility` path functions (lines 208-209, 221-222): such a throw aborts `GetAssembliesAsync` and with it the whole `AddPackageAsync` call before anything is written. `Env.fileName` and the path functions are total in the model, so this abort path is not modelled.
- Exceptions thrown by `GetFullPathWithoutExtension` or `FirstOrDefault` inside the `try` block: they would also discard the binary. The model treats these functions as total.
- Opening zip entries and copying them to memory streams (lines 110, 182): an entry's bytes are an opaque value.
- The bodies of `SymbolsIndexUtility`'s path functions, `PathUtility.GetFullPathWithoutExtension` and `FileInfo.Name`: deterministic uninterpreted functions. `GetFile` and `SymbolsUtility.GetSymbolsServerPath` (lines 119-124) are never called and are not modelled.
- The persistence and merging internals of `PackageIndexFile` and `AssetIndexFile`, including `persistWhenEmpty`: each index is a pair of sets.
- Fetching the forward indexes in `ValidateAsync` (line 255) is storage I/O and is not modelled. The drift check described in comments at lines 260-262 is not implemented in the code, so it is not in the model.
- Logging calls (lines 63, 200-201).
- Common.EqualsIgnoreCase: upper-cases only the ASCII letters. Ordinal ignore-case comparison also folds other letters, so for non-ASCII names the model may pair, deduplicate or match ids differently.
- SymbolsService.Symbols.GetPackagesById: the id filter lives in `PackageIndexFile`, which is not part of this model. The model filters with ordinal ignore-case id equality. The same applies to GetSymbolsPackagesById.
- SymbolsService.Symbols.StoreAssemblies: requires that each artifact's asset path is the one derived from its name and hash. Every artifact from `GetAssembliesAsync` has such a path (`AssembliesProperties`).
- Extraction.Identity: identities are assumed canonical and compare field by field. NuGet's `PackageIdentity` equality (ids ignoring case, versions after normalisation) is not modelled. So `Foo 1.0` and `foo 1.0.0` are two identities in the global and reverse-index sets, in the forward-index keys and in SymbolsService.CollectAssetIndexFiles, where the source keeps one.
