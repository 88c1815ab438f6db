/** The `Symbols` service object (Symbols.cs): ingestion of regular and
    symbols packages into the symbols feed, the query delegations to the
    global package index, the removal stubs and the validator. */
module SymbolsService {
  import opened Common
  import opened Extraction
  import opened FeedIndex

  /** Why an operation fails. */
  datatype Error = NotImplemented

  /** A handle on one package's forward index (an AssetIndexFile). */
  datatype AssetIndexFile = AssetIndexFile(path: Path, package: Identity)

  /** A diagnostic the validator reports. */
  type LogMessage = string

  /** GetAssetIndexFile (lines 267-271). */
  function GetAssetIndexFile(env: Env, package: Identity): AssetIndexFile {
    AssetIndexFile(env.packageIndexPath(package), package)
  }

  /** The identities of `ps` whose id equals `id`, ignoring case. */
  function PackagesWithId(ps: set<Identity>, id: string): set<Identity> {
    set p | p in ps && EqualsIgnoreCase(p.id, id)
  }

  /** Ids that differ only in case select the same packages. */
  lemma PackagesWithIdIgnoresCase(ps: set<Identity>, a: string, b: string)
    requires EqualsIgnoreCase(a, b)
    ensures PackagesWithId(ps, a) == PackagesWithId(ps, b)
  {
    forall p | p in ps
      ensures EqualsIgnoreCase(p.id, a) <==> EqualsIgnoreCase(p.id, b)
    {
      EqualsIgnoreCaseEquivalence(p.id, a, b);
      EqualsIgnoreCaseEquivalence(p.id, b, a);
      EqualsIgnoreCaseEquivalence(a, b, b);
    }
  }

  /** A listed package is found by its own id. */
  lemma PackagesWithIdFindsOwnId(ps: set<Identity>, p: Identity)
    requires p in ps
    ensures p in PackagesWithId(ps, p.id)
  {
    EqualsIgnoreCaseEquivalence(p.id, p.id, p.id);
  }

  /** Ingesting a symbols package that yields artifacts registers it in the
      global index's regular set, where a by-id query over that set finds
      it; no ingestion adds to the global symbols set. */
  lemma IngestedSymbolsPackageIsListed(s: FeedState, p: Identity, fs: seq<PackageFile>)
    requires fs != []
    ensures p in PackagesWithId(Ingest(s, p, fs, true).packageIndex.packages, p.id)
  {
    PackagesWithIdFindsOwnId(Ingest(s, p, fs, true).packageIndex.packages, p);
  }

  lemma IngestKeepsGlobalSymbols(s: FeedState, p: Identity, fs: seq<PackageFile>, isSymbols: bool)
    ensures Ingest(s, p, fs, isSymbols).packageIndex.symbols == s.packageIndex.symbols
    ensures !isSymbols ==> Ingest(s, p, fs, isSymbols).packageIndex == s.packageIndex
  {
  }

  /** The dictionary of lines 243-252: one forward-index handle per
      distinct identity of `packages` followed by `symbolsPackages`, each
      added once (`added` counts the Dictionary.Add calls). */
  method CollectAssetIndexFiles(env: Env, packages: set<Identity>, symbolsPackages: set<Identity>)
    returns (files: map<Identity, AssetIndexFile>, added: nat)
    ensures files.Keys == packages + symbolsPackages
    ensures forall p :: p in files ==> files[p] == GetAssetIndexFile(env, p)
    ensures added == |packages + symbolsPackages|
  {
    files, added := AddAssetIndexFiles(env, map[], 0, packages);
    files, added := AddAssetIndexFiles(env, files, added, symbolsPackages);
  }

  /** One pass of the loop of lines 246-252 over a set, whose enumeration
      order is not specified: elements are picked in any order, and an
      identity already present is not added again. */
  method AddAssetIndexFiles(env: Env, files0: map<Identity, AssetIndexFile>, added0: nat, packages: set<Identity>)
    returns (files: map<Identity, AssetIndexFile>, added: nat)
    requires added0 == |files0.Keys|
    requires forall p :: p in files0 ==> files0[p] == GetAssetIndexFile(env, p)
    ensures files.Keys == files0.Keys + packages
    ensures forall p :: p in files ==> files[p] == GetAssetIndexFile(env, p)
    ensures added == |files.Keys|
  {
    files, added := files0, added0;
    var rest := packages;
    while rest != {}
      invariant rest <= packages
      invariant forall p :: p in files <==> p in files0 || (p in packages && p !in rest)
      invariant forall p :: p in files ==> files[p] == GetAssetIndexFile(env, p)
      invariant added == |files.Keys|
      decreases rest
    {
      var package :| package in rest;
      if package !in files {
        files := files[package := GetAssetIndexFile(env, package)];
        added := added + 1;
      }
      rest := rest - {package};
    }
    assert files.Keys == files0.Keys + packages;
  }

  /** The service: the content store, the global package index and the
      reverse and forward indexes it maintains, over the feed's path and
      parsing services `env`. */
  class Symbols {
    const env: Env
    var store: map<Path, Bytes>
    var packageIndex: PackageSets
    var reverse: map<Path, PackageSets>
    var forward: map<Identity, AssetSets>

    /** The state as a value. */
    function State(): FeedState
      reads this
    {
      FeedState(store, packageIndex, reverse, forward)
    }

    /** A service over the feed that the storage already holds (lines
        23-27 open the global index at its fixed path and read nothing). */
    constructor(env: Env, feed: FeedState)
      ensures this.env == env && State() == feed
    {
      this.env := env;
      store, packageIndex, reverse, forward := feed.store, feed.packageIndex, feed.reverse, feed.forward;
    }

    /** AddPackageAsync(PackageInput) (lines 29-32). */
    method AddPackage(input: PackageInput)
      modifies this
      ensures State() == Ingest(old(State()), input.identity, Assemblies(env, input.entries), false)
      ensures Consistent(old(State())) ==> Consistent(State())
    {
      AddPackageAs(input, false);
    }

    /** AddSymbolsPackageAsync (lines 72-75). */
    method AddSymbolsPackage(input: PackageInput)
      modifies this
      ensures State() == Ingest(old(State()), input.identity, Assemblies(env, input.entries), true)
      ensures Consistent(old(State())) ==> Consistent(State())
    {
      AddPackageAs(input, true);
    }

    /** The private AddPackageAsync(packageInput, isSymbolsPackage) (lines
        34-65), its concurrent tasks run one after the other. */
    method AddPackageAs(input: PackageInput, isSymbolsPackage: bool)
      modifies this
      ensures State() == Ingest(old(State()), input.identity, Assemblies(env, input.entries), isSymbolsPackage)
      ensures Consistent(old(State())) ==> Consistent(State())
    {
      var p := input.identity;
      var assemblies := GetAssemblies(env, input.entries);
      if |assemblies| > 0 {
        AssembliesProperties(env, input.entries);
        if isSymbolsPackage {
          packageIndex := AddIdentity(packageIndex, p, false);
        }
        StoreAssemblies(assemblies);
        IndexAssemblies(p, assemblies, isSymbolsPackage);
        IndexPackage(p, assemblies, isSymbolsPackage);
      }
      if Consistent(old(State())) {
        IngestConsistent(old(State()), p, assemblies, isSymbolsPackage);
      }
    }

    /** The AddAssemblyAsync tasks of line 50, one per artifact. The
        artifacts come from GetAssembliesAsync, so each one's asset path is
        the one derived from its name and hash. */
    method StoreAssemblies(assemblies: seq<PackageFile>)
      modifies this
      requires forall a :: a in assemblies ==> WellFormed(env, a)
      ensures store == WriteAssets(old(store), assemblies)
      ensures packageIndex == old(packageIndex) && reverse == old(reverse) && forward == old(forward)
    {
      for i := 0 to |assemblies|
        invariant store == WriteAssets(old(store), assemblies[..i])
        invariant packageIndex == old(packageIndex) && reverse == old(reverse) && forward == old(forward)
      {
        assert assemblies[..i + 1][..i] == assemblies[..i];
        assert WellFormed(env, assemblies[i]);
        AddAssembly(assemblies[i]);
      }
      assert assemblies[..|assemblies|] == assemblies;
    }

    /** The AddAssemblyToPackageIndexAsync tasks of line 53, one per
        artifact. */
    method IndexAssemblies(package: Identity, assemblies: seq<PackageFile>, isSymbolsPackage: bool)
      modifies this
      ensures reverse == AddReverse(old(reverse), package, assemblies, isSymbolsPackage)
      ensures store == old(store) && packageIndex == old(packageIndex) && forward == old(forward)
    {
      for i := 0 to |assemblies|
        invariant reverse == AddReverse(old(reverse), package, assemblies[..i], isSymbolsPackage)
        invariant store == old(store) && packageIndex == old(packageIndex) && forward == old(forward)
      {
        assert assemblies[..i + 1][..i] == assemblies[..i];
        AddAssemblyToPackageIndex(package, assemblies[i].indexFile, isSymbolsPackage);
      }
      assert assemblies[..|assemblies|] == assemblies;
    }

    /** The AddPackageToAssemblyIndexAsync tasks of line 56: one per
        artifact, each adding the pairs of all the artifacts, so that every
        call after the first changes nothing. */
    method IndexPackage(package: Identity, assemblies: seq<PackageFile>, isSymbolsPackage: bool)
      modifies this
      ensures forward == if assemblies == [] then old(forward) else AddForward(old(forward), package, assemblies, isSymbolsPackage)
      ensures store == old(store) && packageIndex == old(packageIndex) && reverse == old(reverse)
    {
      for i := 0 to |assemblies|
        invariant forward == if i == 0 then old(forward) else AddForward(old(forward), package, assemblies, isSymbolsPackage)
        invariant store == old(store) && packageIndex == old(packageIndex) && reverse == old(reverse)
      {
        AddForwardIdempotent(old(forward), package, assemblies, isSymbolsPackage);
        AddPackageToAssemblyIndex(package, assemblies, isSymbolsPackage);
      }
    }

    /** AddAssemblyAsync (lines 102-117): the bytes are written only when
        nothing is stored at the artifact's path. */
    method AddAssembly(assembly: PackageFile)
      modifies this
      ensures var path := env.assemblyFilePath(assembly.fileName, assembly.hash);
        store == if path in old(store) then old(store) else old(store)[path := assembly.entry.bytes]
      ensures packageIndex == old(packageIndex) && reverse == old(reverse) && forward == old(forward)
    {
      var path := env.assemblyFilePath(assembly.fileName, assembly.hash);
      if path !in store {
        store := store[path := assembly.entry.bytes];
      }
    }

    /** AddAssemblyToPackageIndexAsync (lines 129-141): the reverse index at
        `indexFile`, empty when never written, gains the package in the set
        of its flavour. */
    method AddAssemblyToPackageIndex(package: Identity, indexFile: Path, isSymbolsPackage: bool)
      modifies this
      ensures reverse == old(reverse)[indexFile := AddIdentity(ReverseAt(old(reverse), indexFile), package, isSymbolsPackage)]
      ensures store == old(store) && packageIndex == old(packageIndex) && forward == old(forward)
    {
      var index := ReverseAt(reverse, indexFile);
      reverse := reverse[indexFile := AddIdentity(index, package, isSymbolsPackage)];
    }

    /** AddPackageToAssemblyIndexAsync (lines 143-158): the package's
        forward index gains every (asset, index) pair in the set of its
        flavour. */
    method AddPackageToAssemblyIndex(package: Identity, assemblies: seq<PackageFile>, isSymbolsPackage: bool)
      modifies this
      ensures forward == AddForward(old(forward), package, assemblies, isSymbolsPackage)
      ensures store == old(store) && packageIndex == old(packageIndex) && reverse == old(reverse)
    {
      var assets := IndexEntries(assemblies);
      forward := forward[package := AddEntries(ForwardAt(forward, package), assets, isSymbolsPackage)];
    }

    /** RemovePackageAsync (lines 67-70): reports that nothing was removed
        and changes nothing. */
    method RemovePackage(package: Identity) returns (removed: bool)
      ensures !removed
    {
      removed := false;
    }

    /** RemoveSymbolsPackageAsync (lines 77-80): always fails as not
        implemented. */
    method RemoveSymbolsPackage(package: Identity) returns (error: Option<Error>)
      ensures error == Some(NotImplemented)
    {
      error := Some(NotImplemented);
    }

    /** GetPackagesAsync (lines 82-85). */
    function GetPackages(): (r: set<Identity>)
      reads this
      ensures r == State().packageIndex.packages
    {
      packageIndex.packages
    }

    /** GetPackagesByIdAsync (lines 87-90). */
    function GetPackagesById(id: string): (r: set<Identity>)
      reads this
      ensures r <= GetPackages()
      ensures forall p :: p in GetPackages() ==> (p in r <==> EqualsIgnoreCase(p.id, id))
    {
      PackagesWithId(packageIndex.packages, id)
    }

    /** GetSymbolsPackagesAsync (lines 92-95). */
    function GetSymbolsPackages(): (r: set<Identity>)
      reads this
      ensures r == State().packageIndex.symbols
    {
      packageIndex.symbols
    }

    /** GetSymbolsPackagesByIdAsync (lines 97-100). */
    function GetSymbolsPackagesById(id: string): (r: set<Identity>)
      reads this
      ensures r <= GetSymbolsPackages()
      ensures forall p :: p in GetSymbolsPackages() ==> (p in r <==> EqualsIgnoreCase(p.id, id))
    {
      PackagesWithId(packageIndex.symbols, id)
    }

    /** ValidateAsync (lines 236-265): resolves one forward-index handle per
        distinct listed identity and reports no diagnostics, since the
        cross-check is not implemented. */
    method Validate() returns (messages: seq<LogMessage>)
      ensures messages == []
    {
      messages := [];
      var packages := GetPackages();
      var symbolsPackages := GetSymbolsPackages();
      var assetIndexFiles, added := CollectAssetIndexFiles(env, packages, symbolsPackages);
    }
  }
}
