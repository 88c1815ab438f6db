/** The persistent state that symbols ingestion updates, and the combined
    net effect of one AddPackageAsync call on it as a single sequential
    update (Symbols.cs lines 34-65 and 102-158):
    - the content store, a map from path to bytes;
    - the global package index (regular and symbols package sets);
    - one reverse index per artifact, at the artifact's index path,
      listing the packages that contributed it;
    - one forward index per package, listing the (asset path, index path)
      pairs the package contributed. */
module FeedIndex {
  import opened Common
  import opened Extraction

  /** A package index file: the regular and the symbols package sets. */
  datatype PackageSets = PackageSets(packages: set<Identity>, symbols: set<Identity>)

  /** An AssetIndexEntry: an asset path and the path of its reverse index. */
  datatype AssetEntry = AssetEntry(asset: Path, index: Path)

  /** An asset index file: the regular and the symbols asset sets. */
  datatype AssetSets = AssetSets(assets: set<AssetEntry>, symbolsAssets: set<AssetEntry>)

  datatype FeedState = FeedState(
    store: map<Path, Bytes>,
    packageIndex: PackageSets,
    reverse: map<Path, PackageSets>,
    forward: map<Identity, AssetSets>)

  const NoPackages := PackageSets({}, {})
  const NoAssets := AssetSets({}, {})
  const EmptyFeed := FeedState(map[], NoPackages, map[], map[])

  /** The set of one flavour. */
  function Flavour(s: PackageSets, isSymbols: bool): set<Identity> {
    if isSymbols then s.symbols else s.packages
  }

  function AssetFlavour(s: AssetSets, isSymbols: bool): set<AssetEntry> {
    if isSymbols then s.symbolsAssets else s.assets
  }

  /** PackageIndexFile.AddPackageAsync / AddSymbolsPackageAsync. */
  function AddIdentity(s: PackageSets, p: Identity, isSymbols: bool): (r: PackageSets)
    ensures Flavour(r, isSymbols) == Flavour(s, isSymbols) + {p}
    ensures Flavour(r, !isSymbols) == Flavour(s, !isSymbols)
  {
    if isSymbols then s.(symbols := s.symbols + {p}) else s.(packages := s.packages + {p})
  }

  /** AssetIndexFile.AddAssetsAsync / AddSymbolsAssetsAsync. */
  function AddEntries(s: AssetSets, es: set<AssetEntry>, isSymbols: bool): (r: AssetSets)
    ensures AssetFlavour(r, isSymbols) == AssetFlavour(s, isSymbols) + es
    ensures AssetFlavour(r, !isSymbols) == AssetFlavour(s, !isSymbols)
  {
    if isSymbols then s.(symbolsAssets := s.symbolsAssets + es) else s.(assets := s.assets + es)
  }

  /** A reverse index that was never written reads as empty. */
  function ReverseAt(reverse: map<Path, PackageSets>, q: Path): PackageSets {
    if q in reverse then reverse[q] else NoPackages
  }

  /** A forward index that was never written reads as empty. */
  function ForwardAt(forward: map<Identity, AssetSets>, p: Identity): AssetSets {
    if p in forward then forward[p] else NoAssets
  }

  function IndexPaths(fs: seq<PackageFile>): set<Path> {
    if fs == [] then {} else IndexPaths(fs[..|fs| - 1]) + {fs[|fs| - 1].indexFile}
  }

  /** The entries handed to the forward index (line 148). */
  function IndexEntries(fs: seq<PackageFile>): set<AssetEntry> {
    if fs == [] then {}
    else IndexEntries(fs[..|fs| - 1]) + {AssetEntry(fs[|fs| - 1].assetFile, fs[|fs| - 1].indexFile)}
  }

  lemma {:induction false} IndexEntriesMembers(fs: seq<PackageFile>)
    ensures forall e :: e in IndexEntries(fs) ==> e.asset in AssetPaths(fs) && e.index in IndexPaths(fs)
    ensures forall e :: e in IndexEntries(fs) ==> exists k :: 0 <= k < |fs| && e == AssetEntry(fs[k].assetFile, fs[k].indexFile)
    ensures forall q :: q in IndexPaths(fs) ==> exists e :: e in IndexEntries(fs) && e.index == q
    ensures forall k :: 0 <= k < |fs| ==> AssetEntry(fs[k].assetFile, fs[k].indexFile) in IndexEntries(fs)
  {
    if fs != [] {
      var init := fs[..|fs| - 1];
      IndexEntriesMembers(init);
      assert forall k :: 0 <= k < |init| ==> init[k] == fs[k];
    }
  }

  lemma {:induction false} IndexPathsMembers(fs: seq<PackageFile>)
    ensures forall k :: 0 <= k < |fs| ==> fs[k].indexFile in IndexPaths(fs)
    ensures forall k :: 0 <= k < |fs| ==> fs[k].assetFile in AssetPaths(fs)
  {
    if fs != [] {
      var init := fs[..|fs| - 1];
      IndexPathsMembers(init);
      assert forall k :: 0 <= k < |init| ==> init[k] == fs[k];
    }
  }

  /** AddAssemblyAsync for every artifact (lines 102-117): an artifact's
      bytes are written only when nothing is stored at its path yet. */
  function WriteAssets(store: map<Path, Bytes>, fs: seq<PackageFile>): map<Path, Bytes> {
    if fs == [] then store
    else
      var w := WriteAssets(store, fs[..|fs| - 1]);
      var last := fs[|fs| - 1];
      if last.assetFile in w then w else w[last.assetFile := last.entry.bytes]
  }

  /** The store gains exactly the artifacts' paths, and what was stored
      keeps its bytes. */
  lemma {:induction false} WriteAssetsSpec(store: map<Path, Bytes>, fs: seq<PackageFile>)
    ensures WriteAssets(store, fs).Keys == store.Keys + AssetPaths(fs)
    ensures forall q :: q in store ==> WriteAssets(store, fs)[q] == store[q]
  {
    if fs != [] {
      WriteAssetsSpec(store, fs[..|fs| - 1]);
    }
  }

  /** A newly stored path holds the bytes of the first artifact with that
      path. */
  lemma {:induction false} WriteAssetsFirstWins(store: map<Path, Bytes>, fs: seq<PackageFile>, i: int)
    requires FirstWithPath(fs, i) && fs[i].assetFile !in store
    ensures fs[i].assetFile in WriteAssets(store, fs) && WriteAssets(store, fs)[fs[i].assetFile] == fs[i].entry.bytes
  {
    var init, last := fs[..|fs| - 1], fs[|fs| - 1];
    WriteAssetsSpec(store, init);
    if i < |init| {
      assert FirstWithPath(init, i);
      WriteAssetsFirstWins(store, init, i);
    } else {
      AssetPathsMembers(init);
      assert last.assetFile !in WriteAssets(store, init);
    }
  }

  /** Nothing is written when every artifact's path is already stored. */
  lemma {:induction false} WriteAssetsPresent(store: map<Path, Bytes>, fs: seq<PackageFile>)
    requires AssetPaths(fs) <= store.Keys
    ensures WriteAssets(store, fs) == store
  {
    if fs != [] {
      WriteAssetsPresent(store, fs[..|fs| - 1]);
    }
  }

  /** AddAssemblyToPackageIndexAsync for every artifact (lines 129-141). */
  function AddReverse(reverse: map<Path, PackageSets>, p: Identity, fs: seq<PackageFile>, isSymbols: bool)
    : map<Path, PackageSets>
  {
    if fs == [] then reverse
    else
      var r := AddReverse(reverse, p, fs[..|fs| - 1], isSymbols);
      var q := fs[|fs| - 1].indexFile;
      r[q := AddIdentity(ReverseAt(r, q), p, isSymbols)]
  }

  /** Every artifact's reverse index gains `p` in the flavour's set; no
      other reverse index changes. */
  lemma {:induction false} AddReverseSpec(reverse: map<Path, PackageSets>, p: Identity, fs: seq<PackageFile>, isSymbols: bool)
    ensures AddReverse(reverse, p, fs, isSymbols).Keys == reverse.Keys + IndexPaths(fs)
    ensures forall q :: q in IndexPaths(fs) ==>
      AddReverse(reverse, p, fs, isSymbols)[q] == AddIdentity(ReverseAt(reverse, q), p, isSymbols)
    ensures forall q :: q in reverse && q !in IndexPaths(fs) ==> AddReverse(reverse, p, fs, isSymbols)[q] == reverse[q]
  {
    if fs != [] {
      AddReverseSpec(reverse, p, fs[..|fs| - 1], isSymbols);
    }
  }

  /** AddPackageToAssemblyIndexAsync (lines 143-158). */
  function AddForward(forward: map<Identity, AssetSets>, p: Identity, fs: seq<PackageFile>, isSymbols: bool)
    : map<Identity, AssetSets>
  {
    forward[p := AddEntries(ForwardAt(forward, p), IndexEntries(fs), isSymbols)]
  }

  /** The combined effect of AddPackageAsync once its artifacts `fs` are
      known (lines 39-64). The global index is updated through
      `PackageIndex.AddPackageAsync`, the regular-flavour call. */
  function Ingest(s: FeedState, p: Identity, fs: seq<PackageFile>, isSymbols: bool): FeedState {
    if fs == [] then s
    else FeedState(
      WriteAssets(s.store, fs),
      if isSymbols then AddIdentity(s.packageIndex, p, false) else s.packageIndex,
      AddReverse(s.reverse, p, fs, isSymbols),
      AddForward(s.forward, p, fs, isSymbols))
  }

  /** What one ingestion changes, and that nothing else changes. */
  lemma IngestEffect(s: FeedState, p: Identity, fs: seq<PackageFile>, isSymbols: bool)
    ensures fs == [] ==> Ingest(s, p, fs, isSymbols) == s
    ensures fs != [] ==>
      var r := Ingest(s, p, fs, isSymbols);
      // global index: touched only for symbols packages
      && r.packageIndex == (if isSymbols then AddIdentity(s.packageIndex, p, false) else s.packageIndex)
      // store: gains the artifacts' paths, never overwrites
      && r.store.Keys == s.store.Keys + AssetPaths(fs)
      && (forall q :: q in s.store ==> r.store[q] == s.store[q])
      && (forall i :: FirstWithPath(fs, i) && fs[i].assetFile !in s.store ==>
            fs[i].assetFile in r.store && r.store[fs[i].assetFile] == fs[i].entry.bytes)
      // reverse indexes: each artifact's gains p in the flavour's set
      && r.reverse.Keys == s.reverse.Keys + IndexPaths(fs)
      && (forall q :: q in IndexPaths(fs) ==>
            Flavour(r.reverse[q], isSymbols) == Flavour(ReverseAt(s.reverse, q), isSymbols) + {p}
            && Flavour(r.reverse[q], !isSymbols) == Flavour(ReverseAt(s.reverse, q), !isSymbols))
      && (forall q :: q in s.reverse && q !in IndexPaths(fs) ==> r.reverse[q] == s.reverse[q])
      // forward indexes: p's gains every (asset, index) pair in the flavour's set
      && r.forward.Keys == s.forward.Keys + {p}
      && AssetFlavour(r.forward[p], isSymbols) == AssetFlavour(ForwardAt(s.forward, p), isSymbols) + IndexEntries(fs)
      && AssetFlavour(r.forward[p], !isSymbols) == AssetFlavour(ForwardAt(s.forward, p), !isSymbols)
      && (forall p' :: p' in s.forward && p' != p ==> r.forward[p'] == s.forward[p'])
  {
    if fs != [] {
      WriteAssetsSpec(s.store, fs);
      forall i | FirstWithPath(fs, i) && fs[i].assetFile !in s.store
        ensures fs[i].assetFile in WriteAssets(s.store, fs) && WriteAssets(s.store, fs)[fs[i].assetFile] == fs[i].entry.bytes
      {
        WriteAssetsFirstWins(s.store, fs, i);
      }
      AddReverseSpec(s.reverse, p, fs, isSymbols);
    }
  }

  /** After a non-empty ingestion every artifact is stored, its reverse
      index lists the package, and the package's forward index lists it. */
  lemma IngestLinks(s: FeedState, p: Identity, fs: seq<PackageFile>, isSymbols: bool, k: int)
    requires 0 <= k < |fs|
    ensures var r := Ingest(s, p, fs, isSymbols);
      && fs[k].assetFile in r.store
      && fs[k].indexFile in r.reverse && p in Flavour(r.reverse[fs[k].indexFile], isSymbols)
      && p in r.forward && AssetEntry(fs[k].assetFile, fs[k].indexFile) in AssetFlavour(r.forward[p], isSymbols)
  {
    IngestEffect(s, p, fs, isSymbols);
    IndexPathsMembers(fs);
    IndexEntriesMembers(fs);
  }

  /** `t` extends `s`: stored bytes are kept and no index loses anything. */
  ghost predicate Grows(s: FeedState, t: FeedState) {
    && (forall q :: q in s.store ==> q in t.store && t.store[q] == s.store[q])
    && s.packageIndex.packages <= t.packageIndex.packages
    && s.packageIndex.symbols <= t.packageIndex.symbols
    && (forall q :: q in s.reverse ==>
          q in t.reverse && s.reverse[q].packages <= t.reverse[q].packages && s.reverse[q].symbols <= t.reverse[q].symbols)
    && (forall p :: p in s.forward ==>
          p in t.forward && s.forward[p].assets <= t.forward[p].assets && s.forward[p].symbolsAssets <= t.forward[p].symbolsAssets)
  }

  /** Ingestion is append-only. */
  lemma IngestGrows(s: FeedState, p: Identity, fs: seq<PackageFile>, isSymbols: bool)
    ensures Grows(s, Ingest(s, p, fs, isSymbols))
  {
    IngestEffect(s, p, fs, isSymbols);
    if fs != [] {
      var r := Ingest(s, p, fs, isSymbols);
      forall q | q in s.reverse
        ensures s.reverse[q].packages <= r.reverse[q].packages && s.reverse[q].symbols <= r.reverse[q].symbols
      {
        if q in IndexPaths(fs) {
          assert Flavour(s.reverse[q], isSymbols) <= Flavour(r.reverse[q], isSymbols);
          assert Flavour(s.reverse[q], !isSymbols) <= Flavour(r.reverse[q], !isSymbols);
        }
      }
      assert AssetFlavour(ForwardAt(s.forward, p), isSymbols) <= AssetFlavour(r.forward[p], isSymbols);
    }
  }

  /** Ingesting the same package with the same artifacts twice has the
      effect of ingesting it once: one stored blob per path, no duplicate
      index entries. */
  lemma IngestIdempotent(s: FeedState, p: Identity, fs: seq<PackageFile>, isSymbols: bool)
    ensures Ingest(Ingest(s, p, fs, isSymbols), p, fs, isSymbols) == Ingest(s, p, fs, isSymbols)
  {
    if fs != [] {
      var r := Ingest(s, p, fs, isSymbols);
      WriteAssetsSpec(s.store, fs);
      WriteAssetsPresent(r.store, fs);
      AddReverseIdempotent(s.reverse, p, fs, isSymbols);
      assert AddIdentity(r.packageIndex, p, false) == r.packageIndex || !isSymbols;
      AddForwardIdempotent(s.forward, p, fs, isSymbols);
    }
  }

  lemma AddReverseIdempotent(reverse: map<Path, PackageSets>, p: Identity, fs: seq<PackageFile>, isSymbols: bool)
    ensures var r := AddReverse(reverse, p, fs, isSymbols);
      AddReverse(r, p, fs, isSymbols) == r
  {
    var r := AddReverse(reverse, p, fs, isSymbols);
    AddReverseSpec(reverse, p, fs, isSymbols);
    AddReverseSpec(r, p, fs, isSymbols);
    var rr := AddReverse(r, p, fs, isSymbols);
    forall q | q in IndexPaths(fs) ensures rr[q] == r[q] {
      assert Flavour(rr[q], isSymbols) == Flavour(r[q], isSymbols);
      assert Flavour(rr[q], !isSymbols) == Flavour(r[q], !isSymbols);
    }
  }

  lemma AddForwardIdempotent(forward: map<Identity, AssetSets>, p: Identity, fs: seq<PackageFile>, isSymbols: bool)
    ensures var f := AddForward(forward, p, fs, isSymbols);
      AddForward(f, p, fs, isSymbols) == f
  {
  }

  /** Every forward entry of a flavour names a stored asset and a reverse
      index that lists the package in the same flavour. */
  ghost predicate ForwardLinked(s: FeedState, fl: bool) {
    forall p, e :: p in s.forward && e in AssetFlavour(s.forward[p], fl) ==>
      e.asset in s.store && e.index in s.reverse && p in Flavour(s.reverse[e.index], fl)
  }

  /** Every package a reverse index lists in a flavour has a forward entry
      of that flavour pointing back at that reverse index. */
  ghost predicate ReverseLinked(s: FeedState, fl: bool) {
    forall q, p :: q in s.reverse && p in Flavour(s.reverse[q], fl) ==>
      p in s.forward && exists e :: e in AssetFlavour(s.forward[p], fl) && e.index == q
  }

  /** Every package that contributed symbols artifacts is listed in the
      global index. */
  ghost predicate SymbolsRegistered(s: FeedState) {
    forall p :: p in s.forward && s.forward[p].symbolsAssets != {} ==> p in s.packageIndex.packages
  }

  /** The three kinds of index agree with each other and with the store. */
  ghost predicate Consistent(s: FeedState) {
    && ForwardLinked(s, false) && ForwardLinked(s, true)
    && ReverseLinked(s, false) && ReverseLinked(s, true)
    && SymbolsRegistered(s)
  }

  lemma EmptyFeedConsistent()
    ensures Consistent(EmptyFeed)
  {
  }

  lemma IngestKeepsForwardLinked(s: FeedState, p: Identity, fs: seq<PackageFile>, isSymbols: bool, fl: bool)
    requires ForwardLinked(s, fl)
    ensures ForwardLinked(Ingest(s, p, fs, isSymbols), fl)
  {
    if fs != [] {
      var r := Ingest(s, p, fs, isSymbols);
      WriteAssetsSpec(s.store, fs);
      AddReverseSpec(s.reverse, p, fs, isSymbols);
      IndexEntriesMembers(fs);
      forall p', e | p' in r.forward && e in AssetFlavour(r.forward[p'], fl)
        ensures e.asset in r.store && e.index in r.reverse && p' in Flavour(r.reverse[e.index], fl)
      {
        if p' == p && fl == isSymbols && e in IndexEntries(fs) {
          assert e.index in IndexPaths(fs);
        } else {
          assert p' in s.forward && e in AssetFlavour(s.forward[p'], fl);
          ReverseGrows(s, p, fs, isSymbols, e.index, fl);
        }
      }
    }
  }

  /** A reverse index keeps every package it listed. */
  lemma ReverseGrows(s: FeedState, p: Identity, fs: seq<PackageFile>, isSymbols: bool, q: Path, fl: bool)
    requires fs != [] && q in s.reverse
    ensures q in Ingest(s, p, fs, isSymbols).reverse
    ensures Flavour(s.reverse[q], fl) <= Flavour(Ingest(s, p, fs, isSymbols).reverse[q], fl)
  {
    AddReverseSpec(s.reverse, p, fs, isSymbols);
  }

  lemma IngestKeepsReverseLinked(s: FeedState, p: Identity, fs: seq<PackageFile>, isSymbols: bool, fl: bool)
    requires ReverseLinked(s, fl)
    ensures ReverseLinked(Ingest(s, p, fs, isSymbols), fl)
  {
    if fs != [] {
      var r := Ingest(s, p, fs, isSymbols);
      IngestEffect(s, p, fs, isSymbols);
      IndexEntriesMembers(fs);
      forall q, p' | q in r.reverse && p' in Flavour(r.reverse[q], fl)
        ensures p' in r.forward && exists e :: e in AssetFlavour(r.forward[p'], fl) && e.index == q
      {
        if p' == p && fl == isSymbols && q in IndexPaths(fs) {
          var e :| e in IndexEntries(fs) && e.index == q;
          assert e in AssetFlavour(r.forward[p'], fl);
        } else {
          assert q in s.reverse && p' in Flavour(s.reverse[q], fl);
          var e :| e in AssetFlavour(s.forward[p'], fl) && e.index == q;
          assert e in AssetFlavour(r.forward[p'], fl);
        }
      }
    }
  }

  lemma IngestKeepsSymbolsRegistered(s: FeedState, p: Identity, fs: seq<PackageFile>, isSymbols: bool)
    requires SymbolsRegistered(s)
    ensures SymbolsRegistered(Ingest(s, p, fs, isSymbols))
  {
    IngestEffect(s, p, fs, isSymbols);
  }

  /** Ingestion keeps the indexes consistent. */
  lemma IngestConsistent(s: FeedState, p: Identity, fs: seq<PackageFile>, isSymbols: bool)
    requires Consistent(s)
    ensures Consistent(Ingest(s, p, fs, isSymbols))
  {
    IngestKeepsForwardLinked(s, p, fs, isSymbols, false);
    IngestKeepsForwardLinked(s, p, fs, isSymbols, true);
    IngestKeepsReverseLinked(s, p, fs, isSymbols, false);
    IngestKeepsReverseLinked(s, p, fs, isSymbols, true);
    IngestKeepsSymbolsRegistered(s, p, fs, isSymbols);
  }
}
