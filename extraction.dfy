/** Extraction, pairing and deduplication of the debuggable binaries of one
    package (Symbols.GetAssembliesAsync): `.dll` entries are parsed, each
    valid one is paired with its `.pdb` companion, and every resulting
    artifact is kept only if its storage path has not been produced
    before in the same call. */
module Extraction {
  import opened Common

  /** A NuGet package identity (id, version). */
  datatype Identity = Identity(id: string, version: string)

  /** An archive entry: its full name inside the archive and its bytes. */
  datatype Entry = Entry(fullName: string, bytes: Bytes)

  /** A package handed to the feed: its identity and its archive entries. */
  datatype PackageInput = PackageInput(identity: Identity, entries: seq<Entry>)

  /** What the portable-executable reader yields for a valid image: the
      image's symbol-server hash and the hash of the debug file it expects. */
  datatype ImageHashes = ImageHashes(assemblyHash: string, pdbHash: string)

  /** The collaborators whose code is not part of this model, as
      deterministic functions:
      - parse: opening the entry, reading it as a PE image and reading both
        hashes; None when any of it throws;
      - fullPathWithoutExtension: PathUtility.GetFullPathWithoutExtension;
      - fileName: FileInfo.Name, the last segment of a full name;
      - assemblyFilePath: SymbolsIndexUtility.GetAssemblyFilePath;
      - assemblyIndexPath: SymbolsIndexUtility.GetAssemblyToPackageIndexPath;
      - packageIndexPath: SymbolsIndexUtility.GetPackageToAssemblyIndexPath. */
  datatype Env = Env(
    parse: Bytes -> Option<ImageHashes>,
    fullPathWithoutExtension: string -> string,
    fileName: string -> string,
    assemblyFilePath: (string, string) -> Path,
    assemblyIndexPath: (string, string) -> Path,
    packageIndexPath: Identity -> Path)

  /** One extracted artifact, a `.dll` or a `.pdb` (the private PackageFile
      class): its file name, its hash, the archive entry holding its bytes,
      the path it is stored at and the path of its reverse index. */
  datatype PackageFile = PackageFile(
    fileName: string,
    hash: string,
    entry: Entry,
    assetFile: Path,
    indexFile: Path)

  const DllSuffix := ".dll"
  const PdbSuffix := ".pdb"

  predicate IsDll(e: Entry) { EndsWithIgnoreCase(e.fullName, DllSuffix) }
  predicate IsPdb(e: Entry) { EndsWithIgnoreCase(e.fullName, PdbSuffix) }

  /** No entry is both a binary candidate and a debug candidate. */
  lemma DllIsNotPdb(e: Entry)
    ensures !(IsDll(e) && IsPdb(e))
  {
    var n := |e.fullName|;
    if IsDll(e) && IsPdb(e) {
      var tail := e.fullName[n - 4..];
      EqualsIgnoreCaseAt(tail, DllSuffix);
      EqualsIgnoreCaseAt(tail, PdbSuffix);
    }
  }

  /** `Zip.Entries.Where(e => e.FullName.EndsWith(suffix, OrdinalIgnoreCase))`. */
  function EntriesEndingWith(entries: seq<Entry>, suffix: string): seq<Entry> {
    if entries == [] then []
    else
      var init := EntriesEndingWith(entries[..|entries| - 1], suffix);
      var last := entries[|entries| - 1];
      if EndsWithIgnoreCase(last.fullName, suffix) then init + [last] else init
  }

  /** The filtered list holds exactly the entries with the suffix. */
  lemma {:induction false} EntriesEndingWithMembers(entries: seq<Entry>, suffix: string)
    ensures forall e :: e in EntriesEndingWith(entries, suffix) <==> e in entries && EndsWithIgnoreCase(e.fullName, suffix)
  {
    if entries != [] {
      var init := entries[..|entries| - 1];
      EntriesEndingWithMembers(init, suffix);
      assert entries == init + [entries[|entries| - 1]];
    }
  }

  /** ... and keeps them in archive order. */
  lemma {:induction false} EntriesEndingWithKeepsOrder(entries: seq<Entry>, suffix: string)
    ensures IsSubsequence(EntriesEndingWith(entries, suffix), entries)
  {
    if entries == [] {
      SubsequenceEmpty(entries);
    } else {
      var init := entries[..|entries| - 1];
      var last := entries[|entries| - 1];
      var keep := EndsWithIgnoreCase(last.fullName, suffix);
      EntriesEndingWithKeepsOrder(init, suffix);
      assert entries == init + [last];
      var r := EntriesEndingWith(entries, suffix);
      assert r == if keep then EntriesEndingWith(init, suffix) + [last] else EntriesEndingWith(init, suffix);
      SubsequenceSnoc(EntriesEndingWith(init, suffix), init, last, keep);
    }
  }

  lemma {:induction false} EntriesEndingWithAppend(a: seq<Entry>, b: seq<Entry>, suffix: string)
    ensures EntriesEndingWith(a + b, suffix) == EntriesEndingWith(a, suffix) + EntriesEndingWith(b, suffix)
    decreases |b|
  {
    if b == [] {
      assert a + b == a;
    } else {
      var init := b[..|b| - 1];
      EntriesEndingWithAppend(a, init, suffix);
      assert (a + b)[..|a + b| - 1] == a + init;
    }
  }

  /** The binary candidates (line 165). */
  function DllEntries(entries: seq<Entry>): seq<Entry> { EntriesEndingWith(entries, DllSuffix) }

  /** The debug candidates (line 169). */
  function PdbEntries(entries: seq<Entry>): seq<Entry> { EntriesEndingWith(entries, PdbSuffix) }

  /** A debug candidate pairs with a binary whose extension-stripped full
      path is `stem` when its own extension-stripped full path equals it,
      ignoring case. */
  predicate PairsWith(env: Env, pdb: Entry, stem: string) {
    EqualsIgnoreCase(env.fullPathWithoutExtension(pdb.fullName), stem)
  }

  /** `pdbFiles.FirstOrDefault(...)` at lines 191-193, as the position of the
      chosen debug candidate. */
  function FindPdb(env: Env, pdbs: seq<Entry>, stem: string): (r: Option<nat>)
    ensures r.Some? ==> r.value < |pdbs|
  {
    if pdbs == [] then None
    else if PairsWith(env, pdbs[0], stem) then Some(0)
    else match FindPdb(env, pdbs[1..], stem)
      case None => None
      case Some(k) => Some(k + 1)
  }

  /** The chosen debug candidate is the first one that pairs; there is none
      exactly when no debug candidate pairs. */
  lemma {:induction false} FindPdbSpec(env: Env, pdbs: seq<Entry>, stem: string)
    ensures var r := FindPdb(env, pdbs, stem);
      && (r.Some? ==> r.value < |pdbs| && PairsWith(env, pdbs[r.value], stem))
      && (r.Some? ==> forall j :: 0 <= j < r.value ==> !PairsWith(env, pdbs[j], stem))
      && (r.None? <==> forall j :: 0 <= j < |pdbs| ==> !PairsWith(env, pdbs[j], stem))
  {
    if pdbs != [] && !PairsWith(env, pdbs[0], stem) {
      FindPdbSpec(env, pdbs[1..], stem);
      assert forall j :: 1 <= j < |pdbs| ==> pdbs[j] == pdbs[1..][j - 1];
    }
  }

  /** The artifact built from an entry and a hash (lines 207-209, 220-222):
      named by the entry's last path segment, stored and indexed at the
      paths derived from (name, hash). */
  function Artifact(env: Env, entry: Entry, hash: string): PackageFile {
    var name := env.fileName(entry.fullName);
    PackageFile(name, hash, entry, env.assemblyFilePath(name, hash), env.assemblyIndexPath(name, hash))
  }

  /** An artifact's paths are the ones derived from its own name and hash. */
  predicate WellFormed(env: Env, f: PackageFile) {
    && f.assetFile == env.assemblyFilePath(f.fileName, f.hash)
    && f.indexFile == env.assemblyIndexPath(f.fileName, f.hash)
  }

  /** What one binary candidate contributes before deduplication (lines
      180-229, without the `seen` filter). */
  function ArtifactsFor(env: Env, dll: Entry, pdbs: seq<Entry>): seq<PackageFile> {
    match env.parse(dll.bytes)
    case None => []
    case Some(h) =>
      var dllFile := Artifact(env, dll, h.assemblyHash);
      match FindPdb(env, pdbs, env.fullPathWithoutExtension(dll.fullName))
      case None => [dllFile]
      case Some(j) => [dllFile, Artifact(env, pdbs[j], h.pdbHash)]
  }

  /** A binary that does not parse contributes nothing. One that parses
      contributes its own artifact, with the image hash, followed, when some
      debug candidate pairs with it, by the artifact of the FIRST such
      candidate, carrying the debug hash read from the binary. */
  lemma ArtifactsForSpec(env: Env, dll: Entry, pdbs: seq<Entry>)
    ensures var r := ArtifactsFor(env, dll, pdbs);
      && |r| <= 2
      && (r == [] <==> env.parse(dll.bytes).None?)
      && (r != [] ==> r[0] == Artifact(env, dll, env.parse(dll.bytes).value.assemblyHash))
      && (|r| == 2 <==>
            r != [] && exists j :: 0 <= j < |pdbs| && PairsWith(env, pdbs[j], env.fullPathWithoutExtension(dll.fullName)))
      && (|r| == 2 ==>
            var stem := env.fullPathWithoutExtension(dll.fullName);
            exists j :: 0 <= j < |pdbs| && PairsWith(env, pdbs[j], stem)
              && (forall i :: 0 <= i < j ==> !PairsWith(env, pdbs[i], stem))
              && r[1] == Artifact(env, pdbs[j], env.parse(dll.bytes).value.pdbHash))
      && (forall f :: f in r ==> WellFormed(env, f))
  {
    var stem := env.fullPathWithoutExtension(dll.fullName);
    var k := FindPdb(env, pdbs, stem);
    FindPdbSpec(env, pdbs, stem);
    if env.parse(dll.bytes).Some? && k.Some? {
      assert 0 <= k.value < |pdbs| && PairsWith(env, pdbs[k.value], stem);
    }
  }

  /** The contributions of a list of binary candidates, concatenated in
      binary-candidate order. */
  function Concat(contribute: Entry -> seq<PackageFile>, dlls: seq<Entry>): seq<PackageFile> {
    if dlls == [] then []
    else Concat(contribute, dlls[..|dlls| - 1]) + contribute(dlls[|dlls| - 1])
  }

  lemma {:induction false} ConcatAppend(contribute: Entry -> seq<PackageFile>, a: seq<Entry>, b: seq<Entry>)
    ensures Concat(contribute, a + b) == Concat(contribute, a) + Concat(contribute, b)
    decreases |b|
  {
    if b == [] {
      assert a + b == a;
    } else {
      var init, last := b[..|b| - 1], b[|b| - 1];
      ConcatAppend(contribute, a, init);
      assert (a + b)[..|a + b| - 1] == a + init;
      assert (a + b)[|a + b| - 1] == last;
    }
  }

  lemma {:induction false} ConcatFrom(contribute: Entry -> seq<PackageFile>, dlls: seq<Entry>)
    ensures forall f :: f in Concat(contribute, dlls) ==> exists d :: d in dlls && f in contribute(d)
  {
    if dlls != [] {
      var init := dlls[..|dlls| - 1];
      ConcatFrom(contribute, init);
      assert forall d :: d in init ==> d in dlls;
    }
  }

  /** The artifacts of all binary candidates before deduplication. */
  function Candidates(env: Env, dlls: seq<Entry>, pdbs: seq<Entry>): seq<PackageFile> {
    Concat(Contribution(env, pdbs), dlls)
  }

  /** ArtifactsFor as a function of the binary candidate alone. */
  function Contribution(env: Env, pdbs: seq<Entry>): Entry -> seq<PackageFile> {
    d => ArtifactsFor(env, d, pdbs)
  }

  /** Every candidate comes from some binary candidate that parsed. */
  lemma CandidatesFromValidDlls(env: Env, dlls: seq<Entry>, pdbs: seq<Entry>)
    ensures forall f :: f in Candidates(env, dlls, pdbs) ==>
      exists d :: d in dlls && env.parse(d.bytes).Some? && f in ArtifactsFor(env, d, pdbs)
  {
    ConcatFrom(Contribution(env, pdbs), dlls);
    forall d | d in dlls
      ensures ArtifactsFor(env, d, pdbs) != [] ==> env.parse(d.bytes).Some?
    {
      ArtifactsForSpec(env, d, pdbs);
    }
  }

  /** The storage paths of a list of artifacts. */
  function AssetPaths(fs: seq<PackageFile>): set<Path> {
    if fs == [] then {} else AssetPaths(fs[..|fs| - 1]) + {fs[|fs| - 1].assetFile}
  }

  lemma {:induction false} AssetPathsMembers(fs: seq<PackageFile>)
    ensures forall p :: p in AssetPaths(fs) <==> exists i :: 0 <= i < |fs| && fs[i].assetFile == p
  {
    if fs != [] {
      var init := fs[..|fs| - 1];
      AssetPathsMembers(init);
      assert forall i :: 0 <= i < |init| ==> init[i] == fs[i];
    }
  }

  /** Two artifacts never share a storage path. */
  predicate NoDuplicatePaths(fs: seq<PackageFile>) {
    forall i, j :: 0 <= i < j < |fs| ==> fs[i].assetFile != fs[j].assetFile
  }

  /** The `seen` filter of lines 211-215 and 224-228: keep an artifact
      only if no earlier kept artifact has its storage path. The kept
      artifacts cover all storage paths of the input. */
  function Dedup(fs: seq<PackageFile>): (r: seq<PackageFile>)
    ensures AssetPaths(r) == AssetPaths(fs)
  {
    if fs == [] then []
    else
      var d := Dedup(fs[..|fs| - 1]);
      var last := fs[|fs| - 1];
      if last.assetFile in AssetPaths(d) then d
      else
        assert (d + [last])[..|d|] == d;
        d + [last]
  }

  lemma DedupSnoc(fs: seq<PackageFile>, f: PackageFile)
    ensures Dedup(fs + [f]) == if f.assetFile in AssetPaths(fs) then Dedup(fs) else Dedup(fs) + [f]
    ensures AssetPaths(fs + [f]) == AssetPaths(fs) + {f.assetFile}
  {
    assert (fs + [f])[..|fs + [f]| - 1] == fs;
  }

  /** No two kept artifacts share a storage path, and every kept artifact
      comes from the input. */
  lemma {:induction false} DedupNoDuplicates(fs: seq<PackageFile>)
    ensures NoDuplicatePaths(Dedup(fs))
    ensures forall f :: f in Dedup(fs) ==> f in fs
  {
    if fs != [] {
      var init, last := fs[..|fs| - 1], fs[|fs| - 1];
      assert fs == init + [last];
      DedupNoDuplicates(init);
      DedupSnoc(init, last);
      var d := Dedup(init);
      AssetPathsMembers(d);
      if last.assetFile !in AssetPaths(init) {
        assert forall i :: 0 <= i < |d| ==> d[i].assetFile != last.assetFile;
        assert forall i :: 0 <= i < |d| ==> (d + [last])[i] == d[i];
      }
    }
  }

  /** Deduplication keeps the survivors in their original order. */
  lemma {:induction false} DedupKeepsOrder(fs: seq<PackageFile>)
    ensures IsSubsequence(Dedup(fs), fs)
  {
    if fs == [] {
      SubsequenceEmpty(fs);
    } else {
      var init := fs[..|fs| - 1];
      var last := fs[|fs| - 1];
      var keep := last.assetFile !in AssetPaths(init);
      DedupKeepsOrder(init);
      assert init + [last] == fs;
      DedupSnoc(init, last);
      assert Dedup(fs) == if keep then Dedup(init) + [last] else Dedup(init);
      SubsequenceSnoc(Dedup(init), init, last, keep);
    }
  }

  /** `fs[i]` is the first artifact in `fs` with its storage path. */
  predicate FirstWithPath(fs: seq<PackageFile>, i: int) {
    0 <= i < |fs| && forall j :: 0 <= j < i ==> fs[j].assetFile != fs[i].assetFile
  }

  /** On a storage-path collision the first occurrence is the one kept. */
  lemma {:induction false} DedupKeepsFirst(fs: seq<PackageFile>, i: int)
    requires FirstWithPath(fs, i)
    ensures fs[i] in Dedup(fs)
  {
    var init := fs[..|fs| - 1];
    var last := fs[|fs| - 1];
    assert init + [last] == fs;
    DedupSnoc(init, last);
    if i < |fs| - 1 {
      assert FirstWithPath(init, i);
      DedupKeepsFirst(init, i);
    } else {
      AssetPathsMembers(init);
      assert last.assetFile !in AssetPaths(init);
    }
  }

  /** The dedup'ed artifact list of GetAssembliesAsync. */
  function Assemblies(env: Env, entries: seq<Entry>): seq<PackageFile> {
    Dedup(Candidates(env, DllEntries(entries), PdbEntries(entries)))
  }

  /** The result holds no two artifacts with the same storage path, covers
      the storage path of every candidate, keeps candidate order, and holds
      only artifacts of archive `.dll` entries that parsed, paired as
      ArtifactsForSpec describes. */
  lemma AssembliesProperties(env: Env, entries: seq<Entry>)
    ensures NoDuplicatePaths(Assemblies(env, entries))
    ensures AssetPaths(Assemblies(env, entries)) == AssetPaths(Candidates(env, DllEntries(entries), PdbEntries(entries)))
    ensures IsSubsequence(Assemblies(env, entries), Candidates(env, DllEntries(entries), PdbEntries(entries)))
    ensures forall f :: f in Assemblies(env, entries) ==>
      WellFormed(env, f) &&
      exists d :: d in entries && IsDll(d) && env.parse(d.bytes).Some? && f in ArtifactsFor(env, d, PdbEntries(entries))
  {
    var dlls, pdbs := DllEntries(entries), PdbEntries(entries);
    var cs := Candidates(env, dlls, pdbs);
    DedupKeepsOrder(cs);
    DedupNoDuplicates(cs);
    CandidatesFromValidDlls(env, dlls, pdbs);
    EntriesEndingWithMembers(entries, DllSuffix);
    forall f | f in Assemblies(env, entries)
      ensures WellFormed(env, f)
      ensures exists d :: d in entries && IsDll(d) && env.parse(d.bytes).Some? && f in ArtifactsFor(env, d, pdbs)
    {
      assert f in cs;
      var d :| d in dlls && env.parse(d.bytes).Some? && f in ArtifactsFor(env, d, pdbs);
      ArtifactsForSpec(env, d, pdbs);
      assert d in entries && IsDll(d);
    }
  }

  lemma PdbEntriesSkipDll(a: seq<Entry>, d: Entry, b: seq<Entry>)
    requires IsDll(d)
    ensures PdbEntries(a + [d] + b) == PdbEntries(a + b)
  {
    DllIsNotPdb(d);
    EntriesEndingWithAppend(a + [d], b, PdbSuffix);
    EntriesEndingWithAppend(a, [d], PdbSuffix);
    EntriesEndingWithAppend(a, b, PdbSuffix);
    assert [d][..0] == [];
    assert PdbEntries([d]) == [];
  }

  lemma DllEntriesSplit(a: seq<Entry>, d: Entry, b: seq<Entry>)
    requires IsDll(d)
    ensures DllEntries(a + [d] + b) == DllEntries(a) + [d] + DllEntries(b)
  {
    EntriesEndingWithAppend(a + [d], b, DllSuffix);
    EntriesEndingWithAppend(a, [d], DllSuffix);
    assert [d][..0] == [];
    assert DllEntries([d]) == [d];
  }

  /** A binary candidate that does not parse contributes nothing, and the
      remaining binaries are processed as if it were absent. */
  lemma UnparsableDllIsSkipped(env: Env, a: seq<Entry>, d: Entry, b: seq<Entry>)
    requires IsDll(d) && env.parse(d.bytes).None?
    ensures Assemblies(env, a + [d] + b) == Assemblies(env, a + b)
  {
    PdbEntriesSkipDll(a, d, b);
    DllEntriesSplit(a, d, b);
    EntriesEndingWithAppend(a, b, DllSuffix);
    var pdbs := PdbEntries(a + b);
    var da, db := DllEntries(a), DllEntries(b);
    var contribute := Contribution(env, pdbs);
    ConcatAppend(contribute, da + [d], db);
    ConcatAppend(contribute, da, [d]);
    ConcatAppend(contribute, da, db);
    assert [d][..0] == [];
    assert Concat(contribute, [d]) == [];
    assert Candidates(env, DllEntries(a + [d] + b), pdbs) == Candidates(env, DllEntries(a + b), pdbs);
  }

  lemma ConcatStep(contribute: Entry -> seq<PackageFile>, dlls: seq<Entry>, i: nat)
    requires i < |dlls|
    ensures Concat(contribute, dlls[..i + 1]) == Concat(contribute, dlls[..i]) + contribute(dlls[i])
  {
    assert dlls[..i + 1][..i] == dlls[..i];
  }

  /** The `try` block of lines 180-196 for one binary candidate: read its
      hashes and pick its debug candidate; `valid` is false when the image
      cannot be read. The outputs are exactly what ArtifactsFor builds. */
  method ReadAssembly(env: Env, assembly: Entry, pdbFiles: seq<Entry>)
    returns (valid: bool, assemblyHash: string, pdbHash: string, pdbEntry: Option<Entry>)
    ensures valid <==> env.parse(assembly.bytes).Some?
    ensures !valid ==> ArtifactsFor(env, assembly, pdbFiles) == []
    ensures valid && pdbEntry.None? ==> ArtifactsFor(env, assembly, pdbFiles) == [Artifact(env, assembly, assemblyHash)]
    ensures valid && pdbEntry.Some? ==>
      ArtifactsFor(env, assembly, pdbFiles) == [Artifact(env, assembly, assemblyHash), Artifact(env, pdbEntry.value, pdbHash)]
  {
    assemblyHash, pdbHash := "", "";
    pdbEntry := None;
    valid := false;
    var parsed := env.parse(assembly.bytes);
    if parsed.Some? {
      assemblyHash, pdbHash := parsed.value.assemblyHash, parsed.value.pdbHash;
      var assemblyWithoutExt := env.fullPathWithoutExtension(assembly.fullName);
      var k := FindPdb(env, pdbFiles, assemblyWithoutExt);
      if k.Some? {
        pdbEntry := Some(pdbFiles[k.value]);
      }
      valid := true;
    }
  }

  /** `if (seen.Add(file)) result.Add(file)` (lines 212-215, 225-228): the
      kept list and the seen set advance exactly as Dedup and AssetPaths do
      when `file` is appended to the artifacts processed so far. */
  method AddUnseen(result: seq<PackageFile>, seen: set<Path>, ghost done: seq<PackageFile>, file: PackageFile)
    returns (result': seq<PackageFile>, seen': set<Path>)
    requires result == Dedup(done) && seen == AssetPaths(done)
    ensures result' == Dedup(done + [file]) && seen' == AssetPaths(done + [file])
  {
    DedupSnoc(done, file);
    result', seen' := result, seen;
    if file.assetFile !in seen {
      seen' := seen + {file.assetFile};
      result' := result + [file];
    }
  }

  /** GetAssembliesAsync (lines 160-234). */
  method GetAssemblies(env: Env, entries: seq<Entry>) returns (result: seq<PackageFile>)
    ensures result == Assemblies(env, entries)
    ensures NoDuplicatePaths(result)
  {
    result := [];
    var seen: set<Path> := {};
    var assemblyFiles := DllEntries(entries);
    var pdbFiles := PdbEntries(entries);
    ghost var contribute := Contribution(env, pdbFiles);
    ghost var done: seq<PackageFile> := [];

    for i := 0 to |assemblyFiles|
      invariant done == Concat(contribute, assemblyFiles[..i])
      invariant result == Dedup(done) && seen == AssetPaths(done)
    {
      var assembly := assemblyFiles[i];
      ghost var before := done;
      ConcatStep(contribute, assemblyFiles, i);
      var valid, assemblyHash, pdbHash, pdbEntry := ReadAssembly(env, assembly, pdbFiles);
      if valid {
        var dllFile := Artifact(env, assembly, assemblyHash);
        result, seen := AddUnseen(result, seen, done, dllFile);
        done := done + [dllFile];
        if pdbEntry.Some? {
          var pdbFile := Artifact(env, pdbEntry.value, pdbHash);
          result, seen := AddUnseen(result, seen, done, pdbFile);
          done := done + [pdbFile];
          assert done == before + [dllFile, pdbFile];
        }
      }
      assert done == before + contribute(assembly);
    }
    assert assemblyFiles[..|assemblyFiles|] == assemblyFiles;
    DedupNoDuplicates(done);
  }
}
