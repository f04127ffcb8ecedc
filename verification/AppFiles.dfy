/** Managed configuration files in an app's directory, kept apart from the app's own data. */
module AppFiles {
  import opened Text
  import opened Sorting

  const MANIFEST_FILE := ".easy42-managed.json"

  // ----- The directory -----

  /** A path below the app's directory, which is itself the empty path. */
  type Path = seq<string>

  /** A file is text, or a listing of managed paths when it parses as one. */
  datatype Content = Plain(text: string) | Listing(paths: seq<string>)

  datatype Fs = Fs(files: map<Path, Content>, dirs: set<Path>)

  const MANIFEST: Path := [MANIFEST_FILE]
  const TMP: Path := [MANIFEST_FILE + ".tmp"]

  function Parent(p: Path): Path
    requires p != []
  {
    p[..|p| - 1]
  }

  predicate Below(p: Path, d: Path) {
    |d| < |p| && p[..|d|] == d
  }

  /** Everything lies in existing directories, and no path is both a file and a directory. */
  ghost predicate WellFormed(fs: Fs) {
    && (forall p :: p in fs.files ==> p != [] && Parent(p) in fs.dirs && p !in fs.dirs)
    && (forall d :: d in fs.dirs && d != [] ==> Parent(d) in fs.dirs)
  }

  ghost predicate HoldsFile(fs: Fs, d: Path) {
    exists p :: p in fs.files && Below(p, d)
  }

  /** Every directory below the app's own holds a file, directly or further down. */
  ghost predicate Populated(fs: Fs) {
    forall d :: d in fs.dirs && d != [] ==> HoldsFile(fs, d)
  }

  predicate IsEmptyDir(fs: Fs, d: Path) {
    && d in fs.dirs
    && (forall p :: p in fs.files ==> !Below(p, d))
    && (forall e :: e in fs.dirs ==> !Below(e, d))
  }

  function RemoveFile(fs: Fs, p: Path): Fs {
    fs.(files := fs.files - {p})
  }

  function RemoveDir(fs: Fs, d: Path): Fs {
    if IsEmptyDir(fs, d) then fs.(dirs := fs.dirs - {d}) else fs
  }

  /** Create the directory and what it lies in, as far as no file is in the way. */
  function CreateDirs(fs: Fs, d: Path): Fs {
    if d in fs.dirs || d in fs.files then fs
    else if d == [] then fs.(dirs := fs.dirs + {d})
    else
      var outer := CreateDirs(fs, Parent(d));
      if Parent(d) in outer.dirs then outer.(dirs := outer.dirs + {d}) else outer
  }

  predicate CanWrite(fs: Fs, p: Path) {
    p != [] && Parent(p) in fs.dirs && p !in fs.dirs
  }

  function WriteFile(fs: Fs, p: Path, c: Content): Fs {
    fs.(files := fs.files[p := c])
  }

  // ----- Relative paths -----

  /** The parts of a path as the file system reads it. */
  function Parts(pieces: seq<string>): Path {
    if pieces == [] then []
    else (if pieces[0] == "" || pieces[0] == "." then [] else [pieces[0]]) + Parts(pieces[1..])
  }

  function PathOf(rel: string): Path {
    Parts(Split(rel, '/'))
  }

  predicate HasDots(s: string) {
    exists i :: 0 <= i < |s| - 1 && s[i] == '.' && s[i + 1] == '.'
  }

  /** Safe to join onto the directory; the manifest's name is reserved. */
  predicate IsSafe(rel: string) {
    rel != "" && !HasDots(rel) && rel[0] != '/' && rel != MANIFEST_FILE
  }

  // ----- The manifest -----

  /** The managed paths the manifest lists; none if it cannot be read. */
  function ReadManifest(fs: Fs): set<string> {
    if MANIFEST in fs.files && fs.files[MANIFEST].Listing?
    then set p | p in fs.files[MANIFEST].paths && IsSafe(Trim(p)) :: Trim(p)
    else {}
  }

  // ----- Removing files and empty directories -----

  /** Remove empty directories from d upwards, but never the app's own. */
  function Prune(fs: Fs, d: Path): Fs
    decreases |d|
  {
    if d == [] || !IsEmptyDir(fs, d) then fs else Prune(RemoveDir(fs, d), Parent(d))
  }

  lemma {:induction false} PruneKeeps(fs: Fs, d: Path)
    requires WellFormed(fs)
    ensures var r := Prune(fs, d);
            && WellFormed(r) && r.files == fs.files && r.dirs <= fs.dirs
            && ([] in fs.dirs ==> [] in r.dirs)
            && (forall e :: e in fs.dirs && e !in r.dirs ==> e == d || Below(d, e))
    decreases |d|
  {
    if d != [] && IsEmptyDir(fs, d) {
      var less := RemoveDir(fs, d);
      PruneStep(fs, d);
      PruneKeeps(less, Parent(d));
    }
  }

  /** Every directory holds a file, except perhaps those on the way to p. */
  ghost predicate PopulatedBut(fs: Fs, p: Path) {
    forall d :: d in fs.dirs && d != [] && !Below(p, d) && p != d ==> HoldsFile(fs, d)
  }

  lemma ParentBelow(d: Path, e: Path)
    requires d != []
    ensures Below(d, e) ==> e == Parent(d) || Below(Parent(d), e)
  {
    if Below(d, e) && |e| < |d| - 1 {
      assert Parent(d)[..|e|] == e;
    }
  }

  lemma PrunedParent(fs: Fs, d: Path)
    requires WellFormed(fs) && d != [] && IsEmptyDir(fs, d) && PopulatedBut(fs, d)
    ensures PopulatedBut(RemoveDir(fs, d), Parent(d))
  {
    var less := RemoveDir(fs, d);
    forall e | e in less.dirs && e != [] && !Below(Parent(d), e) && Parent(d) != e ensures HoldsFile(less, e) {
      ParentBelow(d, e);
      assert HoldsFile(fs, e);
      var p :| p in fs.files && Below(p, e);
      assert p in less.files;
    }
  }

  /** Pruning upwards from d leaves no directory without files. */
  lemma {:induction false} PrunePopulates(fs: Fs, d: Path)
    requires WellFormed(fs) && PopulatedBut(fs, d) && (d == [] || d in fs.dirs)
    ensures Populated(Prune(fs, d))
    decreases |d|
  {
    if d != [] && IsEmptyDir(fs, d) {
      PrunedParent(fs, d);
      PruneStep(fs, d);
      hide PopulatedBut, WellFormed, Populated;
      PrunePopulates(RemoveDir(fs, d), Parent(d));
    } else {
      NothingPruned(fs, d);
      hide PopulatedBut, WellFormed, Populated;
    }
  }

  /** A directory that is not empty leads to a file, if everything in it does. */
  lemma NothingPruned(fs: Fs, d: Path)
    requires WellFormed(fs) && PopulatedBut(fs, d) && (d == [] || (d in fs.dirs && !IsEmptyDir(fs, d)))
    ensures Populated(fs)
  {
    hide WellFormed;
    if e :| e in fs.dirs && Below(e, d) && d != [] {
      assert !Below(d, e) && HoldsFile(fs, e);
      HoldsUpwards(fs, e, d);
    }
    assert d != [] ==> HoldsFile(fs, d);
    forall e | e in fs.dirs && e != [] && Below(d, e) ensures HoldsFile(fs, e) {
      HoldsUpwards(fs, d, e);
    }
    hide HoldsFile, Below, IsEmptyDir;
  }

  lemma HoldsUpwards(fs: Fs, d: Path, e: Path)
    requires HoldsFile(fs, d) && Below(d, e)
    ensures HoldsFile(fs, e)
  {
    var p :| p in fs.files && Below(p, d);
    assert p[..|e|] == p[..|d|][..|e|];
  }

  lemma PruneStep(fs: Fs, d: Path)
    requires WellFormed(fs) && d != [] && IsEmptyDir(fs, d)
    ensures WellFormed(RemoveDir(fs, d)) && Parent(d) in RemoveDir(fs, d).dirs
  {
    var less := RemoveDir(fs, d);
    forall p | p in less.files ensures Parent(p) in less.dirs {
      assert !Below(p, d);
      assert Parent(p) == d ==> Below(p, d);
    }
    forall e | e in less.dirs && e != [] ensures Parent(e) in less.dirs {
      assert !Below(e, d);
      assert Parent(e) == d ==> Below(e, d);
    }
  }

  /** Remove a managed file and the directories it leaves empty. */
  function RemoveManaged(fs: Fs, p: Path): Fs {
    if p == [] then fs else Prune(RemoveFile(fs, p), Parent(p))
  }

  lemma RemovedFileStays(fs: Fs, p: Path)
    requires WellFormed(fs)
    ensures WellFormed(RemoveFile(fs, p))
  {
  }

  /** Removing one managed file keeps the tree, all other files and the app's directory, and
      leaves no directory without files. */
  lemma RemoveManagedKeeps(fs: Fs, p: Path)
    requires WellFormed(fs)
    ensures var r := RemoveManaged(fs, p);
            && WellFormed(r) && r.files == fs.files - {p} && r.dirs <= fs.dirs
            && ([] in fs.dirs ==> [] in r.dirs)
            && (forall e :: e in fs.dirs && e !in r.dirs ==> Below(p, e))
            && (Populated(fs) ==> Populated(r))
  {
    RemovedFileStays(fs, p);
    if p == [] {
      assert fs.files - {p} == fs.files;
    } else {
      PruneKeeps(RemoveFile(fs, p), Parent(p));
      forall e | Below(Parent(p), e) || e == Parent(p) ensures Below(p, e) {
        assert p[..|e|] == Parent(p)[..|e|];
      }
      RemoveManagedPopulates(fs, p);
      hide WellFormed, Populated, Prune, Below;
    }
  }

  lemma RemoveManagedPopulates(fs: Fs, p: Path)
    requires WellFormed(fs)
    ensures Populated(fs) ==> Populated(RemoveManaged(fs, p))
  {
    if Populated(fs) && p != [] {
      RemovedFileStays(fs, p);
      RemovedFilePopulates(fs, p);
      if Parent(p) in fs.dirs || Parent(p) == [] {
        hide Populated, PopulatedBut, WellFormed;
        PrunePopulates(RemoveFile(fs, p), Parent(p));
      } else {
        NotThere(fs, p);
      }
    }
  }

  lemma NotThere(fs: Fs, p: Path)
    requires WellFormed(fs) && p != [] && Parent(p) !in fs.dirs
    ensures RemoveManaged(fs, p) == RemoveFile(fs, p) && p !in fs.files
    ensures Populated(fs) ==> Populated(RemoveFile(fs, p))
  {
    assert fs.files - {p} == fs.files;
  }

  lemma RemovedFilePopulates(fs: Fs, p: Path)
    requires WellFormed(fs) && Populated(fs) && p != []
    ensures PopulatedBut(RemoveFile(fs, p), Parent(p))
  {
    var r := RemoveFile(fs, p);
    forall d | d in r.dirs && d != [] && !Below(Parent(p), d) && Parent(p) != d ensures HoldsFile(r, d) {
      ParentBelow(p, d);
      var q :| q in fs.files && Below(q, d);
      assert q in r.files;
    }
  }

  // ----- Syncing -----

  datatype ConfigFile = ConfigFile(path: string, content: string)

  function Rel(f: ConfigFile): string {
    Trim(f.path)
  }

  /** The safe paths of the wanted files. */
  function Desired(files: seq<ConfigFile>): set<string> {
    set f | f in files && IsSafe(Rel(f)) :: Rel(f)
  }

  function PathsOf(rels: set<string>): set<Path> {
    set r | r in rels :: PathOf(r)
  }

  /** Directories other than the app's own only go when a removed path lies in them. */
  ghost predicate DirsKept(fs: Fs, r: Fs, paths: set<Path>) {
    forall d :: d in fs.dirs && d !in r.dirs && d != [] ==> exists p :: p in paths && Below(p, d)
  }

  /** The files a removal of the given paths leaves, whatever the order. */
  ghost predicate Cleared(fs: Fs, r: Fs, paths: set<Path>) {
    && WellFormed(r) && r.files == fs.files - paths && r.dirs <= fs.dirs && DirsKept(fs, r, paths)
    && ([] in fs.dirs ==> [] in r.dirs)
    && (Populated(fs) ==> Populated(r))
  }

  lemma ClearedOne(fs: Fs, r: Fs, paths: set<Path>, p: Path)
    requires Cleared(fs, r, paths)
    ensures Cleared(fs, RemoveManaged(r, p), paths + {p})
  {
    RemoveManagedKeeps(r, p);
    hide RemoveManaged, WellFormed, Populated;
    assert fs.files - paths - {p} == fs.files - (paths + {p});
  }

  lemma CreatedDirs(fs: Fs, d: Path)
    requires WellFormed(fs)
    ensures var r := CreateDirs(fs, d);
            && WellFormed(r) && r.files == fs.files && fs.dirs <= r.dirs
            && (forall e :: e in r.dirs && e !in fs.dirs ==> e == d || Below(d, e))
    decreases |d|
  {
    if d !in fs.dirs && d !in fs.files && d != [] {
      CreatedDirs(fs, Parent(d));
      var outer := CreateDirs(fs, Parent(d));
      forall e | e in outer.dirs && e !in fs.dirs ensures Below(d, e) { }
    }
  }

  /** Writing one file: what it lies in is created, and nothing else changes. */
  lemma WrittenFile(fs: Fs, p: Path, c: Content)
    requires WellFormed(fs) && p != [] && CanWrite(CreateDirs(fs, Parent(p)), p)
    ensures var r := WriteFile(CreateDirs(fs, Parent(p)), p, c);
            && WellFormed(r) && r.files == fs.files[p := c] && fs.dirs <= r.dirs
            && (Populated(fs) ==> Populated(r))
  {
    CreatedDirs(fs, Parent(p));
    var outer := CreateDirs(fs, Parent(p));
    var r := WriteFile(outer, p, c);
    if Populated(fs) {
      forall d | d in r.dirs && d != [] ensures HoldsFile(r, d) {
        if d in fs.dirs {
          var q :| q in fs.files && Below(q, d);
          assert q in r.files;
        } else {
          assert p in r.files;
        }
      }
    }
  }

  /** The path holds the same file, or none, in both. */
  predicate SameAt(fs: Fs, r: Fs, p: Path) {
    (p in r.files <==> p in fs.files) && (p in fs.files ==> r.files[p] == fs.files[p])
  }

  /** File i is the last wanted one at its path. */
  predicate LastAt(files: seq<ConfigFile>, i: nat)
    requires i < |files|
  {
    IsSafe(Rel(files[i])) &&
    forall j :: i < j < |files| && IsSafe(Rel(files[j])) ==> PathOf(Rel(files[j])) != PathOf(Rel(files[i]))
  }

  /** Only files at the given paths may differ. */
  ghost predicate OthersSame(fs: Fs, r: Fs, paths: set<Path>) {
    forall p :: p !in paths ==> SameAt(fs, r, p)
  }

  /** The last wanted file at each path is in place. */
  ghost predicate Placed(r: Fs, files: seq<ConfigFile>) {
    forall i :: 0 <= i < |files| && LastAt(files, i) ==>
      PathOf(Rel(files[i])) in r.files && r.files[PathOf(Rel(files[i]))] == Plain(files[i].content)
  }

  ghost predicate TreeKept(fs: Fs, r: Fs) {
    WellFormed(r) && fs.dirs <= r.dirs && (Populated(fs) ==> Populated(r))
  }

  ghost predicate Written(fs: Fs, r: Fs, files: seq<ConfigFile>) {
    TreeKept(fs, r) && OthersSame(fs, r, PathsOf(Desired(files))) && Placed(r, files)
  }

  lemma DesiredGrow(files: seq<ConfigFile>, f: ConfigFile)
    ensures Desired(files + [f]) == Desired(files) + if IsSafe(Rel(f)) then {Rel(f)} else {}
  {
    hide IsSafe, Rel;
    assert forall x :: x in files + [f] <==> x in files || x == f;
  }

  lemma LastBefore(files: seq<ConfigFile>, f: ConfigFile, i: nat)
    requires i < |files| && LastAt(files + [f], i)
    ensures LastAt(files, i) && (IsSafe(Rel(f)) ==> PathOf(Rel(f)) != PathOf(Rel(files[i])))
  {
    hide IsSafe, PathOf, Rel;
    var more := files + [f];
    assert more[|files|] == f && forall j :: 0 <= j < |files| ==> more[j] == files[j];
  }

  lemma WrittenSkips(fs: Fs, r: Fs, files: seq<ConfigFile>, f: ConfigFile)
    requires Written(fs, r, files) && !IsSafe(Rel(f))
    ensures Written(fs, r, files + [f])
  {
    hide PathOf, TreeKept, SameAt;
    DesiredGrow(files, f);
    var more := files + [f];
    forall i | 0 <= i < |more| && LastAt(more, i)
      ensures PathOf(Rel(more[i])) in r.files && r.files[PathOf(Rel(more[i]))] == Plain(more[i].content)
    {
      LastBefore(files, f, i);
    }
  }

  lemma PlacedGrows(r: Fs, w: Fs, files: seq<ConfigFile>, f: ConfigFile)
    requires Placed(r, files) && IsSafe(Rel(f)) && w.files == r.files[PathOf(Rel(f)) := Plain(f.content)]
    ensures Placed(w, files + [f])
  {
    var more := files + [f];
    forall i | 0 <= i < |more| && LastAt(more, i)
      ensures PathOf(Rel(more[i])) in w.files && w.files[PathOf(Rel(more[i]))] == Plain(more[i].content)
    {
      if i < |files| {
        LastBefore(files, f, i);
        hide LastAt, PathOf, IsSafe, Rel;
        assert more[i] == files[i];
      }
    }
  }

  lemma OthersGrow(fs: Fs, r: Fs, w: Fs, files: seq<ConfigFile>, f: ConfigFile)
    requires OthersSame(fs, r, PathsOf(Desired(files))) && IsSafe(Rel(f))
    requires w.files == r.files[PathOf(Rel(f)) := Plain(f.content)]
    ensures OthersSame(fs, w, PathsOf(Desired(files + [f])))
  {
    hide IsSafe, PathOf, Rel;
    DesiredGrow(files, f);
    var p := PathOf(Rel(f));
    hide Desired;
    forall q | q !in PathsOf(Desired(files + [f])) ensures SameAt(fs, w, q) {
      assert Rel(f) in Desired(files + [f]) && p in PathsOf(Desired(files + [f]));
      assert SameAt(fs, r, q);
    }
  }

  lemma WrittenGrows(fs: Fs, r: Fs, files: seq<ConfigFile>, f: ConfigFile)
    requires Written(fs, r, files) && IsSafe(Rel(f)) && PathOf(Rel(f)) != []
    requires CanWrite(CreateDirs(r, Parent(PathOf(Rel(f)))), PathOf(Rel(f)))
    ensures var p := PathOf(Rel(f));
            Written(fs, WriteFile(CreateDirs(r, Parent(p)), p, Plain(f.content)), files + [f])
  {
    hide IsSafe, PathOf, Rel;
    var p := PathOf(Rel(f));
    var w := WriteFile(CreateDirs(r, Parent(p)), p, Plain(f.content));
    WrittenFile(r, p, Plain(f.content));
    hide WellFormed, Populated, CreateDirs, WriteFile, CanWrite;
    PlacedGrows(r, w, files, f);
    OthersGrow(fs, r, w, files, f);
    hide Placed, OthersSame;
  }

  // ----- The effect of a whole sync -----

  function Managed(files: seq<ConfigFile>, excluded: seq<string>): set<string> {
    set rel | rel in Desired(files) && rel !in excluded
  }

  /** The listed paths that are no longer wanted. */
  function Orphans(fs: Fs, files: seq<ConfigFile>, excluded: seq<string>): set<string> {
    set rel | rel in ReadManifest(fs) && rel !in excluded && rel !in Desired(files)
  }

  /** What the manifest step does. */
  ghost predicate Listed(fs: Fs, r: Fs, rels: set<string>) {
    && r.dirs == fs.dirs
    && if rels == {} then r.files == fs.files - {MANIFEST}
       else MANIFEST in r.files && r.files[MANIFEST].Listing?
            && (forall rel :: rel in r.files[MANIFEST].paths <==> rel in rels)
            && r.files == (fs.files - {TMP})[MANIFEST := r.files[MANIFEST]]
            && MANIFEST !in fs.dirs && [] in fs.dirs
  }

  /** The paths a sync may touch: wanted and orphaned files, the manifest, and, when a manifest is
      written, its temporary file. */
  function Touched(fs: Fs, files: seq<ConfigFile>, excluded: seq<string>): set<Path> {
    PathsOf(Desired(files)) + PathsOf(Orphans(fs, files, excluded)) + {MANIFEST}
    + if Managed(files, excluded) != {} then {TMP} else {}
  }

  /** Orphaned files are gone, unless a wanted file or the manifest has their path. */
  ghost predicate OrphansGone(r: Fs, orphans: set<Path>, wanted: set<Path>) {
    forall p :: p in orphans && p !in wanted && p != MANIFEST ==> p !in r.files
  }

  /** The last wanted file at each path is in place, unless it is a path of the manifest's own. */
  ghost predicate WantedPlaced(r: Fs, files: seq<ConfigFile>) {
    forall i :: 0 <= i < |files| && LastAt(files, i) && PathOf(Rel(files[i])) != MANIFEST && PathOf(Rel(files[i])) != TMP ==>
      PathOf(Rel(files[i])) in r.files && r.files[PathOf(Rel(files[i]))] == Plain(files[i].content)
  }

  /** With nothing wanted, the app's directory is gone exactly when no file and no other directory is
      left; in particular it is not left behind empty. */
  ghost predicate BaseKept(r: Fs, wanted: bool) {
    if wanted then [] in r.dirs else ([] !in r.dirs <==> r.files == map[] && r.dirs <= {[]})
  }

  ghost predicate Synced(fs: Fs, r: Fs, files: seq<ConfigFile>, excluded: seq<string>) {
    && WellFormed(r) && (Populated(fs) ==> Populated(r))
    && OthersSame(fs, r, Touched(fs, files, excluded))
    && ReadManifest(r) == Managed(files, excluded)
    && OrphansGone(r, PathsOf(Orphans(fs, files, excluded)), PathsOf(Desired(files)))
    && WantedPlaced(r, files)
    && BaseKept(r, Desired(files) != {})
    && DirsKept(fs, r, PathsOf(Orphans(fs, files, excluded)))
  }

  lemma ReadBack(r: Fs, files: seq<ConfigFile>, excluded: seq<string>)
    requires MANIFEST in r.files && r.files[MANIFEST].Listing?
    requires forall rel :: rel in r.files[MANIFEST].paths <==> rel in Managed(files, excluded)
    ensures ReadManifest(r) == Managed(files, excluded)
  {
    hide IsSafe;
    var paths := r.files[MANIFEST].paths;
    forall rel | rel in paths ensures Trim(rel) == rel && IsSafe(rel) {
      assert rel in Desired(files);
      var f :| f in files && IsSafe(Rel(f)) && Rel(f) == rel;
      TrimTwice(f.path);
    }
    hide Trim, Managed;
    assert forall rel :: rel in ReadManifest(r) ==> rel in paths;
    forall rel | rel in paths ensures rel in ReadManifest(r) {
      assert Trim(rel) == rel;
    }
  }

  lemma ListedKeeps(w: Fs, r: Fs, rels: set<string>)
    requires WellFormed(w) && Listed(w, r, rels)
    ensures WellFormed(r) && (Populated(w) ==> Populated(r))
    ensures forall p :: p != MANIFEST && (rels != {} ==> p != TMP) ==> SameAt(w, r, p)
  {
    ListedFiles(w, r, rels);
    hide *;
    FlatFilesChange(w, r, {MANIFEST} + if rels != {} then {TMP} else {});
  }

  lemma ListedFiles(w: Fs, r: Fs, rels: set<string>)
    requires WellFormed(w) && Listed(w, r, rels)
    ensures r.dirs == w.dirs && |MANIFEST| == |TMP| == 1
    ensures forall p :: p != MANIFEST && (rels != {} ==> p != TMP) ==> SameAt(w, r, p)
    ensures MANIFEST in r.files ==> [] in w.dirs && MANIFEST !in w.dirs
    ensures TMP in r.files ==> [] in w.dirs && TMP !in w.dirs
  {
    assert Parent(MANIFEST) == Parent(TMP) == [];
    assert MANIFEST in w.files ==> [] in w.dirs && MANIFEST !in w.dirs;
    assert TMP in w.files ==> [] in w.dirs && TMP !in w.dirs;
    hide WellFormed;
  }

  /** Files directly in the app's directory come and go without any effect on the directories. */
  lemma FlatFilesChange(w: Fs, r: Fs, flat: set<Path>)
    requires WellFormed(w) && r.dirs == w.dirs && forall p :: p in flat ==> |p| == 1
    requires forall p :: p !in flat ==> SameAt(w, r, p)
    requires forall p :: p in flat && p in r.files ==> [] in w.dirs && p !in w.dirs
    ensures WellFormed(r) && (Populated(w) ==> Populated(r))
  {
    forall p | p in r.files ensures p != [] && Parent(p) in r.dirs && p !in r.dirs {
      if p in flat {
        assert Parent(p) == [];
      } else {
        assert SameAt(w, r, p);
      }
    }
    if Populated(w) {
      forall d | d in r.dirs && d != [] ensures HoldsFile(r, d) {
        var p :| p in w.files && Below(p, d);
        assert SameAt(w, r, p);
      }
    }
  }

  /** The app's directory is removed exactly when no file and no other directory is left in it. */
  lemma BaseRemoved(w: Fs)
    requires WellFormed(w)
    ensures RemoveDir(w, []) == if w.files == map[] && w.dirs <= {[]} then Fs(map[], {}) else w
  {
    forall p | p in w.files ensures Below(p, []) {
      assert p[..0] == [];
    }
    forall d | d in w.dirs && d != [] ensures Below(d, []) {
      assert d[..0] == [];
    }
    assert IsEmptyDir(w, []) ==> w.files.Keys == {} && w.dirs <= {[]};
    assert w.dirs <= {[]} ==> w.dirs - {[]} == {};
    if d :| d in w.dirs {
      RootExists(w, d);
    }
    if p :| p in w.files {
      RootExists(w, p);
    }
  }

  lemma BaseSettled(w: Fs)
    requires WellFormed(w)
    ensures var r := RemoveDir(w, []);
            && WellFormed(r) && r.files == w.files && r.dirs <= w.dirs && w.dirs <= r.dirs + {[]}
            && (Populated(w) ==> Populated(r)) && BaseKept(r, false)
            && ([] !in r.dirs <==> w.files == map[] && w.dirs <= {[]})
  {
    BaseRemoved(w);
    if d :| d in w.dirs {
      RootExists(w, d);
    }
    if p :| p in w.files {
      RootExists(w, p);
    }
  }

  /** Beyond the manifest step's own paths nothing changes. */
  ghost predicate SameBeyondManifest(w: Fs, r: Fs, listed: bool) {
    forall p :: p != MANIFEST && (listed ==> p != TMP) ==> SameAt(w, r, p)
  }

  lemma SameOverall(fs: Fs, b: Fs, w: Fs, r: Fs, orphans: set<Path>, wanted: set<Path>, listed: bool)
    requires b.files == fs.files - orphans && OthersSame(b, w, wanted) && SameBeyondManifest(w, r, listed)
    ensures OthersSame(fs, r, wanted + orphans + {MANIFEST} + if listed then {TMP} else {})
    ensures OrphansGone(w, orphans, wanted)
  {
    forall p | p !in wanted + orphans + {MANIFEST} + if listed then {TMP} else {} ensures SameAt(fs, r, p) {
      assert SameAt(b, w, p) && SameAt(w, r, p);
    }
    forall p | p in orphans && p !in wanted ensures p !in w.files {
      assert SameAt(b, w, p);
    }
  }

  lemma GoneAfterListing(w: Fs, r: Fs, rels: set<string>, orphans: set<Path>, wanted: set<Path>)
    requires OrphansGone(w, orphans, wanted) && Listed(w, r, rels)
    ensures OrphansGone(r, orphans, wanted)
  {
  }

  lemma PlacedAfterListing(w: Fs, r: Fs, files: seq<ConfigFile>, listed: bool)
    requires Placed(w, files) && SameBeyondManifest(w, r, listed)
    ensures WantedPlaced(r, files)
  {
    hide PathOf, LastAt, Rel;
    forall i | 0 <= i < |files| && LastAt(files, i) && PathOf(Rel(files[i])) != MANIFEST && PathOf(Rel(files[i])) != TMP
      ensures PathOf(Rel(files[i])) in r.files && r.files[PathOf(Rel(files[i]))] == Plain(files[i].content)
    {
      assert SameAt(w, r, PathOf(Rel(files[i])));
    }
  }

  lemma ManifestReads(w: Fs, r: Fs, files: seq<ConfigFile>, excluded: seq<string>)
    requires Listed(w, r, Managed(files, excluded))
    ensures ReadManifest(r) == Managed(files, excluded)
  {
    if Managed(files, excluded) != {} {
      ReadBack(r, files, excluded);
    } else {
      assert MANIFEST !in r.files;
    }
  }

  /** Clearing the orphans, writing the wanted files and listing them is a sync. */
  lemma SyncedWithFiles(fs: Fs, c: Fs, w: Fs, r: Fs, files: seq<ConfigFile>, excluded: seq<string>)
    requires WellFormed(fs) && Desired(files) != {}
    requires Cleared(fs, c, PathsOf(Orphans(fs, files, excluded)))
    requires Written(CreateDirs(c, []), w, files) && Listed(w, r, Managed(files, excluded))
    requires [] in CreateDirs(c, []).dirs
    ensures Synced(fs, r, files, excluded)
  {
    CreatedDirs(c, []);
    var b := CreateDirs(c, []);
    var listed := Managed(files, excluded) != {};
    assert Populated(c) ==> Populated(b) by {
      if Populated(c) {
        CreatedBasePopulated(c);
      }
    }
    hide CreateDirs, WellFormed, Populated, PathsOf, Orphans, Desired, DirsKept;
    ListedKeeps(w, r, Managed(files, excluded));
    assert SameBeyondManifest(w, r, listed);
    SameOverall(fs, b, w, r, PathsOf(Orphans(fs, files, excluded)), PathsOf(Desired(files)), listed);
    GoneAfterListing(w, r, Managed(files, excluded), PathsOf(Orphans(fs, files, excluded)), PathsOf(Desired(files)));
    PlacedAfterListing(w, r, files, listed);
    ManifestReads(w, r, files, excluded);
    DirsStay(fs, c, r, PathsOf(Orphans(fs, files, excluded)));
    hide Placed, WantedPlaced, OrphansGone, SameBeyondManifest, OthersSame, Managed, ReadManifest, DirsKept;
  }

  lemma DirsStay(fs: Fs, c: Fs, r: Fs, paths: set<Path>)
    requires DirsKept(fs, c, paths) && c.dirs <= r.dirs + {[]}
    ensures DirsKept(fs, r, paths)
  {
  }

  lemma CreatedBasePopulated(c: Fs)
    requires WellFormed(c) && Populated(c)
    ensures Populated(CreateDirs(c, []))
  {
    var b := CreateDirs(c, []);
    forall d | d in b.dirs && d != [] ensures HoldsFile(b, d) {
      var p :| p in c.files && Below(p, d);
      assert p in b.files;
    }
  }

  lemma SyncedWithout(fs: Fs, c: Fs, w: Fs, files: seq<ConfigFile>, excluded: seq<string>)
    requires WellFormed(fs) && Desired(files) == {}
    requires Cleared(fs, c, PathsOf(Orphans(fs, files, excluded))) && Listed(c, w, {})
    ensures Synced(fs, RemoveDir(w, []), files, excluded)
  {
    ListedKeeps(c, w, {});
    NothingManaged(files, excluded);
    var r := RemoveDir(w, []);
    BaseSettled(w);
    assert r.files == w.files;
    NoneIsLast(files);
    hide WellFormed, Populated, RemoveDir, PathOf, LastAt, IsSafe, Rel;
    assert SameBeyondManifest(w, r, false) && SameBeyondManifest(c, w, false);
    assert OthersSame(c, c, PathsOf(Desired(files)));
    SameOverall(fs, c, c, w, PathsOf(Orphans(fs, files, excluded)), PathsOf(Desired(files)), false);
    assert OrphansGone(r, PathsOf(Orphans(fs, files, excluded)), PathsOf(Desired(files)));
    assert OthersSame(fs, r, Touched(fs, files, excluded));
    assert MANIFEST !in r.files;
  }

  lemma NothingManaged(files: seq<ConfigFile>, excluded: seq<string>)
    requires Desired(files) == {}
    ensures Managed(files, excluded) == {}
  {
  }

  lemma SafeIsDesired(files: seq<ConfigFile>, i: nat)
    requires i < |files|
    ensures IsSafe(Rel(files[i])) ==> Rel(files[i]) in Desired(files)
  {
  }

  lemma NoneIsLast(files: seq<ConfigFile>)
    requires Desired(files) == {}
    ensures forall i :: 0 <= i < |files| ==> !LastAt(files, i)
  {
    forall i | 0 <= i < |files| ensures !LastAt(files, i) {
      SafeIsDesired(files, i);
    }
  }

  // ----- When a sync succeeds -----

  /** No wanted path is a directory, or lies below a file or below another wanted path. */
  ghost predicate Fits(fs: Fs, wanted: set<Path>) {
    forall p :: p in wanted ==>
      && p != [] && p !in fs.dirs
      && (forall q :: q in fs.files ==> !Below(p, q)) && (forall q :: q in wanted ==> !Below(p, q))
  }

  /** What the tree holds after the wanted paths were written. */
  ghost predicate Occupied(fs: Fs, r: Fs, wanted: set<Path>) {
    && (forall p :: p in r.files <==> p in fs.files || p in wanted)
    && (forall d :: d in r.dirs <==> d in fs.dirs || LiesAbove(wanted, d))
  }

  ghost predicate LiesAbove(paths: set<Path>, d: Path) {
    exists p :: p in paths && Below(p, d)
  }

  /** A directory can be created exactly when no file is in the way. */
  lemma {:induction false} Creatable(fs: Fs, d: Path)
    requires WellFormed(fs)
    ensures var r := CreateDirs(fs, d);
            && (d in r.dirs <==> forall q :: q in fs.files ==> q != d && !Below(d, q))
            && (d in r.dirs ==> forall e :: e in r.dirs <==> e in fs.dirs || e == d || Below(d, e))
    decreases |d|
  {
    if d in fs.dirs {
      forall e | Below(d, e) ensures e in fs.dirs && e !in fs.files {
        DirsAbove(fs, d, e);
      }
    } else if d !in fs.files && d != [] {
      Creatable(fs, Parent(d));
      CreatedDirs(fs, Parent(d));
      assert d != Parent(d) && !Below(Parent(d), d);
      forall q ensures Below(d, q) <==> q == Parent(d) || Below(Parent(d), q) {
        BelowParent(d, q);
      }
      hide WellFormed, Below;
    } else {
      assert d == [] ==> d !in fs.files;
    }
  }

  lemma BelowParent(d: Path, q: Path)
    requires d != []
    ensures Below(d, q) <==> q == Parent(d) || Below(Parent(d), q)
  {
    ParentBelow(d, q);
    assert |q| <= |d| - 1 ==> Parent(d)[..|q|] == d[..|q|];
  }

  /** What lies above an existing directory exists, and is no file. */
  lemma {:induction false} DirsAbove(fs: Fs, d: Path, e: Path)
    requires WellFormed(fs) && d in fs.dirs && Below(d, e)
    ensures e in fs.dirs && e !in fs.files
    decreases |d|
  {
    ParentBelow(d, e);
    if e != Parent(d) {
      DirsAbove(fs, Parent(d), e);
    }
  }

  lemma FitsLess(fs: Fs, wanted: set<Path>, more: set<Path>)
    requires wanted <= more && Fits(fs, more)
    ensures Fits(fs, wanted)
  {
    hide Below;
  }

  /** One more path fits exactly when it can be written next to those written so far. */
  lemma FitsOneMore(fs: Fs, r: Fs, wanted: set<Path>, p: Path)
    requires Fits(fs, wanted) && Occupied(fs, r, wanted)
    ensures Fits(fs, wanted + {p}) <==> p != [] && p !in r.dirs && forall q :: q in r.files ==> !Below(p, q)
  {
    assert !Below(p, p);
    hide Below;
    assert forall q :: q in wanted && Below(q, p) ==> LiesAbove(wanted, p);
  }

  lemma WritableWhen(r: Fs, p: Path)
    requires WellFormed(r) && p != []
    ensures CanWrite(CreateDirs(r, Parent(p)), p) <==> p !in r.dirs && forall q :: q in r.files ==> !Below(p, q)
    ensures CanWrite(CreateDirs(r, Parent(p)), p) ==>
      forall e :: e in CreateDirs(r, Parent(p)).dirs <==> e in r.dirs || Below(p, e)
  {
    Creatable(r, Parent(p));
    forall q ensures Below(p, q) <==> q == Parent(p) || Below(Parent(p), q) {
      BelowParent(p, q);
    }
    assert !Below(p, p);
    hide Below, CreateDirs, WellFormed;
  }

  lemma OccupiedGrows(fs: Fs, r: Fs, w: Fs, wanted: set<Path>, p: Path)
    requires Occupied(fs, r, wanted)
    requires forall q :: q in w.files <==> q in r.files || q == p
    requires forall e :: e in w.dirs <==> e in r.dirs || Below(p, e)
    ensures Occupied(fs, w, wanted + {p})
  {
    hide Below;
    forall d ensures LiesAbove(wanted + {p}, d) <==> LiesAbove(wanted, d) || Below(p, d) {
      if LiesAbove(wanted, d) {
        var q :| q in wanted && Below(q, d);
        assert q in wanted + {p};
      }
      assert p in wanted + {p};
    }
  }

  function WantedPaths(files: seq<ConfigFile>): set<Path> {
    PathsOf(Desired(files))
  }

  lemma WantedGrow(files: seq<ConfigFile>, f: ConfigFile)
    ensures WantedPaths(files + [f]) == WantedPaths(files) + if IsSafe(Rel(f)) then {PathOf(Rel(f))} else {}
  {
    hide PathOf, IsSafe, Desired;
    DesiredGrow(files, f);
  }

  lemma NothingWanted(fs: Fs)
    ensures Fits(fs, WantedPaths([])) && Occupied(fs, fs, WantedPaths([]))
  {
  }

  lemma {:induction false} WantedOfPrefix(files: seq<ConfigFile>, n: nat)
    requires n <= |files|
    ensures WantedPaths(files[..n]) <= WantedPaths(files)
    decreases |files| - n
  {
    if n < |files| {
      hide WantedPaths;
      assert files[..n + 1] == files[..n] + [files[n]];
      WantedGrow(files[..n], files[n]);
      WantedOfPrefix(files, n + 1);
    } else {
      assert files[..n] == files;
    }
  }

  // ----- The agent's operations -----

  /** The safe paths a manifest lists. */
  method ReadManagedManifest(fs: Fs) returns (managed: set<string>)
    ensures managed == ReadManifest(fs)
  {
    hide IsSafe, Trim;
    managed := {};
    if MANIFEST !in fs.files || !fs.files[MANIFEST].Listing? {
      return;
    }
    var paths := fs.files[MANIFEST].paths;
    var i := 0;
    while i < |paths|
      invariant 0 <= i <= |paths|
      invariant managed == set p | p in paths[..i] && IsSafe(Trim(p)) :: Trim(p)
    {
      assert paths[..i + 1] == paths[..i] + [paths[i]];
      var rel := Trim(paths[i]);
      if IsSafe(rel) {
        managed := managed + {rel};
      }
      i := i + 1;
    }
    assert paths[..i] == paths;
  }

  method SortRels(rels: set<string>) returns (r: seq<string>)
    ensures forall rel :: rel in r <==> rel in rels
  {
    r := [];
    var rest := rels;
    while rest != {}
      invariant rest <= rels && forall rel :: rel in r <==> rel in rels && rel !in rest
      decreases |rest|
    {
      var rel :| rel in rest;
      rest := rest - {rel};
      r := r + [rel];
    }
    SortMembers(r, Before);
    r := Sort(r, Before);
  }

  class AppDirectory {
    var fs: Fs

    /** Write the safe files, creating what they lie in; stop at the first that cannot be written. */
    method WriteConfigFiles(files: seq<ConfigFile>) returns (ok: bool)
      requires WellFormed(fs)
      modifies this
      ensures ok <==> Fits(old(fs), WantedPaths(files))
      ensures ok ==> Written(old(fs), fs, files) && Occupied(old(fs), fs, WantedPaths(files))
    {
      hide PathOf, IsSafe, WellFormed, Populated, Placed, OthersSame, Desired, CreateDirs, Fits, Occupied, WantedPaths;
      ghost var start := fs;
      var i := 0;
      WrittenNone(fs);
      NothingWanted(fs);
      while i < |files|
        invariant 0 <= i <= |files| && Written(start, fs, files[..i])
        invariant Fits(start, WantedPaths(files[..i])) && Occupied(start, fs, WantedPaths(files[..i]))
      {
        var file, rel := files[i], Rel(files[i]);
        assert files[..i + 1] == files[..i] + [file];
        WantedGrow(files[..i], file);
        WantedOfPrefix(files, i + 1);
        if !IsSafe(rel) {
          WrittenSkips(start, fs, files[..i], file);
          assert WantedPaths(files[..i]) + {} == WantedPaths(files[..i]);
        } else {
          var target := PathOf(rel);
          FitsOneMore(start, fs, WantedPaths(files[..i]), target);
          if target == [] {
            NotAllFit(start, WantedPaths(files[..i + 1]), WantedPaths(files));
            return false;
          }
          WritableWhen(fs, target);
          var outer := CreateDirs(fs, Parent(target));
          if !CanWrite(outer, target) {
            NotAllFit(start, WantedPaths(files[..i + 1]), WantedPaths(files));
            fs := outer;
            return false;
          }
          WrittenGrows(start, fs, files[..i], file);
          WrittenFile(fs, target, Plain(file.content));
          OccupiedGrows(start, fs, WriteFile(outer, target, Plain(file.content)), WantedPaths(files[..i]), target);
          fs := WriteFile(outer, target, Plain(file.content));
        }
        i := i + 1;
      }
      assert files[..i] == files;
      ok := true;
    }

    /** List the managed paths, through a temporary file; without any, drop the list. */
    method WriteManagedManifest(rels: set<string>) returns (ok: bool)
      modifies this
      ensures ok <==> MANIFEST !in old(fs).dirs && (rels != {} ==> CanWrite(old(fs), TMP))
      ensures ok ==> Listed(old(fs), fs, rels)
    {
      if rels == {} {
        if MANIFEST in fs.dirs {
          return false;
        }
        fs := RemoveFile(fs, MANIFEST);
        return true;
      }
      var sorted := SortRels(rels);
      var content := Listing(sorted);
      if !CanWrite(fs, TMP) {
        return false;
      }
      ghost var files := fs.files;
      fs := WriteFile(fs, TMP, content);
      if MANIFEST in fs.dirs {
        return false;
      }
      fs := fs.(files := (fs.files - {TMP})[MANIFEST := content]);
      assert files[TMP := content] - {TMP} == files - {TMP};
      ok := true;
    }

    /** Remove the listed files that are no longer wanted. */
    method RemoveOrphans(files: seq<ConfigFile>, excluded: seq<string>, desired: set<string>)
      requires WellFormed(fs) && desired == Desired(files)
      modifies this
      ensures Cleared(old(fs), fs, PathsOf(Orphans(old(fs), files, excluded)))
    {
      hide PathOf, WellFormed, Populated, RemoveManaged, ReadManifest;
      ghost var start := fs;
      var managed := ReadManagedManifest(fs);
      var rest := managed;
      var cleared: set<string> := {};
      assert PathsOf({}) == {} && fs.files - {} == fs.files;
      while rest != {}
        invariant rest <= managed
        invariant cleared == set rel | rel in managed && rel !in rest && rel !in excluded && rel !in desired
        invariant Cleared(start, fs, PathsOf(cleared))
        decreases |rest|
      {
        var rel :| rel in rest;
        rest := rest - {rel};
        if rel !in excluded && rel !in desired {
          ClearedOne(start, fs, PathsOf(cleared), PathOf(rel));
          fs := RemoveManaged(fs, PathOf(rel));
          assert PathsOf(cleared + {rel}) == PathsOf(cleared) + {PathOf(rel)};
          cleared := cleared + {rel};
        }
      }
      assert cleared == Orphans(start, files, excluded);
    }

    /** Bring the app's files in line with the wanted ones. */
    method SyncConfigFiles(files: seq<ConfigFile>, excluded: seq<string>) returns (ok: bool)
      requires WellFormed(fs)
      modifies this
      ensures Unblocked(old(fs), files, excluded) ==> ok
      ensures ok ==> Synced(old(fs), fs, files, excluded)
    {
      ghost var start := fs;
      var desired := CollectDesired(files);
      RemoveOrphans(files, excluded, desired);
      ghost var cleared := fs;
      var managed := set rel | rel in desired && rel !in excluded;
      assert managed == Managed(files, excluded);
      BaseCanBeCreated(cleared);
      hide PathOf, IsSafe, WellFormed, Populated, Desired, Managed, Orphans, Written, Listed, Synced, Unblocked,
        Fits, Occupied, WantedPaths;
      if desired != {} {
        CreatedDirs(cleared, []);
        fs := CreateDirs(fs, []);
        ghost var base := fs;
        UnblockedFits(start, cleared, base, files, excluded);
        if [] !in fs.dirs {
          return false;
        }
        ok := WriteConfigFiles(files);
        if ok {
          ghost var written := fs;
          ManifestUnblocked(start, cleared, base, written, files, excluded);
          ok := WriteManagedManifest(managed);
          if ok {
            SyncedWithFiles(start, cleared, written, fs, files, excluded);
          }
        }
      } else {
        NothingBlocks(start, cleared, files, excluded);
        ok := WriteManagedManifest({});
        if ok {
          SyncedWithout(start, cleared, fs, files, excluded);
          fs := RemoveDir(fs, []);
        }
      }
    }

    /** Remove everything managed; the app's directory goes with it only when nothing remains. */
    method RemoveManagedAppFiles(standard: seq<string>)
      requires WellFormed(fs)
      modifies this
      ensures WellFormed(fs)
      ensures fs.files == old(fs).files - PathsOf(Targets(old(fs), standard)) - {MANIFEST}
      ensures [] !in fs.dirs <==> fs.files == map[] && fs.dirs <= {[]}
      ensures DirsKept(old(fs), fs, PathsOf(Targets(old(fs), standard)))
      ensures Populated(old(fs)) ==> ([] !in fs.dirs <==> fs.files == map[])
    {
      hide PathOf, WellFormed, Populated, RemoveManaged, ReadManifest, IsSafe;
      ghost var start := fs;
      var managed := ReadManagedManifest(fs);
      var targets := managed + set rel | rel in standard && rel != "";
      var rest := targets;
      var cleared: set<string> := {};
      assert PathsOf({}) == {} && fs.files - {} == fs.files;
      while rest != {}
        invariant rest <= targets
        invariant cleared == set rel | rel in targets && rel !in rest && IsSafe(rel)
        invariant Cleared(start, fs, PathsOf(cleared))
        decreases |rest|
      {
        var rel :| rel in rest;
        rest := rest - {rel};
        if IsSafe(rel) {
          ClearedOne(start, fs, PathsOf(cleared), PathOf(rel));
          fs := RemoveManaged(fs, PathOf(rel));
          assert PathsOf(cleared + {rel}) == PathsOf(cleared) + {PathOf(rel)};
          cleared := cleared + {rel};
        }
      }
      assert cleared == Targets(start, standard);
      ghost var mid := fs;
      fs := RemoveFile(fs, MANIFEST);
      ListedKeeps(mid, fs, {});
      BaseSettled(fs);
      fs := RemoveDir(fs, []);
      PopulatedBase(fs);
    }
  }

  /** The safe paths a final removal deletes. */
  function Targets(fs: Fs, standard: seq<string>): set<string> {
    set rel | rel in ReadManifest(fs) + (set s | s in standard && s != "") && IsSafe(rel)
  }

  lemma PopulatedBase(fs: Fs)
    requires WellFormed(fs)
    ensures Populated(fs) && [] !in fs.dirs ==> fs.files == map[]
    ensures Populated(fs) && fs.files == map[] ==> fs.dirs <= {[]}
  {
    if [] !in fs.dirs {
      forall p | p in fs.files ensures false {
        RootExists(fs, p);
      }
    }
  }

  /** Whatever exists lies in the app's directory. */
  lemma {:induction false} RootExists(fs: Fs, p: Path)
    requires WellFormed(fs) && (p in fs.files || p in fs.dirs)
    ensures [] in fs.dirs
    decreases |p|
  {
    if p != [] {
      RootExists(fs, Parent(p));
    }
  }

  lemma WrittenNone(fs: Fs)
    requires WellFormed(fs)
    ensures Written(fs, fs, [])
  {
  }

  /** Nothing is in the way of a sync: no wanted path is a directory, lies below a file that stays or
      below another wanted path, and the manifest's own paths are no directories and do not become any. */
  ghost predicate Unblocked(fs: Fs, files: seq<ConfigFile>, excluded: seq<string>) {
    && Fits(Fs(fs.files - PathsOf(Orphans(fs, files, excluded)), fs.dirs), WantedPaths(files))
    && MANIFEST !in fs.dirs && !LiesAbove(WantedPaths(files), MANIFEST)
    && (Managed(files, excluded) != {} ==> TMP !in fs.dirs && !LiesAbove(WantedPaths(files), TMP))
  }

  lemma BaseCanBeCreated(c: Fs)
    requires WellFormed(c)
    ensures [] in CreateDirs(c, []).dirs && CreateDirs(c, []).dirs <= c.dirs + {[]} && CreateDirs(c, []).files == c.files
  {
  }

  lemma UnblockedFits(fs: Fs, c: Fs, base: Fs, files: seq<ConfigFile>, excluded: seq<string>)
    requires Cleared(fs, c, PathsOf(Orphans(fs, files, excluded)))
    requires base.files == c.files && base.dirs <= c.dirs + {[]}
    ensures Unblocked(fs, files, excluded) ==> Fits(base, WantedPaths(files))
  {
    hide Below, WellFormed, Populated, WantedPaths, PathsOf, Orphans, DirsKept, Managed;
  }

  lemma ManifestUnblocked(fs: Fs, c: Fs, base: Fs, w: Fs, files: seq<ConfigFile>, excluded: seq<string>)
    requires Cleared(fs, c, PathsOf(Orphans(fs, files, excluded)))
    requires base.dirs <= c.dirs + {[]} && [] in base.dirs && Occupied(base, w, WantedPaths(files))
    ensures Unblocked(fs, files, excluded) ==>
      MANIFEST !in w.dirs && (Managed(files, excluded) != {} ==> CanWrite(w, TMP))
  {
    hide LiesAbove, WellFormed, Populated, WantedPaths, PathsOf, Orphans, DirsKept, Managed, Fits;
    assert MANIFEST != [] && TMP != [] && Parent(TMP) == [];
  }

  lemma NothingBlocks(fs: Fs, c: Fs, files: seq<ConfigFile>, excluded: seq<string>)
    requires Cleared(fs, c, PathsOf(Orphans(fs, files, excluded)))
    ensures Unblocked(fs, files, excluded) ==> MANIFEST !in c.dirs
  {
    hide LiesAbove, WellFormed, Populated, WantedPaths, PathsOf, Orphans, DirsKept, Managed, Fits;
  }

  lemma NotAllFit(fs: Fs, some: set<Path>, all: set<Path>)
    requires some <= all && !Fits(fs, some)
    ensures !Fits(fs, all)
  {
    hide Fits;
    if Fits(fs, all) {
      FitsLess(fs, some, all);
    }
  }

  method CollectDesired(files: seq<ConfigFile>) returns (desired: set<string>)
    ensures desired == Desired(files)
  {
    hide IsSafe, Rel;
    desired := {};
    var i := 0;
    while i < |files|
      invariant 0 <= i <= |files| && desired == Desired(files[..i])
    {
      assert files[..i + 1] == files[..i] + [files[i]];
      DesiredGrow(files[..i], files[i]);
      var rel := Rel(files[i]);
      if IsSafe(rel) {
        desired := desired + {rel};
      }
      i := i + 1;
    }
    assert files[..i] == files;
  }

  // ----- Runs -----

  /** The app may do anything in its directory except to the manifest. */
  datatype Step = Sync(files: seq<ConfigFile>, excluded: seq<string>) | AppActs

  ghost predicate StepOk(fs: Fs, step: Step, r: Fs) {
    && WellFormed(fs) && WellFormed(r)
    && if step.Sync? then Synced(fs, r, step.files, step.excluded) else ReadManifest(r) == ReadManifest(fs)
  }

  ghost predicate IsRun(states: seq<Fs>, steps: seq<Step>) {
    && |states| == |steps| + 1
    && ReadManifest(states[0]) == {}
    && forall i {:trigger steps[i]} :: 0 <= i < |steps| ==> StepOk(states[i], steps[i], states[i + 1])
  }

  /** Every path that was ever wanted. */
  function EverDesired(steps: seq<Step>): set<string> {
    if steps == [] then {}
    else EverDesired(steps[..|steps| - 1])
         + if steps[|steps| - 1].Sync? then Desired(steps[|steps| - 1].files) else {}
  }

  /** Only paths that were wanted once are ever listed. */
  lemma {:induction false} ListedWasDesired(states: seq<Fs>, steps: seq<Step>, i: nat)
    requires IsRun(states, steps) && i <= |steps|
    ensures ReadManifest(states[i]) <= EverDesired(steps[..i])
  {
    hide WellFormed, ReadManifest, Desired;
    if i > 0 {
      ListedWasDesired(states, steps, i - 1);
      assert steps[..i][..i - 1] == steps[..i - 1] && steps[..i][i - 1] == steps[i - 1];
      assert StepOk(states[i - 1], steps[i - 1], states[i - 1 + 1]);
    }
  }

  /** Over any run, a sync never changes or removes a file that was never wanted: only the
      manifest and, when one is written, its temporary file are its own. */
  lemma NeverDesiredStays(states: seq<Fs>, steps: seq<Step>, i: nat, p: Path)
    requires IsRun(states, steps) && i < |steps| && steps[i].Sync?
    requires p !in PathsOf(EverDesired(steps[..i + 1])) && p != MANIFEST
    requires p == TMP ==> Managed(steps[i].files, steps[i].excluded) == {}
    ensures SameAt(states[i], states[i + 1], p)
    ensures ReadManifest(states[i + 1]) == Managed(steps[i].files, steps[i].excluded)
  {
    ListedWasDesired(states, steps, i);
    assert StepOk(states[i], steps[i], states[i + 1]);
    assert steps[..i + 1][..i] == steps[..i] && steps[..i + 1][i] == steps[i];
    var files, excluded := steps[i].files, steps[i].excluded;
    hide WellFormed, ReadManifest, Desired, PathOf, Managed, SameAt, IsRun;
    assert Orphans(states[i], files, excluded) <= EverDesired(steps[..i + 1]);
    assert Desired(files) <= EverDesired(steps[..i + 1]);
    hide EverDesired, Orphans;
    SubsetOfPaths(Orphans(states[i], files, excluded), EverDesired(steps[..i + 1]));
    SubsetOfPaths(Desired(files), EverDesired(steps[..i + 1]));
    hide PathsOf;
    assert p !in Touched(states[i], files, excluded);
  }

  lemma SubsetOfPaths(a: set<string>, b: set<string>)
    requires a <= b
    ensures PathsOf(a) <= PathsOf(b)
  {
    hide PathOf;
  }

  /** The manifest's temporary file is not the app's to use: a sync that lists files removes it. */
  lemma TemporaryFileIsLost(fs: Fs, r: Fs, rels: set<string>)
    requires Listed(fs, r, rels) && rels != {}
    ensures TMP !in r.files
  {
  }
}
