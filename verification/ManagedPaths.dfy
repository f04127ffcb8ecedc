/** Which paths a sync of managed files may touch, in the terms of the paths themselves. */
module ManagedPaths {
  import opened Text
  import opened AppFiles

  // ----- Safe relative paths -----

  lemma DotsAre(rel: string)
    ensures HasDots(rel) <==> exists a: string, b: string :: rel == a + (".." + b)
  {
    if i :| 0 <= i < |rel| - 1 && rel[i] == '.' && rel[i + 1] == '.' {
      assert rel == rel[..i] + (".." + rel[i + 2..]);
    }
    if a: string, b: string :| rel == a + (".." + b) {
      assert rel[|a|] == '.' && rel[|a| + 1] == '.';
    }
  }

  /** Refused are the empty path, absolute paths, every path with two dots in a row and the manifest. */
  lemma SafeExactly(rel: string)
    ensures IsSafe(rel) <==>
            && rel != "" && rel[0] != '/' && rel != ".easy42-managed.json"
            && !exists a: string, b: string :: rel == a + (".." + b)
  {
    DotsAre(rel);
  }

  lemma {:induction false} PartsAre(pieces: seq<string>, c: string)
    ensures c in Parts(pieces) <==> c in pieces && c != "" && c != "."
  {
    if pieces != [] {
      PartsAre(pieces[1..], c);
      assert pieces == [pieces[0]] + pieces[1..];
    }
  }

  lemma {:induction false} PieceOf(s: string, sep: char, k: nat) returns (a: string, b: string)
    requires k < |Split(s, sep)|
    ensures s == a + (Split(s, sep)[k] + b)
  {
    if s == "" {
      a, b := "", "";
    } else {
      SplitUnfolds(s, sep);
      hide Split;
      var rest := Split(s[1..], sep);
      if s[0] == sep && k == 0 {
        a, b := "", s;
      } else {
        var x, y := PieceOf(s[1..], sep, if s[0] == sep then k - 1 else k);
        if k == 0 {
          assert s[0] != sep;
          a, b := FirstPiece(s, sep);
        } else {
          a, b := [s[0]] + x, y;
          assert s == [s[0]] + s[1..];
        }
      }
    }
  }

  lemma {:induction false} FirstPiece(s: string, sep: char) returns (a: string, b: string)
    ensures a == "" && s == a + (Split(s, sep)[0] + b)
  {
    hide Split;
    a := "";
    if s == "" {
      SplitNothing(sep);
      b := "";
    } else {
      SplitUnfolds(s, sep);
      if s[0] == sep {
        b := s;
      } else {
        var x;
        x, b := FirstPiece(s[1..], sep);
        assert s == [s[0]] + s[1..];
      }
    }
  }

  /** No component of a safe path leads upwards, or hides another separator. */
  lemma SafeStaysInside(rel: string, c: string)
    requires IsSafe(rel) && c in PathOf(rel)
    ensures c != ".." && c != "." && c != "" && '/' !in c
  {
    PartsAre(Split(rel, '/'), c);
    SplitPieces(rel, '/');
    if c == ".." {
      var k :| 0 <= k < |Split(rel, '/')| && Split(rel, '/')[k] == c;
      var a, b := PieceOf(rel, '/', k);
      assert rel == a + (".." + b);
      DotsAre(rel);
    }
  }

  lemma {:induction false} PartsJoin(a: seq<string>, b: seq<string>)
    ensures Parts(a + b) == Parts(a) + Parts(b)
  {
    if a == [] {
      assert a + b == b;
    } else {
      assert (a + b)[0] == a[0] && (a + b)[1..] == a[1..] + b;
      PartsJoin(a[1..], b);
    }
  }

  /** Components are joined by slashes; empty ones and single dots do not count. */
  lemma PathsJoin(a: string, b: string)
    ensures PathOf(a + "/" + b) == PathOf(a) + PathOf(b)
    ensures PathOf("") == PathOf(".") == []
    ensures a != "" && a != "." && '/' !in a ==> PathOf(a) == [a]
  {
    SplitAround(a, b, '/');
    assert a + ['/'] + b == a + "/" + b;
    PartsJoin(Split(a, '/'), Split(b, '/'));
    assert Parts([""]) == [] + Parts([""][1..]) && Parts(["."]) == [] + Parts(["."][1..]);
    assert a != "" && a != "." ==> Parts([a]) == [a] + Parts([a][1..]);
    hide Split;
    assert Parts([]) == [];
  }

  // ----- What a sync does to which paths -----

  /** One of the files is wanted at this safe path. */
  ghost predicate Wants(files: seq<ConfigFile>, rel: string) {
    IsSafe(rel) && exists f :: f in files && Trim(f.path) == rel
  }

  /** The manifest lists the path, and it is safe. */
  ghost predicate Lists(fs: Fs, rel: string) {
    && IsSafe(rel) && [".easy42-managed.json"] in fs.files
    && match fs.files[[".easy42-managed.json"]]
       case Listing(paths) => exists p :: p in paths && Trim(p) == rel
       case Plain(_) => false
  }

  lemma SetsAre(fs: Fs, files: seq<ConfigFile>, excluded: seq<string>, rel: string)
    ensures rel in ReadManifest(fs) <==> Lists(fs, rel)
    ensures rel in Desired(files) <==> Wants(files, rel)
    ensures rel in Managed(files, excluded) <==> Wants(files, rel) && rel !in excluded
    ensures rel in Orphans(fs, files, excluded) <==> Lists(fs, rel) && rel !in excluded && !Wants(files, rel)
  {
    hide IsSafe, Trim;
  }

  lemma TargetsAre(fs: Fs, standard: seq<string>, rel: string)
    ensures rel in Targets(fs, standard) <==> IsSafe(rel) && (Lists(fs, rel) || rel in standard)
  {
    SetsAre(fs, [], [], rel);
    SafeExactly(rel);
    hide ReadManifest, IsSafe, Lists;
  }

  /** The path is that of a wanted file, of a listed one that is neither wanted nor excluded, or one of the
      manifest's two. */
  ghost predicate MayTouch(fs: Fs, files: seq<ConfigFile>, excluded: seq<string>, p: Path) {
    || (exists rel :: Wants(files, rel) && PathOf(rel) == p)
    || (exists rel :: Lists(fs, rel) && rel !in excluded && !Wants(files, rel) && PathOf(rel) == p)
    || p == [".easy42-managed.json"] || p == [".easy42-managed.json.tmp"]
  }

  lemma NamesAre()
    ensures MANIFEST == [".easy42-managed.json"] && TMP == [".easy42-managed.json.tmp"]
  {
    assert MANIFEST_FILE + ".tmp" == ".easy42-managed.json.tmp";
  }

  lemma TouchedMay(fs: Fs, files: seq<ConfigFile>, excluded: seq<string>, p: Path)
    requires p in Touched(fs, files, excluded)
    ensures MayTouch(fs, files, excluded, p)
  {
    NamesAre();
    hide Wants, Lists, ReadManifest, Desired, Managed, Orphans, PathOf;
    if rel :| rel in Desired(files) && PathOf(rel) == p {
      SetsAre(fs, files, excluded, rel);
    } else if rel :| rel in Orphans(fs, files, excluded) && PathOf(rel) == p {
      SetsAre(fs, files, excluded, rel);
    }
  }

  /** A sync leaves all other paths as they are. */
  lemma OthersAreUntouched(fs: Fs, r: Fs, files: seq<ConfigFile>, excluded: seq<string>, p: Path)
    requires Synced(fs, r, files, excluded) && !MayTouch(fs, files, excluded, p)
    ensures SameAt(fs, r, p)
  {
    if p in Touched(fs, files, excluded) {
      TouchedMay(fs, files, excluded, p);
    }
    hide MayTouch, Touched, SameAt, Populated, WellFormed;
  }

  /** After a sync, the manifest lists exactly the wanted paths that are not excluded. */
  lemma ListedAfterSync(fs: Fs, r: Fs, files: seq<ConfigFile>, excluded: seq<string>, rel: string)
    requires Synced(fs, r, files, excluded)
    ensures Lists(r, rel) <==> Wants(files, rel) && rel !in excluded
  {
    SetsAre(r, files, excluded, rel);
    hide Wants, Lists, ReadManifest, Desired, Managed, Orphans, PathOf, Populated, WellFormed;
  }

  /** After a sync, a file that was listed and is neither wanted nor excluded is gone. */
  lemma OrphanIsGone(fs: Fs, r: Fs, files: seq<ConfigFile>, excluded: seq<string>, rel: string)
    requires Synced(fs, r, files, excluded) && Lists(fs, rel) && rel !in excluded
    requires PathOf(rel) != [".easy42-managed.json"]
    requires forall other :: Wants(files, other) ==> PathOf(other) != PathOf(rel)
    ensures PathOf(rel) !in r.files
  {
    SetsAre(fs, files, excluded, rel);
    hide Wants, Lists, ReadManifest, Desired, Managed, Orphans, PathOf, Populated, WellFormed;
    var p := PathOf(rel);
    assert p in PathsOf(Orphans(fs, files, excluded));
    if p in PathsOf(Desired(files)) {
      var other :| other in Desired(files) && PathOf(other) == p;
      SetsAre(fs, files, excluded, other);
    }
  }
}
