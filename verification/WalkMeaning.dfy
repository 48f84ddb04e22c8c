/**
 Which entries of a directory the search goes down to, and which package file it tries
 (kernel/manager/throne_tracker.c:69-125, 150-190).
 */
module WalkMeaning {
  import opened Options
  import opened DirectoryWalk

  /** A name that is neither empty nor one of the two that every directory lists. */
  predicate Proper(name: string) {
    name != "" && name != "." && name != ".."
  }

  /** A directory that is not a staging package, and whose path has fewer than 384 characters. */
  predicate GoesDown(dir: string, e: DirEntry) {
    var n := |e.name|;
    && e.kind.Directory? && Proper(e.name) && |dir| + 1 + n < 384
    && !(n >= 8 && e.name[..4] == "vmdl" && e.name[n - 4..] == ".tmp")
  }

  /** A regular file whose name begins with "base.apk", and whose path has fewer than 384 characters. */
  predicate Tries(dir: string, e: DirEntry) {
    e.kind.Regular? && |dir| + 1 + |e.name| < 384 && |e.name| >= 8 && e.name[..8] == "base.apk"
  }

  lemma EntryMeans(dir: string, e: DirEntry)
    ensures Descends(dir, e) <==> GoesDown(dir, e)
    ensures IsPackage(dir, e) <==> Tries(dir, e)
    ensures Under(dir, e) == dir + "/" + e.name
  {
  }

  lemma OneSubDir(dir: string, e: DirEntry)
    ensures SubDirs(dir, [e]) == if GoesDown(dir, e) then [dir + "/" + e.name] else []
  {
    EntryMeans(dir, e);
    assert [e][..0] == [];
    assert SubDirs(dir, [e][..0]) == [];
  }

  lemma {:induction false} SubDirsSplit(dir: string, a: seq<DirEntry>, b: seq<DirEntry>)
    ensures SubDirs(dir, a + b) == SubDirs(dir, a) + SubDirs(dir, b)
    decreases |b|
  {
    if b == [] {
      assert a + b == a;
    } else {
      var n := |b| - 1;
      assert (a + b)[..|a + b| - 1] == a + b[..n];
      SubDirsSplit(dir, a, b[..n]);
    }
  }

  /** The subdirectories of a listing, from its front: in the order of the listing, and as often as it lists them. */
  lemma SubDirsInOrder(dir: string, entries: seq<DirEntry>)
    ensures SubDirs(dir, []) == []
    ensures entries != [] ==>
              SubDirs(dir, entries) ==
              (if GoesDown(dir, entries[0]) then [dir + "/" + entries[0].name] else []) + SubDirs(dir, entries[1..])
  {
    if entries != [] {
      assert entries == [entries[0]] + entries[1..];
      SubDirsSplit(dir, [entries[0]], entries[1..]);
      OneSubDir(dir, entries[0]);
    }
  }

  lemma {:induction false} SubDirsAre(dir: string, entries: seq<DirEntry>, path: string)
    ensures path in SubDirs(dir, entries) <==> exists e :: e in entries && GoesDown(dir, e) && path == dir + "/" + e.name
    decreases |entries|
  {
    if entries != [] {
      SubDirsInOrder(dir, entries);
      SubDirsAre(dir, entries[1..], path);
      assert forall e :: e in entries <==> e == entries[0] || e in entries[1..];
    }
  }

  /** Entry i is the last package file of the listing. */
  predicate LastPackage(dir: string, entries: seq<DirEntry>, i: nat) {
    i < |entries| && Tries(dir, entries[i]) && forall j :: i < j < |entries| ==> !Tries(dir, entries[j])
  }

  /** The candidate is the path of the last package file; without one it is empty. */
  lemma {:induction false} CandidateIsLast(dir: string, entries: seq<DirEntry>)
    ensures forall i: nat :: LastPackage(dir, entries, i) ==> Candidate(dir, entries) == dir + "/" + entries[i].name
    ensures (forall i: nat :: !LastPackage(dir, entries, i)) <==> Candidate(dir, entries) == ""
    ensures (forall i: nat :: !LastPackage(dir, entries, i)) ==> forall e :: e in entries ==> !Tries(dir, e)
    decreases |entries|
  {
    if entries != [] {
      var n := |entries| - 1;
      EntryMeans(dir, entries[n]);
      CandidateIsLast(dir, entries[..n]);
      if Tries(dir, entries[n]) {
        assert LastPackage(dir, entries, n);
      } else {
        forall i: nat
          ensures LastPackage(dir, entries, i) <==> LastPackage(dir, entries[..n], i)
        {
          if LastPackage(dir, entries[..n], i) {
            forall j | i < j < |entries|
              ensures !Tries(dir, entries[j])
            {
              if j < n { assert entries[..n][j] == entries[j]; }
            }
          }
          if LastPackage(dir, entries, i) {
            assert i < n && forall j :: i < j < n ==> entries[..n][j] == entries[j];
          }
        }
        assert forall e :: e in entries ==> e == entries[n] || e in entries[..n];
      }
    }
  }

  /** A directory holds the manager when its last package file is one, and lies below a path that begins with "/data/ap". */
  lemma HoldsMeans(w: World, magic: nat, path: string)
    ensures HoldsManager(w, magic, path) <==>
            && w.open(path).Some? && w.open(path).value.magic == magic && magic != 0
            && var entries := w.open(path).value.entries;
               exists i: nat :: LastPackage(path, entries, i) &&
                                var c := path + "/" + entries[i].name;
                                |c| >= 8 && c[..8] == "/data/ap" && w.isManager(c)
  {
    var l := Listing(w, magic, path);
    CandidateIsLast(path, l);
  }
}
