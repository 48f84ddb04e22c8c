/**
 The tree that the directory walk covers (kernel/manager/throne_tracker.c:140-205), seen from its paths: which
 directories it has, and that on a file system no directory is in it twice.
 */
module DirectoryTree {
  import opened DirectoryWalk
  import opened Options

  // ----- which places a tree has -----

  lemma {:induction false} SumHas<T>(f: T -> multiset<Place>, s: seq<T>, p: Place) returns (i: nat)
    requires p in Sum(f, s)
    ensures i < |s| && p in f(s[i])
  {
    if p in f(s[0]) {
      i := 0;
    } else {
      var k := SumHas(f, s[1..], p);
      i := k + 1;
    }
  }

  lemma {:induction false} SumHolds<T>(f: T -> multiset<Place>, s: seq<T>, i: nat, p: Place)
    requires i < |s| && p in f(s[i])
    ensures p in Sum(f, s)
  {
    if i > 0 { SumHolds(f, s[1..], i - 1, p); }
  }

  /** A place of the tree: its root, or a place of the tree of a subdirectory. */
  ghost predicate Reached(subs: Lister, path: string, depth: nat, p: Place)
    decreases depth
  {
    p == Place(path, depth) || (depth > 0 && exists sub :: sub in subs(path) && Reached(subs, sub, depth - 1, p))
  }

  lemma {:induction false} TreeIsReached(subs: Lister, path: string, depth: nat, p: Place)
    ensures p in TreeBy(subs, path, depth) <==> Reached(subs, path, depth, p)
    decreases depth
  {
    if depth > 0 {
      var f := TreesBy(subs, depth - 1);
      forall sub | sub in subs(path)
        ensures p in f(sub) <==> Reached(subs, sub, depth - 1, p)
      {
        TreeIsReached(subs, sub, depth - 1, p);
      }
      if p in Sum(f, subs(path)) {
        var i := SumHas(f, subs(path), p);
        assert subs(path)[i] in subs(path);
      }
      forall sub | sub in subs(path) && p in f(sub)
        ensures p in Sum(f, subs(path))
      {
        var i :| 0 <= i < |subs(path)| && subs(path)[i] == sub;
        SumHolds(f, subs(path), i, p);
      }
    }
  }

  /** A way down from the root: each path lists the next, and it takes as many steps as the depths differ. */
  ghost predicate WayTo(subs: Lister, path: string, depth: nat, p: Place, way: seq<string>) {
    && |way| > 0 && way[0] == path && way[|way| - 1] == p.path && p.depth + |way| - 1 == depth
    && forall i :: 0 <= i < |way| - 1 ==> Lists(subs, way, i)
  }

  predicate Lists(subs: Lister, way: seq<string>, i: nat)
    requires i + 1 < |way|
  {
    way[i + 1] in subs(way[i])
  }

  lemma {:induction false} ReachedHasWay(subs: Lister, path: string, depth: nat, p: Place) returns (way: seq<string>)
    requires Reached(subs, path, depth, p)
    ensures WayTo(subs, path, depth, p, way)
    decreases depth
  {
    if p == Place(path, depth) {
      way := [path];
    } else {
      var sub :| sub in subs(path) && Reached(subs, sub, depth - 1, p);
      var rest := ReachedHasWay(subs, sub, depth - 1, p);
      way := [path] + rest;
      forall i | 0 <= i < |way| - 1
        ensures Lists(subs, way, i)
      {
        if i > 0 { assert Lists(subs, rest, i - 1); }
      }
    }
  }

  lemma {:induction false} WayIsReached(subs: Lister, path: string, depth: nat, p: Place, way: seq<string>)
    requires WayTo(subs, path, depth, p, way)
    ensures Reached(subs, path, depth, p)
    decreases depth
  {
    if |way| > 1 {
      assert Lists(subs, way, 0);
      var rest := way[1..];
      forall i | 0 <= i < |rest| - 1
        ensures Lists(subs, rest, i)
      {
        assert Lists(subs, way, i + 1);
      }
      WayIsReached(subs, way[1], depth - 1, p, rest);
    }
  }

  /** The tree has exactly the directories that a way of listed subdirectories within the depth limit leads to. */
  lemma TreeIsWays(subs: Lister, path: string, depth: nat, p: Place)
    ensures p in TreeBy(subs, path, depth) <==> exists way :: WayTo(subs, path, depth, p, way)
  {
    TreeIsReached(subs, path, depth, p);
    if Reached(subs, path, depth, p) {
      var way := ReachedHasWay(subs, path, depth, p);
    }
    forall way | WayTo(subs, path, depth, p, way)
      ensures Reached(subs, path, depth, p)
    {
      WayIsReached(subs, path, depth, p, way);
    }
  }

  // ----- no place twice -----

  type Order = (string, string) -> bool

  /**
   What makes a tree of paths a tree: subdirectories are longer and under their directory, none is listed twice, and
   nothing is under two of them.
   */
  ghost predicate Forest(subs: Lister, under: Order) {
    && (forall a :: under(a, a))
    && (forall a, b, c :: under(a, b) && under(b, c) ==> under(a, c))
    && (forall a, b :: under(a, b) ==> |a| <= |b|)
    && (forall a, b :: b in subs(a) ==> under(a, b) && |a| < |b|)
    && (forall a :: Different(subs(a)))
    && (forall d, a, b, q :: a in subs(d) && b in subs(d) && under(a, q) && under(b, q) ==> a == b)
  }

  ghost predicate Different(s: seq<string>) {
    forall i, j :: 0 <= i < j < |s| ==> s[i] != s[j]
  }

  /** Everything in a tree is under its root, and longer unless it is the root. */
  lemma {:induction false} ReachedIsUnder(subs: Lister, under: Order, path: string, depth: nat, p: Place)
    requires Forest(subs, under) && Reached(subs, path, depth, p)
    ensures under(path, p.path) && (p != Place(path, depth) ==> |p.path| > |path|)
    decreases depth
  {
    if p != Place(path, depth) {
      var sub :| sub in subs(path) && Reached(subs, sub, depth - 1, p);
      ReachedIsUnder(subs, under, sub, depth - 1, p);
    }
  }

  /** At most one summand has p, and it has p once at most. */
  lemma {:induction false} SumOnce<T>(f: T -> multiset<Place>, s: seq<T>, p: Place)
    requires forall i :: 0 <= i < |s| ==> f(s[i])[p] <= 1
    requires forall i, j :: 0 <= i < j < |s| ==> !(p in f(s[i]) && p in f(s[j]))
    ensures Sum(f, s)[p] <= 1
  {
    if s != [] {
      var rest := s[1..];
      assert forall i :: 0 <= i < |rest| ==> rest[i] == s[i + 1];
      SumOnce(f, rest, p);
      if p in Sum(f, rest) {
        var k := SumHas(f, rest, p);
        assert p in f(s[k + 1]);
      }
    }
  }

  /** A place is in the trees of two subdirectories only if they are one, and the root is in neither. */
  lemma SubtreesAreApart(subs: Lister, under: Order, path: string, depth: nat, a: string, b: string, p: Place)
    requires Forest(subs, under) && depth > 0 && a in subs(path) && b in subs(path)
    requires Reached(subs, a, depth - 1, p)
    ensures p != Place(path, depth) && (Reached(subs, b, depth - 1, p) ==> a == b)
  {
    ReachedIsUnder(subs, under, a, depth - 1, p);
    if Reached(subs, b, depth - 1, p) {
      ReachedIsUnder(subs, under, b, depth - 1, p);
    }
  }

  /** Summands that are apart have p once at most together. */
  lemma ApartHaveOnce(f: string -> multiset<Place>, s: seq<string>, p: Place)
    requires Different(s) && forall a :: a in s ==> f(a)[p] <= 1
    requires forall a, b :: a in s && b in s && p in f(a) && p in f(b) ==> a == b
    ensures Sum(f, s)[p] <= 1
  {
    assert forall i :: 0 <= i < |s| ==> s[i] in s;
    SumOnce(f, s, p);
  }

  lemma RootApart(f: string -> multiset<Place>, s: seq<string>, root: Place, p: Place)
    requires Sum(f, s)[p] <= 1 && forall a :: a in s && p in f(a) ==> p != root
    ensures (multiset{root} + Sum(f, s))[p] <= 1
  {
    if p in Sum(f, s) {
      var i := SumHas(f, s, p);
      assert s[i] in s;
    }
  }

  lemma ListedOnce(subs: Lister, under: Order, path: string)
    requires Forest(subs, under)
    ensures Different(subs(path))
  {
  }

  /** No place is in the tree twice. */
  lemma {:induction false} TreeHasOnce(subs: Lister, under: Order, path: string, depth: nat, p: Place)
    requires Forest(subs, under)
    ensures TreeBy(subs, path, depth)[p] <= 1
    decreases depth
  {
    if depth > 0 {
      var f := TreesBy(subs, depth - 1);
      forall a | a in subs(path)
        ensures f(a)[p] <= 1
        ensures p in f(a) ==> p != Place(path, depth)
      {
        TreeHasOnce(subs, under, a, depth - 1, p);
        TreeIsReached(subs, a, depth - 1, p);
        if p in f(a) { SubtreesAreApart(subs, under, path, depth, a, a, p); }
      }
      forall a, b | a in subs(path) && b in subs(path) && p in f(a) && p in f(b)
        ensures a == b
      {
        TreeIsReached(subs, a, depth - 1, p);
        TreeIsReached(subs, b, depth - 1, p);
        SubtreesAreApart(subs, under, path, depth, a, b, p);
      }
      ListedOnce(subs, under, path);
      ApartHaveOnce(f, subs(path), p);
      RootApart(f, subs(path), Place(path, depth), p);
    }
  }

  /** Nor is it there at two depths. */
  lemma {:induction false} SamePathSamePlace(subs: Lister, under: Order, path: string, depth: nat, p: Place, q: Place)
    requires Forest(subs, under) && Reached(subs, path, depth, p) && Reached(subs, path, depth, q) && p.path == q.path
    ensures p == q
    decreases depth
  {
    ReachedIsUnder(subs, under, path, depth, p);
    ReachedIsUnder(subs, under, path, depth, q);
    if p != Place(path, depth) && q != Place(path, depth) {
      var a :| a in subs(path) && Reached(subs, a, depth - 1, p);
      var b :| b in subs(path) && Reached(subs, b, depth - 1, q);
      ReachedIsUnder(subs, under, a, depth - 1, p);
      ReachedIsUnder(subs, under, b, depth - 1, q);
      SamePathSamePlace(subs, under, a, depth - 1, p, q);
    }
  }

  // ----- file systems -----

  /** The names of a directory: not empty, without a slash, and pairwise different. */
  ghost predicate NamesOk(entries: seq<DirEntry>) {
    && (forall i :: 0 <= i < |entries| ==> entries[i].name != "" && '/' !in entries[i].name)
    && (forall i, j :: 0 <= i < j < |entries| ==> entries[i].name != entries[j].name)
  }

  ghost predicate FileSystem(w: World) {
    forall path :: w.open(path).Some? ==> NamesOk(w.open(path).value.entries)
  }

  /** The path itself, or one below it. */
  predicate IsUnder(path: string, q: string) {
    q == path || StartsWith(q, path + "/")
  }

  lemma UnderIsTransitive(a: string, b: string, q: string)
    requires IsUnder(a, b) && IsUnder(b, q)
    ensures IsUnder(a, q)
  {
    if q != b && b != a {
      assert q[..|a| + 1] == q[..|b|][..|a| + 1];
      assert b[..|a| + 1] == q[..|b| + 1][..|b|][..|a| + 1];
    }
  }

  /** A path is under at most one of two subdirectories with different names. */
  lemma UnderOneName(dir: string, a: string, b: string, q: string)
    requires '/' !in a && '/' !in b && IsUnder(dir + "/" + a, q) && IsUnder(dir + "/" + b, q)
    ensures a == b
  {
    var n := |dir| + 1;
    assert q[..n + |a|] == dir + "/" + a && q[..n + |b|] == dir + "/" + b;
    var rest := q[n..];
    assert rest[..|a|] == a && rest[..|b|] == b;
    assert |rest| > |a| ==> rest[|a|] == q[n + |a|];
    assert |rest| > |b| ==> rest[|b|] == q[n + |b|];
    NotLonger(rest, a, b);
    NotLonger(rest, b, a);
  }

  /** The first part of a path ends at its first slash. */
  lemma NotLonger(rest: string, a: string, b: string)
    requires |a| <= |rest| && |b| <= |rest| && rest[..|a|] == a && rest[..|b|] == b
    requires '/' !in b && (|rest| > |a| ==> rest[|a|] == '/')
    ensures |b| <= |a|
  {
    assert forall k :: 0 <= k < |b| ==> rest[k] == b[k] && rest[k] != '/';
  }

  predicate IsEntry(dir: string, entries: seq<DirEntry>, sub: string) {
    exists e :: e in entries && sub == Under(dir, e)
  }

  /** Every subdirectory of the walk is one of the listed names, and none is there twice. */
  lemma {:induction false} SubDirNames(dir: string, entries: seq<DirEntry>)
    requires NamesOk(entries)
    ensures forall sub :: sub in SubDirs(dir, entries) ==> IsEntry(dir, entries, sub)
    ensures Different(SubDirs(dir, entries))
    decreases |entries|
  {
    if entries != [] {
      var n := |entries| - 1;
      var rest := entries[..n];
      SubDirNames(dir, rest);
      forall sub | sub in SubDirs(dir, rest)
        ensures IsEntry(dir, entries, sub) && sub != Under(dir, entries[n])
      {
        var e :| e in rest && sub == Under(dir, e);
        var k :| 0 <= k < n && rest[k] == e;
        assert entries[k] == e;
        NamesTellApart(dir, e, entries[n]);
      }
      assert entries[n] in entries;
      var before := SubDirs(dir, rest);
      assert forall i :: 0 <= i < |before| ==> before[i] in before;
    }
  }

  lemma NamesTellApart(dir: string, a: DirEntry, b: DirEntry)
    requires a.name != b.name
    ensures Under(dir, a) != Under(dir, b)
  {
    assert Under(dir, a)[|dir| + 1..] == a.name && Under(dir, b)[|dir| + 1..] == b.name;
  }

  lemma SubName(w: World, magic: nat, dir: string, sub: string) returns (name: string)
    requires FileSystem(w) && sub in SubsOf(w, magic)(dir)
    ensures sub == dir + "/" + name && '/' !in name
  {
    SubDirNames(dir, Listing(w, magic, dir));
    var e :| e in Listing(w, magic, dir) && sub == Under(dir, e);
    name := e.name;
  }

  lemma SubIsUnder(w: World, magic: nat, dir: string, sub: string)
    requires FileSystem(w) && sub in SubsOf(w, magic)(dir)
    ensures IsUnder(dir, sub) && |dir| < |sub|
  {
    var name := SubName(w, magic, dir, sub);
    assert sub[..|dir| + 1] == dir + "/";
  }

  lemma SiblingsAreApart(w: World, magic: nat, dir: string, a: string, b: string, q: string)
    requires FileSystem(w) && a in SubsOf(w, magic)(dir) && b in SubsOf(w, magic)(dir) && IsUnder(a, q) && IsUnder(b, q)
    ensures a == b
  {
    var m := SubName(w, magic, dir, a);
    var n := SubName(w, magic, dir, b);
    UnderOneName(dir, m, n, q);
  }

  lemma SubsDiffer(w: World, magic: nat, dir: string)
    requires FileSystem(w)
    ensures Different(SubsOf(w, magic)(dir))
  {
    SubDirNames(dir, Listing(w, magic, dir));
  }

  function Unders(): Order {
    (a: string, b: string) => IsUnder(a, b)
  }

  lemma FileSystemIsForest(w: World, magic: nat)
    requires FileSystem(w)
    ensures Forest(SubsOf(w, magic), Unders())
  {
    var subs := SubsOf(w, magic);
    forall a, b, c | IsUnder(a, b) && IsUnder(b, c)
      ensures IsUnder(a, c)
    {
      UnderIsTransitive(a, b, c);
    }
    forall a
      ensures Different(subs(a))
    {
      SubsDiffer(w, magic, a);
    }
    forall a, b | b in subs(a)
      ensures IsUnder(a, b) && |a| < |b|
    {
      SubIsUnder(w, magic, a, b);
    }
    forall d, a, b, q | a in subs(d) && b in subs(d) && IsUnder(a, q) && IsUnder(b, q)
      ensures a == b
    {
      SiblingsAreApart(w, magic, d, a, b, q);
    }
  }

  // ----- the search -----

  /** A directory within the depth limit: some way of listed subdirectories leads to it. */
  ghost predicate WithinReach(w: World, path: string, depth: nat, p: Place) {
    exists way :: WayTo(SubsOf(w, FirstMagic(w, path)), path, depth, p, way)
  }

  /** A visited tree on a file system, place by place. */
  lemma VisitedOnce(w: World, path: string, depth: nat, p: Place)
    requires FileSystem(w)
    ensures Tree(w, FirstMagic(w, path), path, depth)[p] == if WithinReach(w, path, depth, p) then 1 else 0
  {
    var subs := SubsOf(w, FirstMagic(w, path));
    FileSystemIsForest(w, FirstMagic(w, path));
    TreeHasOnce(subs, Unders(), path, depth, p);
    TreeIsWays(subs, path, depth, p);
  }

  lemma OnePlacePerPath(w: World, path: string, depth: nat, p: Place, q: Place)
    requires FileSystem(w) && WithinReach(w, path, depth, p) && WithinReach(w, path, depth, q) && p.path == q.path
    ensures p == q
  {
    var subs := SubsOf(w, FirstMagic(w, path));
    FileSystemIsForest(w, FirstMagic(w, path));
    var v :| WayTo(subs, path, depth, p, v);
    var u :| WayTo(subs, path, depth, q, u);
    WayIsReached(subs, path, depth, p, v);
    WayIsReached(subs, path, depth, q, u);
    SamePathSamePlace(subs, Unders(), path, depth, p, q);
  }

  /**
   `search_manager` on a file system: it finds a manager if and only if a directory within reach holds one, visits no
   directory twice, and if it finds nothing has visited each directory within reach exactly once and nothing else.
   */
  method SearchOnce(w: World, path: string, depth: nat) returns (crowned: Option<string>, ghost visited: multiset<Place>)
    requires FileSystem(w)
    ensures crowned.None? <==> forall p :: WithinReach(w, path, depth, p) ==> !HoldsManager(w, FirstMagic(w, path), p.path)
    ensures forall p :: visited[p] <= if WithinReach(w, path, depth, p) then 1 else 0
    ensures forall p, q :: p in visited && q in visited && p.path == q.path ==> p == q
    ensures crowned.None? ==> forall p :: visited[p] == if WithinReach(w, path, depth, p) then 1 else 0
  {
    ghost var left;
    crowned, left, visited := SearchManager(w, path, depth);
    forall p
      ensures Tree(w, FirstMagic(w, path), path, depth)[p] == if WithinReach(w, path, depth, p) then 1 else 0
    {
      VisitedOnce(w, path, depth, p);
    }
    forall p, q | p in visited && q in visited && p.path == q.path
      ensures p == q
    {
      OnePlacePerPath(w, path, depth, p, q);
    }
  }
}
