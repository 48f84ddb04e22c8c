/**
 The search for the manager's package (kernel/manager/throne_tracker.c:69-205): a walk that appends to the
 list it iterates, with the next pointer fetched before the body runs. `depth + 1` rounds empty the list.
 */
module DirectoryWalk {
  import opened Options

  const DATA_PATH_LEN: nat := 384

  datatype FileKind = Directory | Regular | OtherFile

  datatype DirEntry = DirEntry(name: string, kind: FileKind)

  /** An opened directory: the magic number of its file system, and what it lists. */
  datatype Opened = Opened(magic: nat, entries: seq<DirEntry>)

  /** The file system, and which packages are the manager. */
  datatype World = World(open: string -> Option<Opened>, isManager: string -> bool)

  /** `struct data_path`, told apart by its address. */
  datatype Node = Node(id: nat, path: string, depth: nat)

  // ----- one directory entry -----

  predicate StartsWith(s: string, prefix: string) {
    |s| >= |prefix| && s[..|prefix|] == prefix
  }

  /** A staging package: vmdl*.tmp */
  predicate IsStaging(e: DirEntry) {
    e.kind.Directory? && |e.name| >= 8 && StartsWith(e.name, "vmdl") && e.name[|e.name| - 4..] == ".tmp"
  }

  predicate Skipped(dir: string, e: DirEntry) {
    e.name == ".." || e.name == "." || e.name == "" || IsStaging(e) || |Under(dir, e)| >= DATA_PATH_LEN
  }

  function Under(dir: string, e: DirEntry): string {
    dir + "/" + e.name
  }

  /** The subdirectories that the walk goes down to. */
  function SubDirs(dir: string, entries: seq<DirEntry>): seq<string>
    decreases |entries|
  {
    if entries == [] then []
    else
      var e := entries[|entries| - 1];
      SubDirs(dir, entries[..|entries| - 1]) + if Descends(dir, e) then [Under(dir, e)] else []
  }

  /** The last package file of a directory; the empty string if there is none. */
  function Candidate(dir: string, entries: seq<DirEntry>): string
    decreases |entries|
  {
    if entries == [] then ""
    else
      var e := entries[|entries| - 1];
      if IsPackage(dir, e) then Under(dir, e)
      else Candidate(dir, entries[..|entries| - 1])
  }

  // ----- what there is to visit -----

  /** A place of the walk: a directory, and how far below it the walk goes. */
  datatype Place = Place(path: string, depth: nat)

  /** What a directory lists, if it opens and is on the file system of the first one. */
  function Listing(w: World, magic: nat, path: string): seq<DirEntry> {
    var file := w.open(path);
    if file.Some? && file.value.magic == magic && magic != 0 then file.value.entries else []
  }

  function Sum<T>(f: T -> multiset<Place>, s: seq<T>): multiset<Place> {
    if s == [] then multiset{} else f(s[0]) + Sum(f, s[1..])
  }

  lemma {:induction false} SumConcat<T>(f: T -> multiset<Place>, a: seq<T>, b: seq<T>)
    ensures Sum(f, a + b) == Sum(f, a) + Sum(f, b)
  {
    if a == [] {
      assert a + b == b;
    } else {
      assert (a + b)[1..] == a[1..] + b;
      SumConcat(f, a[1..], b);
    }
  }

  lemma {:induction false} SumAgrees<S, T>(f: S -> multiset<Place>, a: seq<S>, g: T -> multiset<Place>, b: seq<T>)
    requires |a| == |b| && forall i :: 0 <= i < |a| ==> f(a[i]) == g(b[i])
    ensures Sum(f, a) == Sum(g, b)
  {
    if a != [] {
      assert forall i :: 0 <= i < |a[1..]| ==> a[1..][i] == a[i + 1] && b[1..][i] == b[i + 1];
      SumAgrees(f, a[1..], g, b[1..]);
    }
  }

  /** Which subdirectories the walk goes down to from a path. */
  type Lister = string -> seq<string>

  function SubsOf(w: World, magic: nat): Lister {
    (path: string) => SubDirs(path, Listing(w, magic, path))
  }

  /** The places below a path within a depth, as often as ways lead to them. */
  function TreeBy(subs: Lister, path: string, depth: nat): multiset<Place>
    decreases depth, 0
  {
    multiset{Place(path, depth)} + if depth == 0 then multiset{} else Sum(TreesBy(subs, depth - 1), subs(path))
  }

  function TreesBy(subs: Lister, depth: nat): string -> multiset<Place>
    decreases depth, 1
  {
    (path: string) => TreeBy(subs, path, depth)
  }

  /** Every directory within the depth limit. */
  function Tree(w: World, magic: nat, path: string, depth: nat): multiset<Place> {
    TreeBy(SubsOf(w, magic), path, depth)
  }

  function TreeOf(w: World, magic: nat): Node -> multiset<Place> {
    (n: Node) => Tree(w, magic, n.path, n.depth)
  }

  /** What the entries of a list stand for. */
  function Pending(w: World, magic: nat, list: seq<Node>): multiset<Place> {
    Sum(TreeOf(w, magic), list)
  }

  // ----- the list with a prefetched next pointer -----

  /** `list_next_entry`: the node behind the one with this id; None is the list head. */
  function NextOf(list: seq<Node>, id: nat): Option<nat>
  {
    if |list| <= 1 then None
    else if list[0].id == id then Some(list[1].id)
    else NextOf(list[1..], id)
  }

  /** `list_del` */
  function Delete(list: seq<Node>, id: nat): seq<Node> {
    if list == [] then [] else if list[0].id == id then list[1..] else [list[0]] + Delete(list[1..], id)
  }

  /** Ids grow along the list, and all are below the next free one. */
  predicate IdsOk(list: seq<Node>, unused: nat) {
    && (forall i :: 0 <= i < |list| ==> list[i].id < unused)
    && (forall i, j :: 0 <= i < j < |list| ==> list[i].id < list[j].id)
  }

  predicate DepthsUpTo(list: seq<Node>, limit: int) {
    forall i :: 0 <= i < |list| ==> list[i].depth <= limit
  }

  /** The entries that one directory appends. */
  function Appended(paths: seq<string>, depth: nat, unused: nat): (r: seq<Node>)
    ensures |r| == |paths|
  {
    seq(|paths|, i requires 0 <= i < |paths| => Node(unused + i, paths[i], depth))
  }

  /** A directory and the entries it appends: together what it stood for. */
  lemma TreeSplits(w: World, magic: nat, n: Node, unused: nat)
    requires n.depth > 0
    ensures TreeOf(w, magic)(n) ==
            multiset{Place(n.path, n.depth)} +
            Pending(w, magic, Appended(SubDirs(n.path, Listing(w, magic, n.path)), n.depth - 1, unused))
  {
    var paths := SubDirs(n.path, Listing(w, magic, n.path));
    SumAgrees(TreesBy(SubsOf(w, magic), n.depth - 1), paths, TreeOf(w, magic), Appended(paths, n.depth - 1, unused));
  }

  // ----- the walk -----

  /** A directory whose last package file is the manager. */
  predicate HoldsManager(w: World, magic: nat, path: string) {
    var c := Candidate(path, Listing(w, magic, path));
    StartsWith(c, "/data/ap") && w.isManager(c)
  }

  /** The magic number of the first directory; 0 if it does not open. */
  function FirstMagic(w: World, path: string): nat {
    if w.open(path).Some? then w.open(path).value.magic else 0
  }

  /** What one directory appends. */
  function AppendedBy(w: World, magic: nat, n: Node, unused: nat): seq<Node> {
    if n.depth == 0 then [] else Appended(SubDirs(n.path, Listing(w, magic, n.path)), n.depth - 1, unused)
  }

  lemma AppendedNext(dir: string, paths: seq<string>, p: string, depth: nat, unused: nat)
    ensures Appended(paths + [p], depth, unused) == Appended(paths, depth, unused) + [Node(unused + |paths|, p, depth)]
  {
  }

  /** A subdirectory that the walk goes down to, if the entry is one. */
  predicate Descends(dir: string, e: DirEntry) {
    !Skipped(dir, e) && e.kind.Directory?
  }

  predicate IsPackage(dir: string, e: DirEntry) {
    !Skipped(dir, e) && e.kind.Regular? && StartsWith(e.name, "base.apk")
  }

  /** `my_actor` for one entry: a path for the list, or a new candidate, or neither. */
  method MyActor(dir: string, e: DirEntry, depth: nat) returns (sub: Option<string>, found: Option<string>)
    ensures sub == if Descends(dir, e) && depth > 0 then Some(Under(dir, e)) else None
    ensures found == if IsPackage(dir, e) then Some(Under(dir, e)) else None
  {
    sub, found := None, None;
    if Skipped(dir, e) {
      return;
    }
    if e.kind.Directory? && depth > 0 {
      return Some(Under(dir, e)), None;
    }
    if e.kind.Regular? && StartsWith(e.name, "base.apk") {
      return None, Some(Under(dir, e));
    }
  }

  /** The subdirectories and the candidate of one entry more. */
  lemma OneEntryMore(dir: string, entries: seq<DirEntry>, k: nat)
    requires k < |entries|
    ensures SubDirs(dir, entries[..k + 1]) ==
            SubDirs(dir, entries[..k]) + if Descends(dir, entries[k]) then [Under(dir, entries[k])] else []
    ensures Candidate(dir, entries[..k + 1]) ==
            if IsPackage(dir, entries[k]) then Under(dir, entries[k]) else Candidate(dir, entries[..k])
  {
    assert entries[..k + 1][..k] == entries[..k];
  }

  /** What k entries of a directory append. */
  function AppendedUpTo(dir: string, entries: seq<DirEntry>, k: nat, depth: nat, unused: nat): seq<Node>
    requires k <= |entries|
  {
    if depth == 0 then [] else Appended(SubDirs(dir, entries[..k]), depth - 1, unused)
  }

  /** One call of the actor: what it does to the tail of the list and to the candidate. */
  method ActOn(list: seq<Node>, dir: string, depth: nat, entries: seq<DirEntry>, k: nat, unused: nat, was: seq<Node>, candidate: string)
    returns (after: seq<Node>, candidate': string)
    requires k < |entries| && was == list + AppendedUpTo(dir, entries, k, depth, unused) && candidate == Candidate(dir, entries[..k])
    ensures after == list + AppendedUpTo(dir, entries, k + 1, depth, unused)
    ensures candidate' == Candidate(dir, entries[..k + 1])
  {
    OneEntryMore(dir, entries, k);
    after, candidate' := was, candidate;
    var sub, found := MyActor(dir, entries[k], depth);
    if sub.Some? {
      AppendedNext(dir, SubDirs(dir, entries[..k]), sub.value, depth - 1, unused);
      after := was + [Node(unused + |was| - |list|, sub.value, depth - 1)];
    }
    if found.Some? {
      candidate' := found.value;
    }
  }

  /** `iterate_dir` with `my_actor`: subdirectories go to the tail of the list, package files to the candidate. */
  method IterateDir(list: seq<Node>, dir: string, depth: nat, entries: seq<DirEntry>, unused: nat)
    returns (after: seq<Node>, candidate: string)
    ensures after == list + if depth == 0 then [] else Appended(SubDirs(dir, entries), depth - 1, unused)
    ensures candidate == Candidate(dir, entries)
  {
    after, candidate := list, "";
    assert AppendedUpTo(dir, entries, 0, depth, unused) == [];
    for k := 0 to |entries|
      invariant after == list + AppendedUpTo(dir, entries, k, depth, unused) && candidate == Candidate(dir, entries[..k])
    {
      after, candidate := ActOn(list, dir, depth, entries, k, unused, after, candidate);
    }
    assert entries[..|entries|] == entries;
  }

  /** The body of the inner loop up to `skip_iterate`, when nothing was found yet. */
  method Visit(w: World, list: seq<Node>, n: Node, unused: nat, data_app_magic: nat, ghost magic: nat)
    returns (after: seq<Node>, magic': nat, crowned: Option<string>)
    requires if data_app_magic == 0 then magic == FirstMagic(w, n.path) else data_app_magic == magic
    ensures magic' == magic && after == list + AppendedBy(w, magic, n, unused)
    ensures crowned.Some? <==> HoldsManager(w, magic, n.path)
    ensures crowned.Some? ==> crowned.value == Candidate(n.path, Listing(w, magic, n.path))
  {
    after, magic', crowned := list, data_app_magic, None;
    var candidate := "";
    var file := w.open(n.path);
    if file.Some? {
      if magic' == 0 {
        magic' := file.value.magic;
      }
      if magic' != 0 && file.value.magic == magic' {
        after, candidate := IterateDir(list, n.path, n.depth, file.value.entries, unused);
      }
    }
    if StartsWith(candidate, "/data/ap") && w.isManager(candidate) {
      crowned := Some(candidate);
    }
  }

  /** Where the walk stands: what was visited and what the list stands for make up the whole tree. */
  ghost predicate Accounts(w: World, magic: nat, root: Place, visited: multiset<Place>, list: seq<Node>, stop: bool) {
    var tree := Tree(w, magic, root.path, root.depth);
    && (!stop ==> visited + Pending(w, magic, list) == tree && forall p :: p in visited ==> !HoldsManager(w, magic, p.path))
    && (stop ==> visited <= tree)
  }

  /** Visiting the first entry: the list stands for one place less. */
  lemma VisitPending(w: World, magic: nat, list: seq<Node>, unused: nat)
    requires list != []
    ensures Pending(w, magic, list) ==
            multiset{Place(list[0].path, list[0].depth)} + Pending(w, magic, list[1..] + AppendedBy(w, magic, list[0], unused))
  {
    var n := list[0];
    var app := AppendedBy(w, magic, n, unused);
    assert TreeOf(w, magic)(n) == multiset{Place(n.path, n.depth)} + Pending(w, magic, app) by {
      if n.depth > 0 { TreeSplits(w, magic, n, unused); }
    }
    SumConcat(TreeOf(w, magic), list[1..], app);
    Reorder(Pending(w, magic, list), multiset{Place(n.path, n.depth)}, Pending(w, magic, app), Pending(w, magic, list[1..]));
  }

  lemma Reorder(whole: multiset<Place>, a: multiset<Place>, b: multiset<Place>, c: multiset<Place>)
    requires whole == (a + b) + c
    ensures whole == a + (c + b)
  {
  }

  /** One turn of the inner loop. */
  lemma VisitAccounts(w: World, magic: nat, root: Place, visited: multiset<Place>, list: seq<Node>, unused: nat, found: bool)
    requires list != [] && Accounts(w, magic, root, visited, list, false)
    requires found == HoldsManager(w, magic, list[0].path)
    ensures Accounts(w, magic, root, visited + multiset{Place(list[0].path, list[0].depth)},
                     list[1..] + AppendedBy(w, magic, list[0], unused), found)
  {
    VisitPending(w, magic, list, unused);
    MoveOver(visited, multiset{Place(list[0].path, list[0].depth)},
             Pending(w, magic, list[1..] + AppendedBy(w, magic, list[0], unused)));
  }

  lemma MoveOver(a: multiset<Place>, b: multiset<Place>, c: multiset<Place>)
    ensures a + (b + c) == (a + b) + c && a + b <= (a + b) + c
  {
  }

  /** A turn after the manager was found: the entry is dropped. */
  lemma SkipShrinks(w: World, magic: nat, list: seq<Node>)
    requires list != []
    ensures |Pending(w, magic, list[1..])| < |Pending(w, magic, list)|
  {
    assert Place(list[0].path, list[0].depth) in TreeOf(w, magic)(list[0]);
  }

  /** The locals of the search: the work list, the next free address, `data_app_magic`, and what was found (`stop`). */
  datatype State = State(list: seq<Node>, unused: nat, data_app_magic: nat, crowned: Option<string>)

  /** What holds between any two turns. */
  ghost predicate StateOk(w: World, root: Place, s: State, visited: multiset<Place>) {
    var magic := FirstMagic(w, root.path);
    && IdsOk(s.list, s.unused)
    && (if s.data_app_magic == 0 then s.list == [] || (|s.list| == 1 && s.list[0].path == root.path) else s.data_app_magic == magic)
    && Accounts(w, magic, root, visited, s.list, s.crowned.Some?)
    && (s.crowned.Some? ==> exists p :: p in visited && Crowns(w, magic, p, s.crowned.value))
  }

  predicate Crowns(w: World, magic: nat, p: Place, found: string) {
    HoldsManager(w, magic, p.path) && found == Candidate(p.path, Listing(w, magic, p.path))
  }

  lemma AppendedOk(w: World, magic: nat, list: seq<Node>, n: Node, unused: nat, limit: int)
    requires IdsOk(list, unused) && DepthsUpTo(list, limit) && n.depth <= limit
    ensures var app := AppendedBy(w, magic, n, unused);
            && IdsOk(list + app, unused + |app|) && DepthsUpTo(list + app, limit)
            && DepthsUpTo(app, limit - 1) && (magic == 0 ==> app == [])
  {
  }

  /** What one turn does: the first entry is gone, and what came to the tail is less deep. */
  ghost predicate TurnTaken(w: World, root: Place, s: State, s': State, visited: multiset<Place>, limit: int)
    requires s.list != []
  {
    && StateOk(w, root, s', visited) && DepthsUpTo(s'.list, limit)
    && s.list[1..] <= s'.list && DepthsUpTo(s'.list[|s.list| - 1..], limit - 1)
    && |Pending(w, FirstMagic(w, root.path), s'.list)| < |Pending(w, FirstMagic(w, root.path), s.list)|
  }

  /** One turn: the first entry is visited unless the search stopped, then unlinked. */
  method TakeTurn(w: World, s: State, ghost root: Place, ghost visited: multiset<Place>, ghost limit: int)
    returns (s': State, ghost visited': multiset<Place>)
    requires StateOk(w, root, s, visited) && DepthsUpTo(s.list, limit) && s.list != []
    ensures TurnTaken(w, root, s, s', visited', limit)
  {
    var pos := s.list[0];
    if s.crowned.Some? {
      s', visited' := s.(list := Delete(s.list, pos.id)), visited;
      SkipOk(w, root, s, visited, limit);
    } else {
      s' := VisitFirst(w, s, FirstMagic(w, root.path));
      visited' := visited + multiset{Place(pos.path, pos.depth)};
      VisitOk(w, s, root, visited, limit, s'.crowned);
    }
  }

  method VisitFirst(w: World, s: State, ghost magic: nat) returns (s': State)
    requires s.list != []
    requires if s.data_app_magic == 0 then magic == FirstMagic(w, s.list[0].path) else s.data_app_magic == magic
    ensures s' == AfterVisit(w, s, magic, s'.crowned)
    ensures s'.crowned.Some? <==> HoldsManager(w, magic, s.list[0].path)
    ensures s'.crowned.Some? ==> s'.crowned.value == Candidate(s.list[0].path, Listing(w, magic, s.list[0].path))
  {
    var pos := s.list[0];
    var after, data_app_magic, crowned := Visit(w, s.list, pos, s.unused, s.data_app_magic, magic);
    DeleteFirst(s.list, AppendedBy(w, magic, pos, s.unused));
    s' := State(Delete(after, pos.id), s.unused + |after| - |s.list|, data_app_magic, crowned);
  }

  lemma SkipOk(w: World, root: Place, s: State, visited: multiset<Place>, limit: int)
    requires StateOk(w, root, s, visited) && DepthsUpTo(s.list, limit) && s.list != [] && s.crowned.Some?
    ensures TurnTaken(w, root, s, s.(list := s.list[1..]), visited, limit)
  {
    SkipShrinks(w, FirstMagic(w, root.path), s.list);
  }

  lemma DeleteFirst(list: seq<Node>, app: seq<Node>)
    requires list != []
    ensures Delete(list + app, list[0].id) == list[1..] + app
  {
    assert (list + app)[1..] == list[1..] + app;
  }

  /** The state after the first entry was visited. */
  ghost function AfterVisit(w: World, s: State, magic: nat, crowned: Option<string>): State
    requires s.list != []
  {
    var app := AppendedBy(w, magic, s.list[0], s.unused);
    State(s.list[1..] + app, s.unused + |app|, magic, crowned)
  }

  lemma VisitOk(w: World, s: State, root: Place, visited: multiset<Place>, limit: int, crowned: Option<string>)
    requires StateOk(w, root, s, visited) && DepthsUpTo(s.list, limit) && s.list != [] && s.crowned.None?
    requires crowned.Some? <==> HoldsManager(w, FirstMagic(w, root.path), s.list[0].path)
    requires crowned.Some? ==> crowned.value == Candidate(s.list[0].path, Listing(w, FirstMagic(w, root.path), s.list[0].path))
    ensures var s' := AfterVisit(w, s, FirstMagic(w, root.path), crowned);
            TurnTaken(w, root, s, s', visited + multiset{Place(s.list[0].path, s.list[0].depth)}, limit)
  {
    var magic, pos := FirstMagic(w, root.path), s.list[0];
    var app := AppendedBy(w, magic, pos, s.unused);
    AppendedOk(w, magic, s.list[1..], pos, s.unused, limit);
    VisitPending(w, magic, s.list, s.unused);
    VisitAccounts(w, magic, root, visited, s.list, s.unused, crowned.Some?);
    assert (s.list[1..] + app)[|s.list| - 1..] == app;
    if crowned.Some? {
      var p := Place(pos.path, pos.depth);
      assert p in visited + multiset{p} && Crowns(w, magic, p, crowned.value);
    }
  }

  /** `list_for_each_entry_safe`: the next pointer is taken before the body runs, and followed after it. */
  method Round(w: World, start: State, ghost root: Place, ghost before: multiset<Place>, ghost limit: int)
    returns (s: State, ghost visited: multiset<Place>)
    requires StateOk(w, root, start, before) && DepthsUpTo(start.list, limit)
    ensures StateOk(w, root, s, visited) && DepthsUpTo(s.list, limit - 1)
  {
    s, visited := start, before;
    var pos := if s.list == [] then None else Some(s.list[0].id);
    while pos.Some?
      invariant StateOk(w, root, s, visited) && DepthsUpTo(s.list, limit)
      invariant if pos.Some? then s.list != [] && s.list[0].id == pos.value else DepthsUpTo(s.list, limit - 1)
      decreases |Pending(w, FirstMagic(w, root.path), s.list)|
    {
      var n := NextOf(s.list, pos.value);
      ghost var was := s.list;
      s, visited := TakeTurn(w, s, root, visited, limit);
      assert n.Some? ==> |was| > 1 && s.list[0] == was[1];
      pos := n;
    }
  }

  lemma WalkStarts(w: World, root: Place)
    ensures StateOk(w, root, State([Node(0, root.path, root.depth)], 1, 0, None), multiset{})
  {
    var list := [Node(0, root.path, root.depth)];
    var f := TreeOf(w, FirstMagic(w, root.path));
    assert list[1..] == [];
    assert Sum(f, list) == f(list[0]) + Sum(f, list[1..]);
    assert f(list[0]) == Tree(w, FirstMagic(w, root.path), root.path, root.depth);
  }

  lemma WalkEnds(w: World, root: Place, s: State, visited: multiset<Place>)
    requires StateOk(w, root, s, visited) && s.list == []
    ensures var magic, crowned := FirstMagic(w, root.path), s.crowned;
            var tree := Tree(w, magic, root.path, root.depth);
            && (crowned.None? ==> visited == tree) && visited <= tree
            && (crowned.None? <==> forall p :: p in tree ==> !HoldsManager(w, magic, p.path))
            && (crowned.Some? ==> exists p :: p in tree && Crowns(w, magic, p, crowned.value))
  {
    var magic := FirstMagic(w, root.path);
    assert Pending(w, magic, s.list) == multiset{};
    assert s.crowned.None? ==> visited == Tree(w, magic, root.path, root.depth);
  }

  /**
   `search_manager`: round i starts with entries of depth i at most, so the last round empties the list; a search
   that finds nothing has visited the whole tree of directories within the limit.
   */
  method SearchManager(w: World, path: string, depth: nat) returns (crowned: Option<string>, ghost left: seq<Node>, ghost visited: multiset<Place>)
    ensures crowned.None? <==>
            forall p :: p in Tree(w, FirstMagic(w, path), path, depth) ==> !HoldsManager(w, FirstMagic(w, path), p.path)
    ensures crowned.Some? ==>
            exists p :: p in Tree(w, FirstMagic(w, path), path, depth) && Crowns(w, FirstMagic(w, path), p, crowned.value)
    ensures left == [] && visited <= Tree(w, FirstMagic(w, path), path, depth)
    ensures crowned.None? ==> visited == Tree(w, FirstMagic(w, path), path, depth)
  {
    ghost var root := Place(path, depth);
    var s := State([Node(0, path, depth)], 1, 0, None);
    visited := multiset{};
    WalkStarts(w, root);
    var i := depth as int;
    while i >= 0
      invariant -1 <= i <= depth && DepthsUpTo(s.list, i) && StateOk(w, root, s, visited)
    {
      s, visited := Round(w, s, root, visited, i);
      i := i - 1;
    }
    left := s.list;
    crowned := s.crowned;
    assert left != [] ==> left[0].depth <= -1;
    WalkEnds(w, root, s, visited);
  }
}
