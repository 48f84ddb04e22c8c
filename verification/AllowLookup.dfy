/**
 What a lookup in the allowlist is worth under concurrent writers (kernel/policy/allowlist.c:60-83): a section
 that searches an entry which stays in the table meets a node of that uid before the end of its list, though the
 entry may be replaced, and its neighbours may be unlinked and freed, while it walks.
 */
module AllowLookup {
  import opened AllowTables
  import opened AllowSafety

  /** From node n, following at most k next fields, one comes to a node with this uid. */
  predicate Leads(mem: Memory, n: Ptr, uid: nat, k: nat)
    decreases k
  {
    n != 0 && n in mem && (mem[n].uid == uid || (k > 0 && Leads(mem, mem[n].next, uid, k - 1)))
  }

  predicate InTable(hash: Hash, t: Table, uid: nat)
    requires |t.heads| == |t.chains| > 0
  {
    var c := t.chains[Bucket(hash, t, uid)];
    Find(t.mem, c, uid) < |c|
  }

  /** The table, and the searches that are under way: section, and uid that was in the table ever since it began. */
  datatype Watched = Watched(t: Table, sought: map<Section, nat>)

  /** What a step makes of the searches. */
  function SoughtAfter(hash: Hash, w: Watched, st: Step): map<Section, nat>
    requires Listed(hash, w.t)
  {
    match st
    case Lookup(r, uid) => if r in w.t.readers && InTable(hash, w.t, uid) then w.sought[r := uid] else w.sought - {r}
    case Advance(r) => if Meets(w, r) then w.sought - {r} else w.sought
    case Prune(uid) => if w.t.writer.Idle? then map r | r in w.sought && w.sought[r] != uid :: w.sought[r] else w.sought
    case Unlock(r) => w.sought - {r}
    case TryGet(r) => if Meets(w, r) then w.sought else w.sought - {r}
    case _ => w.sought
  }

  /** The section stands on a node of the uid it seeks. */
  predicate Meets(w: Watched, r: Section) {
    && r in w.sought && r in w.t.readers && w.t.readers[r] in w.t.mem && w.t.mem[w.t.readers[r]].uid == w.sought[r]
  }

  function NextWatched(hash: Hash, w: Watched, st: Step): Watched
    requires Listed(hash, w.t)
  {
    Watched(Next(hash, w.t, st), SoughtAfter(hash, w, st))
  }

  /** The section will meet its entry, which is in the table. */
  ghost predicate SearchOk(hash: Hash, w: Watched, r: Section)
    requires r in w.sought && |w.t.heads| == |w.t.chains| > 0
  {
    r in w.t.readers && InTable(hash, w.t, w.sought[r]) && exists k: nat :: Leads(w.t.mem, w.t.readers[r], w.sought[r], k)
  }

  ghost predicate WatchOk(hash: Hash, w: Watched) {
    Inv(hash, w.t) && forall r :: r in w.sought ==> SearchOk(hash, w, r)
  }

  lemma {:induction false} LeadsMore(mem: Memory, n: Ptr, uid: nat, k: nat)
    requires Leads(mem, n, uid, k)
    ensures Leads(mem, n, uid, k + 1)
    decreases k
  {
    if mem[n].uid != uid { LeadsMore(mem, mem[n].next, uid, k - 1); }
  }

  /** Nodes keep uid and next: so does every path. */
  ghost predicate PathsKept(mem: Memory, mem': Memory) {
    forall n :: n in mem ==> n in mem' && mem'[n].uid == mem[n].uid && mem'[n].next == mem[n].next
  }

  lemma {:induction false} LeadsKept(mem: Memory, mem': Memory, n: Ptr, uid: nat, k: nat)
    requires Leads(mem, n, uid, k) && PathsKept(mem, mem')
    ensures Leads(mem', n, uid, k)
    decreases k
  {
    if mem[n].uid != uid { LeadsKept(mem, mem', mem[n].next, uid, k - 1); }
  }

  /** From the head of a bucket one comes to each entry of it. */
  lemma {:induction false} ChainLeads(mem: Memory, head: Ptr, c: seq<Ptr>, uid: nat)
    requires Chain(mem, head, c) && Find(mem, c, uid) < |c|
    ensures Leads(mem, head, uid, Find(mem, c, uid))
    decreases |c|
  {
    if mem[c[0]].uid != uid { ChainLeads(mem, mem[head].next, c[1..], uid); }
  }

  lemma HeadLeads(hash: Hash, t: Table, uid: nat)
    requires Listed(hash, t) && InTable(hash, t, uid)
    ensures exists k: nat :: Leads(t.mem, t.heads[Bucket(hash, t, uid)], uid, k)
  {
    var b := Bucket(hash, t, uid);
    assert BucketOk(hash, t, b);
    ChainLeads(t.mem, t.heads[b], t.chains[b], uid);
  }

  // ----- the writer -----

  predicate Rerouted(mem: Memory, mem': Memory, n: Ptr, y: Ptr, z: Ptr)
    requires n in mem
  {
    && n in mem' && mem'[n].uid == mem[n].uid
    && (mem'[n].next == mem[n].next || (mem[n].next == y && mem'[n].next == z))
  }

  /** The cell before y now leads to z: a node like y with the same next, or what followed y. Nothing else moved. */
  ghost predicate Bypassed(mem: Memory, mem': Memory, y: Ptr, z: Ptr) {
    && y in mem
    && (z == mem[y].next || (z != 0 && z in mem' && mem'[z].uid == mem[y].uid && mem'[z].next == mem[y].next))
    && (forall n :: n in mem ==> Rerouted(mem, mem', n, y, z))
  }

  /** A path to another uid is not cut by taking y out, and a path to y's uid is not cut by replacing y. */
  lemma {:induction false} LeadsAround(mem: Memory, mem': Memory, y: Ptr, z: Ptr, n: Ptr, uid: nat, k: nat)
    requires Leads(mem, n, uid, k) && Bypassed(mem, mem', y, z)
    requires mem[y].uid != uid || (z != 0 && z in mem' && mem'[z].uid == uid)
    ensures Leads(mem', n, uid, k)
    decreases k
  {
    if mem[n].uid != uid {
      var next := mem[n].next;
      LeadsAround(mem, mem', y, z, next, uid, k - 1);
      if mem'[n].next != next && !(z in mem' && mem'[z].uid == uid && z != 0) {
        LeadsAround(mem, mem', y, z, mem[y].next, uid, k - 2);
        AroundUnlinked(mem, mem', y, z, uid, k);
      }
    }
  }

  /** The path that led over y. */
  lemma AroundUnlinked(mem: Memory, mem': Memory, y: Ptr, z: Ptr, uid: nat, k: nat)
    requires k >= 2 && Bypassed(mem, mem', y, z) && mem[y].uid != uid && Leads(mem', mem[y].next, uid, k - 2)
    ensures Leads(mem', z, uid, k - 1)
  {
    LeadsMore(mem', mem[y].next, uid, k - 2);
  }

  lemma UnlinkBypasses(hash: Hash, t: Table, b: nat, i: nat)
    requires Listed(hash, t) && b < |t.heads| && i < |t.chains[b]|
    requires t.chains[b][i] in t.mem && (i > 0 ==> t.chains[b][i - 1] in t.mem)
    ensures Bypassed(t.mem, Unlink(t, b, i).mem, t.chains[b][i], t.mem[t.chains[b][i]].next)
  {
    BeforeLeadsTo(hash, t, b, i);
  }

  lemma ReplaceBypasses(hash: Hash, t: Table, b: nat, i: nat, np: Ptr)
    requires Listed(hash, t) && b < |t.heads| && i < |t.chains[b]| && np !in t.mem && np != 0
    requires t.chains[b][i] in t.mem && (i > 0 ==> t.chains[b][i - 1] in t.mem)
    ensures Bypassed(t.mem, Replace(t, b, i, np).mem, t.chains[b][i], np)
  {
    BeforeLeadsTo(hash, t, b, i);
    NeighboursDiffer(hash, t, b, i);
  }

  /** The node before place i points at the node there. */
  lemma BeforeLeadsTo(hash: Hash, t: Table, b: nat, i: nat)
    requires Listed(hash, t) && b < |t.heads| && i < |t.chains[b]|
    ensures i > 0 ==> t.chains[b][i - 1] in t.mem && t.mem[t.chains[b][i - 1]].next == t.chains[b][i]
  {
    if i > 0 {
      assert BucketOk(hash, t, b);
      ChainFrom(t.mem, t.heads[b], t.chains[b], i);
      assert t.chains[b][i..][0] == t.chains[b][i];
    }
  }

  // ----- what is in the table -----

  predicate IsEntry(t: Table, n: Ptr, uid: nat) {
    n in t.mem && t.mem[n].linked && t.mem[n].uid == uid
  }

  lemma EntryIsInTable(hash: Hash, t: Table, n: Ptr, uid: nat)
    requires Inv(hash, t) && IsEntry(t, n, uid)
    ensures InTable(hash, t, uid)
  {
    assert NodeOk(hash, t, n);
    FindIsFirst(t.mem, t.chains[Bucket(hash, t, uid)], uid);
  }

  lemma InTableHasEntry(hash: Hash, t: Table, uid: nat) returns (n: Ptr)
    requires Listed(hash, t) && InTable(hash, t, uid)
    ensures IsEntry(t, n, uid)
  {
    var b := Bucket(hash, t, uid);
    n := t.chains[b][Find(t.mem, t.chains[b], uid)];
    ListedAt(hash, t, b, Find(t.mem, t.chains[b], uid));
  }

  // ----- every step -----

  ghost predicate LinksKept(t: Table, t': Table) {
    forall n :: n in t.mem && t.mem[n].linked ==> n in t'.mem && t'.mem[n].linked
  }

  /** Steps of readers and holders, and the writer's put, move no link; cursors of other sections stay. */
  lemma QuietPaths(hash: Hash, t: Table, st: Step)
    requires Listed(hash, t) && !st.SetProfile? && !st.Prune? && !st.Free?
    ensures PathsKept(t.mem, Next(hash, t, st).mem) && LinksKept(t, Next(hash, t, st))
  {
    match st
    case PutOld => if t.writer.Owes? && t.writer.gone in t.mem { DroppedPaths(t, t.writer.gone); }
    case Unlock(r) => UnlockPaths(hash, t, r);
    case TryGet(r) => TryGetPaths(hash, t, r);
    case Put(n) => if n in t.held && n in t.mem { DroppedPaths(t, n); }
    case _ =>
  }

  lemma DroppedPaths(t: Table, n: Ptr)
    requires n in t.mem
    ensures PathsKept(t.mem, Dropped(t, n).mem) && forall m :: m in t.mem ==> Dropped(t, n).mem[m].linked == t.mem[m].linked
  {
  }

  lemma TryGetPaths(hash: Hash, t: Table, r: Section)
    requires Listed(hash, t)
    ensures PathsKept(t.mem, Next(hash, t, TryGet(r)).mem) && LinksKept(t, Next(hash, t, TryGet(r)))
  {
  }

  lemma UnlockPaths(hash: Hash, t: Table, r: Section)
    requires Listed(hash, t)
    ensures PathsKept(t.mem, Next(hash, t, Unlock(r)).mem) && LinksKept(t, Next(hash, t, Unlock(r)))
  {
  }

  lemma QuietCursors(hash: Hash, t: Table, st: Step, s: Section)
    requires Listed(hash, t) && s in t.readers && !OfSection(st, s)
    ensures s in Next(hash, t, st).readers && Next(hash, t, st).readers[s] == t.readers[s]
  {
  }

  /** A search that the step does not touch: its cursor is where it was. */
  lemma Untouched(hash: Hash, w: Watched, w': Watched, r: Section)
    requires WatchOk(hash, w) && Inv(hash, w'.t) && r in w.sought && r in w'.sought && w'.sought[r] == w.sought[r]
    requires r in w'.t.readers && w'.t.readers[r] == w.t.readers[r] && PathsKept(w.t.mem, w'.t.mem)
    requires LinksKept(w.t, w'.t)
    ensures SearchOk(hash, w', r)
  {
    assert SearchOk(hash, w, r);
    var uid := w.sought[r];
    var n := InTableHasEntry(hash, w.t, uid);
    EntryIsInTable(hash, w'.t, n, uid);
    var k: nat :| Leads(w.t.mem, w.t.readers[r], uid, k);
    LeadsKept(w.t.mem, w'.t.mem, w.t.readers[r], uid, k);
  }

  predicate OfSection(st: Step, s: Section) {
    (st.Lookup? || st.Advance? || st.TryGet? || st.Unlock?) && st.r == s
  }

  lemma QuietSought(hash: Hash, w: Watched, st: Step, s: Section)
    requires Listed(hash, w.t) && !st.Prune? && s in w.sought && !OfSection(st, s)
    ensures s in SoughtAfter(hash, w, st) && SoughtAfter(hash, w, st)[s] == w.sought[s]
  {
  }

  /** A search of another section than the one that steps. */
  lemma OthersFind(hash: Hash, w: Watched, st: Step, w': Watched, s: Section)
    requires WatchOk(hash, w) && !st.SetProfile? && !st.Prune? && !st.Free? && s in w.sought && !OfSection(st, s)
    requires Listed(hash, w.t) && w' == NextWatched(hash, w, st) && Inv(hash, w'.t)
    ensures s in w'.sought && SearchOk(hash, w', s)
  {
    assert SearchOk(hash, w, s);
    QuietSought(hash, w, st, s);
    QuietPaths(hash, w.t, st);
    QuietCursors(hash, w.t, st, s);
    Untouched(hash, w, w', s);
  }

  lemma LookupFinds(hash: Hash, w: Watched, r: Section, uid: nat)
    requires WatchOk(hash, w) && r in SoughtAfter(hash, w, Lookup(r, uid))
    ensures SearchOk(hash, NextWatched(hash, w, Lookup(r, uid)), r)
  {
    HeadLeads(hash, w.t, uid);
  }

  lemma AdvanceFinds(hash: Hash, w: Watched, r: Section)
    requires WatchOk(hash, w) && r in SoughtAfter(hash, w, Advance(r))
    ensures SearchOk(hash, NextWatched(hash, w, Advance(r)), r)
  {
    assert SearchOk(hash, w, r);
    var k: nat :| Leads(w.t.mem, w.t.readers[r], w.sought[r], k);
    LeadsOn(w.t.mem, w.t.readers[r], w.sought[r], k);
    MovedSearch(hash, w, r, w.t.mem[w.t.readers[r]].next, k - 1);
  }

  lemma LeadsOn(mem: Memory, n: Ptr, uid: nat, k: nat)
    requires Leads(mem, n, uid, k) && mem[n].uid != uid
    ensures k > 0 && Leads(mem, mem[n].next, uid, k - 1)
  {
  }

  lemma MovedSearch(hash: Hash, w: Watched, r: Section, p: Ptr, k: nat)
    requires r in w.sought && |w.t.heads| == |w.t.chains| > 0 && r in w.t.readers && InTable(hash, w.t, w.sought[r])
    requires Leads(w.t.mem, p, w.sought[r], k)
    ensures SearchOk(hash, w.(t := w.t.(readers := w.t.readers[r := p])), r)
  {
  }

  /** A failed get starts the same search again; a good one changes a count. */
  lemma TryGetFinds(hash: Hash, w: Watched, r: Section)
    requires WatchOk(hash, w) && r in SoughtAfter(hash, w, TryGet(r))
    ensures SearchOk(hash, NextWatched(hash, w, TryGet(r)), r)
  {
    assert SearchOk(hash, w, r);
    if w.t.mem[w.t.readers[r]].ref == 0 {
      HeadLeads(hash, w.t, w.sought[r]);
    } else {
      StepKeeps(hash, w.t, TryGet(r));
      QuietPaths(hash, w.t, TryGet(r));
      Untouched(hash, w, NextWatched(hash, w, TryGet(r)), r);
    }
  }

  /** The steps of readers and holders. */
  lemma QuietStepFinds(hash: Hash, w: Watched, st: Step)
    requires WatchOk(hash, w) && !st.SetProfile? && !st.Prune? && !st.Free?
    ensures WatchOk(hash, NextWatched(hash, w, st))
  {
    StepKeeps(hash, w.t, st);
    forall s | s in SoughtAfter(hash, w, st)
      ensures SearchOk(hash, NextWatched(hash, w, st), s)
    {
      QuietSearchOk(hash, w, st, s);
    }
  }

  lemma QuietSearchOk(hash: Hash, w: Watched, st: Step, s: Section)
    requires WatchOk(hash, w) && !st.SetProfile? && !st.Prune? && !st.Free?
    requires s in SoughtAfter(hash, w, st) && Inv(hash, Next(hash, w.t, st))
    ensures SearchOk(hash, NextWatched(hash, w, st), s)
  {
    if OfSection(st, s) {
      OwnStepFinds(hash, w, st);
    } else {
      SoughtBefore(hash, w, st, s);
      OthersFind(hash, w, st, NextWatched(hash, w, st), s);
    }
  }

  lemma SoughtBefore(hash: Hash, w: Watched, st: Step, s: Section)
    requires Listed(hash, w.t) && s in SoughtAfter(hash, w, st) && !OfSection(st, s)
    ensures s in w.sought
  {
  }

  /** The section that steps, if it still seeks after the step. */
  lemma OwnStepFinds(hash: Hash, w: Watched, st: Step)
    requires WatchOk(hash, w) && (st.Lookup? || st.Advance? || st.TryGet? || st.Unlock?)
    requires st.r in SoughtAfter(hash, w, st)
    ensures SearchOk(hash, NextWatched(hash, w, st), st.r)
  {
    match st
    case Lookup(r, uid) => LookupFinds(hash, w, r, uid);
    case Advance(r) => AdvanceFinds(hash, w, r);
    case TryGet(r) => TryGetFinds(hash, w, r);
    case Unlock(r) =>
  }

  /** Freed memory is on no path that a section still walks. */
  lemma {:induction false} PathAvoidsFree(hash: Hash, t: Table, f: Ptr, r: Section, n: Ptr, uid: nat, k: nat)
    requires Inv(hash, t) && r in t.readers && FreeableNow(t, f) && Leads(t.mem, n, uid, k) && Reachable(t, n, {r})
    ensures Leads(t.mem - {f}, n, uid, k)
    decreases k
  {
    assert NodeOk(hash, t, n) && NodeOk(hash, t, f);
    if t.mem[n].uid != uid {
      if t.mem[n].linked { NextOfLinked(hash, t, n); }
      PathAvoidsFree(hash, t, f, r, t.mem[n].next, uid, k - 1);
    }
  }

  lemma FreeFinds(hash: Hash, w: Watched, f: Ptr)
    requires WatchOk(hash, w)
    ensures WatchOk(hash, NextWatched(hash, w, Free(f)))
  {
    if FreeableNow(w.t, f) {
      var t' := w.t.(mem := w.t.mem - {f});
      FreedInv(hash, w.t, f, t');
      FreedFinds(hash, w, f, t');
      assert NextWatched(hash, w, Free(f)) == Watched(t', w.sought);
    } else {
      assert NextWatched(hash, w, Free(f)) == w;
    }
  }

  lemma FreedInv(hash: Hash, t: Table, f: Ptr, t': Table)
    requires Inv(hash, t) && FreeableNow(t, f) && t' == t.(mem := t.mem - {f})
    ensures Inv(hash, t')
  {
    StepKeeps(hash, t, Free(f));
    assert Next(hash, t, Free(f)) == t';
  }

  lemma FreedFinds(hash: Hash, w: Watched, f: Ptr, t': Table)
    requires WatchOk(hash, w) && FreeableNow(w.t, f) && t' == w.t.(mem := w.t.mem - {f}) && Inv(hash, t')
    ensures WatchOk(hash, Watched(t', w.sought))
  {
    forall s | s in w.sought
      ensures SearchOk(hash, Watched(t', w.sought), s)
    {
      FreeSearchOk(hash, w, f, t', s);
    }
  }

  lemma FreeSearchOk(hash: Hash, w: Watched, f: Ptr, t': Table, s: Section)
    requires WatchOk(hash, w) && FreeableNow(w.t, f) && s in w.sought && t' == w.t.(mem := w.t.mem - {f}) && Inv(hash, t')
    ensures SearchOk(hash, Watched(t', w.sought), s)
  {
    assert SearchOk(hash, w, s) && ReaderOk(w.t, s) && NodeOk(hash, w.t, f);
    var n := InTableHasEntry(hash, w.t, w.sought[s]);
    EntryIsInTable(hash, t', n, w.sought[s]);
    var k: nat :| Leads(w.t.mem, w.t.readers[s], w.sought[s], k);
    PathAvoidsFree(hash, w.t, f, s, w.t.readers[s], w.sought[s], k);
  }

  /** A search that a writer's step leads around the node y. */
  lemma LedAround(hash: Hash, w: Watched, t': Table, y: Ptr, z: Ptr, r: Section)
    requires WatchOk(hash, w) && Inv(hash, t') && r in w.sought && t'.readers == w.t.readers
    requires Bypassed(w.t.mem, t'.mem, y, z)
    requires forall n :: n in w.t.mem && w.t.mem[n].linked && n != y ==> n in t'.mem && t'.mem[n].linked && t'.mem[n].uid == w.t.mem[n].uid
    requires w.t.mem[y].uid != w.sought[r] || (z != 0 && IsEntry(t', z, w.sought[r]))
    ensures r in t'.readers && InTable(hash, t', w.sought[r]) && exists k: nat :: Leads(t'.mem, t'.readers[r], w.sought[r], k)
  {
    assert SearchOk(hash, w, r);
    var uid := w.sought[r];
    var n := InTableHasEntry(hash, w.t, uid);
    EntryIsInTable(hash, t', if n == y then z else n, uid);
    var k: nat :| Leads(w.t.mem, w.t.readers[r], uid, k);
    LeadsAround(w.t.mem, t'.mem, y, z, w.t.readers[r], uid, k);
  }

  lemma PruneFinds(hash: Hash, w: Watched, uid: nat)
    requires WatchOk(hash, w)
    ensures WatchOk(hash, NextWatched(hash, w, Prune(uid)))
  {
    var t, w' := w.t, NextWatched(hash, w, Prune(uid));
    StepKeeps(hash, t, Prune(uid));
    var b := Bucket(hash, t, uid);
    var i := Find(t.mem, t.chains[b], uid);
    if t.writer.Idle? && i < |t.chains[b]| {
      ListedAt(hash, t, b, i);
      UnlinkBypasses(hash, t, b, i);
      UnlinkLeft(hash, t, b, i);
    }
    forall s | s in w'.sought
      ensures SearchOk(hash, w', s)
    {
      assert SearchOk(hash, w, s);
      if t.writer.Idle? && i < |t.chains[b]| {
        LedAround(hash, w, w'.t, t.chains[b][i], t.mem[t.chains[b][i]].next, s);
      }
    }
  }

  lemma SetProfileFinds(hash: Hash, w: Watched, uid: nat, np: Ptr)
    requires WatchOk(hash, w)
    ensures WatchOk(hash, NextWatched(hash, w, SetProfile(uid, np)))
  {
    var t := w.t;
    StepKeeps(hash, t, SetProfile(uid, np));
    var b := Bucket(hash, t, uid);
    var i := Find(t.mem, t.chains[b], uid);
    if t.writer.Idle? && np !in t.mem && np != 0 && i < |t.chains[b]| {
      ListedAt(hash, t, b, i);
      ReplaceFinds(hash, w, NextWatched(hash, w, SetProfile(uid, np)), b, i, np);
    } else {
      AddPaths(hash, t, uid, np);
      AddFinds(hash, w, NextWatched(hash, w, SetProfile(uid, np)));
    }
  }

  /** A set that adds an entry, or does nothing. */
  lemma AddPaths(hash: Hash, t: Table, uid: nat, np: Ptr)
    requires Listed(hash, t)
    requires t.writer.Owes? || np in t.mem || np == 0 || !InTable(hash, t, uid)
    ensures var t' := Next(hash, t, SetProfile(uid, np)); PathsKept(t.mem, t'.mem) && LinksKept(t, t') && t'.readers == t.readers
  {
  }

  lemma AddFinds(hash: Hash, w: Watched, w': Watched)
    requires WatchOk(hash, w) && Inv(hash, w'.t) && w'.sought == w.sought && w'.t.readers == w.t.readers
    requires PathsKept(w.t.mem, w'.t.mem) && LinksKept(w.t, w'.t)
    ensures WatchOk(hash, w')
  {
    forall s | s in w'.sought
      ensures SearchOk(hash, w', s)
    {
      assert SearchOk(hash, w, s);
      Untouched(hash, w, w', s);
    }
  }

  lemma ReplaceFinds(hash: Hash, w: Watched, w': Watched, b: nat, i: nat, np: Ptr)
    requires WatchOk(hash, w) && b < |w.t.heads| && i < |w.t.chains[b]| && w.t.writer.Idle? && np !in w.t.mem && np != 0
    requires w.t.chains[b][i] in w.t.mem && (i > 0 ==> w.t.chains[b][i - 1] in w.t.mem)
    requires w' == Watched(Replace(w.t, b, i, np), w.sought) && Inv(hash, w'.t)
    ensures WatchOk(hash, w')
  {
    ReplaceBypasses(hash, w.t, b, i, np);
    ReplaceLeft(hash, w.t, b, i, np);
    ReplaceHome(hash, w.t, b, i, np, i);
    forall s | s in w'.sought
      ensures SearchOk(hash, w', s)
    {
      assert SearchOk(hash, w, s);
      LedAround(hash, w, w'.t, w.t.chains[b][i], np, s);
    }
  }

  lemma StepFinds(hash: Hash, w: Watched, st: Step)
    requires WatchOk(hash, w)
    ensures WatchOk(hash, NextWatched(hash, w, st))
  {
    match st
    case SetProfile(uid, np) => SetProfileFinds(hash, w, uid, np);
    case Prune(uid) => PruneFinds(hash, w, uid);
    case Free(n) => FreeFinds(hash, w, n);
    case _ => QuietStepFinds(hash, w, st);
  }

  /** A run of the table with its searches, from an empty table. */
  ghost predicate WatchedRun(hash: Hash, states: seq<Watched>, steps: seq<Step>) {
    && |states| == |steps| + 1 && |states[0].t.heads| > 0 && states[0] == Watched(Empty(|states[0].t.heads|), map[])
    && forall i :: 0 <= i < |steps| ==> Follows(hash, states[i].t, steps[i], states[i + 1].t) && Watches(hash, states[i], steps[i], states[i + 1])
  }

  ghost predicate Watches(hash: Hash, w: Watched, st: Step, w': Watched) {
    Listed(hash, w.t) && w' == NextWatched(hash, w, st)
  }

  lemma {:induction false} WatchedRunFinds(hash: Hash, states: seq<Watched>, steps: seq<Step>, i: nat)
    requires WatchedRun(hash, states, steps) && i < |states|
    ensures WatchOk(hash, states[i])
    decreases i
  {
    if i == 0 {
      EmptyInv(hash, |states[0].t.heads|);
    } else {
      WatchedRunFinds(hash, states, steps, i - 1);
      assert Watches(hash, states[i - 1], steps[i - 1], states[i]);
      StepFinds(hash, states[i - 1], steps[i - 1]);
    }
  }

  /** While the entry it seeks stays in the table and has not been met, a search is not at the end of its list. */
  lemma LookupNeverMisses(hash: Hash, states: seq<Watched>, steps: seq<Step>, i: nat, r: Section)
    requires WatchedRun(hash, states, steps) && i < |states| && r in states[i].sought
    ensures r in states[i].t.readers && states[i].t.readers[r] != 0
  {
    WatchedRunFinds(hash, states, steps, i);
    assert SearchOk(hash, states[i], r);
  }
}
