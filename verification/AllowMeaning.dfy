/**
 What each step does to the allowlist as its readers and holders see it: which node is a uid's entry, how many
 references a node has, and when its memory can go (kernel/policy/allowlist.c:62-83, 124-211, 304-347, 535-570).
 */
module AllowMeaning {
  import opened AllowTables
  import opened AllowSafety

  /** The node is the uid's entry. */
  predicate IsEntry(t: Table, uid: nat, n: Ptr) {
    n in t.mem && t.mem[n].linked && t.mem[n].uid == uid
  }

  ghost predicate HasEntry(t: Table, uid: nat) {
    exists n :: IsEntry(t, uid, n)
  }

  /** The node is what it was, but for its place in a list. */
  predicate SameNode(t: Table, t': Table, n: Ptr) {
    n in t.mem && n in t'.mem && t'.mem[n].uid == t.mem[n].uid && t'.mem[n].ref == t.mem[n].ref
    && t'.mem[n].retired == t.mem[n].retired && t'.mem[n].waiting == t.mem[n].waiting
  }

  lemma SearchIsEntry(hash: Hash, t: Table, uid: nat)
    requires Inv(hash, t)
    ensures var c := t.chains[Bucket(hash, t, uid)];
            var i := Find(t.mem, c, uid);
            && (i < |c| ==> IsEntry(t, uid, c[i]) && forall n :: IsEntry(t, uid, n) ==> n == c[i])
            && (i == |c| ==> !HasEntry(t, uid))
  {
    var b := Bucket(hash, t, uid);
    var c := t.chains[b];
    var i := Find(t.mem, c, uid);
    FindIsFirst(t.mem, c, uid);
    if i < |c| { ListedAt(hash, t, b, i); }
    assert BucketOk(hash, t, b);
    forall n | IsEntry(t, uid, n)
      ensures i < |c| && n == c[i]
    {
      assert NodeOk(hash, t, n);
      var k :| 0 <= k < |c| && c[k] == n;
    }
  }

  /** A set may begin: no other is under way, and the new node's memory is not in use. */
  predicate MaySet(t: Table, np: Ptr) {
    t.writer.Idle? && np != 0 && np !in t.mem
  }

  /**
   A set gives the uid the new node for its entry, with one reference, and unlinks the old one, which it then owes a put;
   every other node stays what it was. It has no effect on a full list that lacks the uid.
   */
  lemma SetMeans(hash: Hash, t: Table, uid: nat, np: Ptr, n: Ptr)
    requires Inv(hash, t) && MaySet(t, np)
    ensures var t', had := Next(hash, t, SetProfile(uid, np)), HasEntry(t, uid);
            && (!had && t.count == 65535 ==> t' == t)
            && (had || t.count != 65535 ==>
                  && IsEntry(t', uid, np) && t'.mem[np].ref == 1
                  && t'.mem.Keys == t.mem.Keys + {np}
                  && (n in t.mem ==> SameNode(t, t', n) && (t'.mem[n].linked <==> t.mem[n].linked && t.mem[n].uid != uid))
                  && t'.readers == t.readers && t'.held == t.held && t'.count == t.count + (if had then 0 else 1)
                  && (had <==> t'.writer.Owes?) && (had ==> IsEntry(t, uid, t'.writer.gone)))
  {
    var b := Bucket(hash, t, uid);
    var c := t.chains[b];
    var i := Find(t.mem, c, uid);
    SearchIsEntry(hash, t, uid);
    if i < |c| {
      ListedAt(hash, t, b, i);
      NeighboursDiffer(hash, t, b, i);
      ReplaceMeans(t, b, i, np, n);
    }
    assert n in t.mem && t.mem[n].linked && t.mem[n].uid == uid ==> IsEntry(t, uid, n);
  }

  lemma ReplaceMeans(t: Table, b: nat, i: nat, np: Ptr, n: Ptr)
    requires b < |t.heads| == |t.chains| && i < |t.chains[b]| && t.chains[b][i] in t.mem && np !in t.mem
    requires i > 0 ==> t.chains[b][i - 1] in t.mem && t.chains[b][i - 1] != t.chains[b][i]
    ensures var t', p := Replace(t, b, i, np), t.chains[b][i];
            && IsEntry(t', t.mem[p].uid, np) && t'.mem[np].ref == 1 && t'.mem.Keys == t.mem.Keys + {np}
            && (n in t.mem ==> SameNode(t, t', n) && (t'.mem[n].linked <==> t.mem[n].linked && n != p))
            && t'.readers == t.readers && t'.held == t.held && t'.count == t.count && t'.writer == Owes(p)
  {
  }

  /** A prune unlinks the uid's entry, if there is one, and owes it a put; every other node stays what it was. */
  lemma PruneStepMeans(hash: Hash, t: Table, uid: nat, n: Ptr)
    requires Inv(hash, t) && t.writer.Idle?
    ensures var t', had := Next(hash, t, Prune(uid)), HasEntry(t, uid);
            && (!had ==> t' == t)
            && (had ==>
                  && t'.mem.Keys == t.mem.Keys && t'.readers == t.readers && t'.held == t.held && t'.count + 1 == t.count
                  && (n in t.mem ==> SameNode(t, t', n) && (t'.mem[n].linked <==> t.mem[n].linked && t.mem[n].uid != uid))
                  && t'.writer.Owes? && IsEntry(t, uid, t'.writer.gone))
  {
    var b := Bucket(hash, t, uid);
    var c := t.chains[b];
    var i := Find(t.mem, c, uid);
    SearchIsEntry(hash, t, uid);
    if i < |c| {
      ListedAt(hash, t, b, i);
      NeighboursDiffer(hash, t, b, i);
      UnlinkMeans(t, b, i, n);
      TotalHolds(t.chains, b);
      assert n in t.mem && t.mem[n].linked && t.mem[n].uid == uid ==> IsEntry(t, uid, n);
    }
  }

  lemma UnlinkMeans(t: Table, b: nat, i: nat, n: Ptr)
    requires b < |t.heads| == |t.chains| && i < |t.chains[b]| && t.chains[b][i] in t.mem
    requires i > 0 ==> t.chains[b][i - 1] in t.mem && t.chains[b][i - 1] != t.chains[b][i]
    ensures var t', p := Unlink(t, b, i), t.chains[b][i];
            && t'.mem.Keys == t.mem.Keys && t'.readers == t.readers && t'.held == t.held && t'.writer == Owes(p)
            && t'.count == (if t.count > 0 then t.count - 1 else 0)
            && (n in t.mem ==> SameNode(t, t', n) && (t'.mem[n].linked <==> t.mem[n].linked && n != p))
  {
  }

  lemma {:induction false} TotalHolds(chains: seq<seq<Ptr>>, b: nat)
    requires b < |chains|
    ensures |chains[b]| <= Total(chains)
  {
    if b > 0 { TotalHolds(chains[1..], b - 1); }
  }

  // ----- references -----

  /** One reference fewer; the last one retires the node, which then waits for the sections that run now. */
  predicate OneFewer(t: Table, t': Table, n: Ptr)
    requires n in t.mem
  {
    && n in t'.mem && t'.mem[n].ref + 1 == t.mem[n].ref && t'.mem[n].uid == t.mem[n].uid && t'.mem[n].linked == t.mem[n].linked
    && (t'.mem[n].retired <==> t'.mem[n].ref == 0)
    && (t'.mem[n].retired ==> t'.mem[n].waiting == t.readers.Keys)
  }

  /** The writer's put, and a holder's. */
  lemma PutsMean(hash: Hash, t: Table, n: Ptr, m: Ptr)
    requires Inv(hash, t) && m != n && m in t.mem
    ensures t.writer == Owes(n) ==>
              var t' := Next(hash, t, PutOld);
              n in t.mem && OneFewer(t, t', n) && t'.mem[m] == t.mem[m] && t'.writer.Idle? && t'.held == t.held && t'.readers == t.readers
    ensures n in t.held ==>
              var t' := Next(hash, t, Put(n));
              && n in t.mem && OneFewer(t, t', n) && t'.mem[m] == t.mem[m]
              && t'.held == t.held - multiset{n} && t'.writer == t.writer && t'.readers == t.readers
  {
    if n in t.mem { assert NodeOk(hash, t, n); }
  }

  /** Taking a reference: it succeeds exactly when there still is one, and else the search starts over at its bucket. */
  lemma TryGetMeans(hash: Hash, t: Table, r: Section, m: Ptr)
    requires Inv(hash, t) && r in t.readers && t.readers[r] in t.mem && m in t.mem
    ensures var t', n := Next(hash, t, TryGet(r)), t.readers[r];
            && (t.mem[n].ref != 0 ==>
                  && t'.held == t.held + multiset{n} && t'.mem[n] == t.mem[n].(ref := t.mem[n].ref + 1)
                  && t'.readers == t.readers && (m != n ==> t'.mem[m] == t.mem[m]))
            && (t.mem[n].ref == 0 ==> t' == t.(readers := t.readers[r := t.heads[Bucket(hash, t, t.mem[n].uid)]]))
  {
  }

  // ----- no leak -----

  /** Retired nodes wait for running sections only. */
  ghost predicate WaitsForRunning(t: Table) {
    forall n :: n in t.mem ==> t.mem[n].waiting <= t.readers.Keys
  }

  lemma StepWaits(hash: Hash, t: Table, st: Step)
    requires Inv(hash, t) && WaitsForRunning(t)
    ensures WaitsForRunning(Next(hash, t, st))
  {
    match st
    case SetProfile(uid, np) =>
      if MaySet(t, np) { EditWaits(hash, t, st, uid); }
    case Prune(uid) =>
      if t.writer.Idle? { EditWaits(hash, t, st, uid); }
    case Unlock(r) => UnlockWaits(hash, t, r);
    case PutOld => if t.writer.Owes? && t.writer.gone in t.mem { DroppedWaits(t, t.writer.gone); }
    case Put(n) => if n in t.held && n in t.mem { DroppedWaits(t, n); }
    case _ => OtherWaits(hash, t, st);
  }

  lemma UnlockWaits(hash: Hash, t: Table, r: Section)
    requires Listed(hash, t) && WaitsForRunning(t)
    ensures WaitsForRunning(Next(hash, t, Unlock(r)))
  {
  }

  lemma OtherWaits(hash: Hash, t: Table, st: Step)
    requires Listed(hash, t) && WaitsForRunning(t) && !st.SetProfile? && !st.Prune? && !st.Unlock? && !st.PutOld? && !st.Put?
    ensures WaitsForRunning(Next(hash, t, st))
  {
  }

  lemma DroppedWaits(t: Table, n: Ptr)
    requires n in t.mem && WaitsForRunning(t)
    ensures WaitsForRunning(Dropped(t, n))
  {
  }

  lemma EditWaits(hash: Hash, t: Table, st: Step, uid: nat)
    requires Inv(hash, t) && WaitsForRunning(t) && t.writer.Idle?
    requires st == Prune(uid) || (st.SetProfile? && st.uid == uid && MaySet(t, st.np))
    ensures WaitsForRunning(Next(hash, t, st))
  {
    var t' := Next(hash, t, st);
    forall n | n in t'.mem
      ensures t'.mem[n].waiting <= t'.readers.Keys
    {
      if st.Prune? {
        PruneStepMeans(hash, t, uid, n);
      } else if n in t.mem {
        SetMeans(hash, t, uid, st.np, n);
      } else {
        NewWaitsForNone(hash, t, uid, st.np);
      }
    }
  }

  lemma NewWaitsForNone(hash: Hash, t: Table, uid: nat, np: Ptr)
    requires Inv(hash, t) && MaySet(t, np)
    ensures var t' := Next(hash, t, SetProfile(uid, np)); t'.mem.Keys <= t.mem.Keys + {np} && (np in t'.mem ==> t'.mem[np].waiting == {})
  {
    var b := Bucket(hash, t, uid);
    var i := Find(t.mem, t.chains[b], uid);
    if i < |t.chains[b]| { ListedAt(hash, t, b, i); }
  }

  lemma {:induction false} RunWaits(hash: Hash, states: seq<Table>, steps: seq<Step>, i: nat)
    requires Run(hash, states, steps) && i < |states|
    ensures WaitsForRunning(states[i])
    decreases i
  {
    if i > 0 {
      RunWaits(hash, states, steps, i - 1);
      RunKeeps(hash, states, steps, i - 1);
      assert Follows(hash, states[i - 1], steps[i - 1], states[i]);
      StepWaits(hash, states[i - 1], steps[i - 1]);
    }
  }

  /**
   Nothing leaks: in every reachable state, memory that is no entry, that the writer does not owe a put and that nobody
   holds was given up, and is freed as soon as the sections that ran at its last put are over.
   */
  lemma NothingLeaks(hash: Hash, states: seq<Table>, steps: seq<Step>, i: nat, n: Ptr)
    requires Run(hash, states, steps) && i < |states|
    requires var t := states[i]; n in t.mem && !t.mem[n].linked && t.writer != Owes(n) && n !in t.held
    ensures var t := states[i];
            && Inv(hash, t) && t.mem[n].retired && t.mem[n].waiting <= t.readers.Keys
            && (t.readers == map[] ==> Next(hash, t, Free(n)) == t.(mem := t.mem - {n}))
  {
    var t := states[i];
    RunKeeps(hash, states, steps, i);
    RunWaits(hash, states, steps, i);
    assert NodeOk(hash, t, n);
  }
}
