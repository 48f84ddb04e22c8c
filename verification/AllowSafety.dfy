/** Over every run of the allowlist's steps: no reader meets freed memory, no held profile is freed. */
module AllowSafety {
  import opened AllowTables

  // ----- lists -----

  lemma {:induction false} ChainAgree(mem: Memory, mem': Memory, head: Ptr, c: seq<Ptr>)
    requires Chain(mem, head, c)
    requires forall i :: 0 <= i < |c| && c[i] in mem ==> c[i] in mem' && mem'[c[i]].next == mem[c[i]].next
    ensures Chain(mem', head, c)
    decreases |c|
  {
    if c != [] {
      assert c[0] in mem;
      forall i | 0 <= i < |c[1..]| && c[1..][i] in mem
        ensures c[1..][i] in mem' && mem'[c[1..][i]].next == mem[c[1..][i]].next
      {
        assert c[1..][i] == c[i + 1];
      }
      ChainAgree(mem, mem', mem[head].next, c[1..]);
    }
  }

  /** The list from place i on. */
  lemma {:induction false} ChainFrom(mem: Memory, head: Ptr, c: seq<Ptr>, i: nat)
    requires Chain(mem, head, c) && i <= |c|
    ensures i > 0 ==> c[i - 1] in mem
    ensures Chain(mem, if i == 0 then head else mem[c[i - 1]].next, c[i..])
    decreases i
  {
    if i > 0 {
      ChainFrom(mem, mem[head].next, c[1..], i - 1);
      assert c[1..][i - 1..] == c[i..];
    }
  }

  /** Pointing the cell at place i to another list d replaces everything from there on. */
  lemma {:induction false} Relink(mem: Memory, head: Ptr, c: seq<Ptr>, i: nat, p: Ptr, d: seq<Ptr>)
    requires 0 < i <= |c| && Chain(mem, head, c) && Chain(mem, p, d)
    requires forall k, j :: 0 <= k < j < |c| ==> c[k] != c[j]
    requires forall k :: 0 <= k < i ==> c[k] !in d
    ensures c[i - 1] in mem && Chain(mem[c[i - 1] := mem[c[i - 1]].(next := p)], head, c[..i] + d)
    decreases i
  {
    ChainFrom(mem, head, c, i);
    var before := c[i - 1];
    var mem' := mem[before := mem[before].(next := p)];
    var whole := c[..i] + d;
    assert whole[0] == c[0] && whole[1..] == c[1..][..i - 1] + d;
    if i == 1 {
      assert whole[1..] == d;
      ChainAgree(mem, mem', p, d);
    } else {
      assert c[1..][i - 2] == before && c[0] != before;
      Relink(mem, mem[head].next, c[1..], i - 1, p, d);
    }
  }

  lemma DifferentUidsDifferentNodes(mem: Memory, c: seq<Ptr>)
    requires UidsDiffer(mem, c) && forall i :: 0 <= i < |c| ==> c[i] in mem
    ensures forall k, j :: 0 <= k < j < |c| ==> c[k] != c[j]
  {
  }

  lemma {:induction false} FindIsFirst(mem: Memory, c: seq<Ptr>, uid: nat)
    ensures forall k :: 0 <= k < Find(mem, c, uid) && c[k] in mem ==> mem[c[k]].uid != uid
  {
    if c != [] && !(c[0] in mem && mem[c[0]].uid == uid) { FindIsFirst(mem, c[1..], uid); }
  }

  lemma {:induction false} TotalUpdate(chains: seq<seq<Ptr>>, b: nat, c: seq<Ptr>)
    requires b < |chains|
    ensures Total(chains[b := c]) == Total(chains) - |chains[b]| + |c|
  {
    if b == 0 {
      assert chains[0 := c][1..] == chains[1..];
    } else {
      TotalUpdate(chains[1..], b - 1, c);
      assert chains[b := c][1..] == chains[1..][b - 1 := c];
    }
  }

  /** Linked nodes keep what their lists are made of. */
  ghost predicate ListsKept(t: Table, t': Table) {
    && t'.heads == t.heads && t'.chains == t.chains
    && forall n :: n in t.mem && t.mem[n].linked ==>
         n in t'.mem && t'.mem[n].linked && t'.mem[n].uid == t.mem[n].uid && t'.mem[n].next == t.mem[n].next
  }

  lemma KeptLists(hash: Hash, t: Table, t': Table)
    requires Listed(hash, t) && ListsKept(t, t')
    ensures Listed(hash, t')
  {
    forall b | 0 <= b < |t.heads|
      ensures BucketOk(hash, t', b)
    {
      KeptBucket(hash, t, t', b);
    }
  }

  /** A bucket whose list is not touched stays as it is. */
  lemma KeptBucket(hash: Hash, t: Table, t': Table, b: nat)
    requires Listed(hash, t) && |t'.heads| == |t'.chains| == |t.heads| && b < |t.heads|
    requires t'.heads[b] == t.heads[b] && t'.chains[b] == t.chains[b]
    requires forall n :: n in t.mem && t.mem[n].linked && Bucket(hash, t, t.mem[n].uid) == b ==>
               n in t'.mem && t'.mem[n].linked && t'.mem[n].uid == t.mem[n].uid && t'.mem[n].next == t.mem[n].next
    ensures BucketOk(hash, t', b)
  {
    assert BucketOk(hash, t, b);
    var c := t.chains[b];
    forall i | 0 <= i < |c|
      ensures Home(hash, t', b, c[i]) && t'.mem[c[i]].next == t.mem[c[i]].next && t'.mem[c[i]].uid == t.mem[c[i]].uid
    {
      assert Home(hash, t, b, c[i]);
    }
    ChainAgree(t.mem, t'.mem, t.heads[b], c);
  }

  // ----- the steps of readers and holders -----

  lemma LockKeeps(hash: Hash, t: Table, r: Section)
    requires Inv(hash, t)
    ensures Inv(hash, Next(hash, t, Lock(r)))
  {
    var t' := Next(hash, t, Lock(r));
    KeptLists(hash, t, t');
    forall n | n in t'.mem
      ensures NodeOk(hash, t', n)
    {
      assert NodeOk(hash, t, n);
    }
    forall s | s in t'.readers
      ensures ReaderOk(t', s)
    {
      if s in t.readers { assert ReaderOk(t, s); }
    }
  }

  /** Moving a cursor to a place it may stand on. */
  lemma MoveKeeps(hash: Hash, t: Table, r: Section, p: Ptr)
    requires Inv(hash, t) && r in t.readers && (p != 0 ==> Reachable(t, p, {r}))
    ensures Inv(hash, t.(readers := t.readers[r := p]))
  {
    var t' := t.(readers := t.readers[r := p]);
    assert t'.readers.Keys == t.readers.Keys;
    KeptLists(hash, t, t');
    forall n | n in t'.mem
      ensures NodeOk(hash, t', n)
    {
      assert NodeOk(hash, t, n);
    }
    forall s | s in t'.readers
      ensures ReaderOk(t', s)
    {
      assert ReaderOk(t, s);
    }
  }

  /** A bucket's head is null or linked. */
  lemma HeadIsLinked(hash: Hash, t: Table, b: nat)
    requires Listed(hash, t) && b < |t.heads| && t.heads[b] != 0
    ensures t.heads[b] in t.mem && t.mem[t.heads[b]].linked
  {
    assert BucketOk(hash, t, b);
    assert t.chains[b] != [] && Home(hash, t, b, t.chains[b][0]);
  }

  /** So is what follows a linked node. */
  lemma NextOfLinked(hash: Hash, t: Table, n: Ptr)
    requires Inv(hash, t) && n in t.mem && t.mem[n].linked && t.mem[n].next != 0
    ensures t.mem[n].next in t.mem && t.mem[t.mem[n].next].linked
  {
    assert NodeOk(hash, t, n);
    var b := Bucket(hash, t, t.mem[n].uid);
    assert BucketOk(hash, t, b);
    var c := t.chains[b];
    var i :| 0 <= i < |c| && c[i] == n;
    ChainFrom(t.mem, t.heads[b], c, i + 1);
    assert c[i + 1..] != [] && c[i + 1..][0] == c[i + 1];
    assert Home(hash, t, b, c[i + 1]);
  }

  lemma AdvanceKeeps(hash: Hash, t: Table, r: Section)
    requires Inv(hash, t) && r in t.readers && t.readers[r] in t.mem
    ensures Inv(hash, t.(readers := t.readers[r := t.mem[t.readers[r]].next]))
  {
    var n := t.readers[r];
    assert ReaderOk(t, r) && NodeOk(hash, t, n);
    if t.mem[n].next != 0 && t.mem[n].linked { NextOfLinked(hash, t, n); }
    MoveKeeps(hash, t, r, t.mem[n].next);
  }

  /** Only the count of a node changes, together with who holds it. */
  ghost predicate Counted(t: Table, t': Table, n: Ptr) {
    && n in t.mem && n in t'.mem
    && t' == t.(mem := t.mem[n := t'.mem[n]], held := t'.held, writer := t'.writer)
    && t'.mem[n] == t.mem[n].(ref := t'.mem[n].ref, retired := t'.mem[n].retired, waiting := t'.mem[n].waiting)
    && t'.mem[n].ref == Owed(t', n) + t'.held[n] && (t'.mem[n].retired <==> t'.mem[n].ref == 0)
    && (t'.mem[n].retired ==> t'.mem[n].waiting == t.readers.Keys)
    && (forall m :: m in t.mem && m != n ==> Owed(t', m) == Owed(t, m) && t'.held[m] == t.held[m])
    && (forall m :: m in t'.held ==> m in t.mem) && (t'.writer == t.writer || t'.writer.Idle?)
  }

  lemma CountedReachable(t: Table, t': Table, n: Ptr, m: Ptr, sections: set<Section>)
    requires Counted(t, t', n) && Reachable(t, m, sections)
    ensures Reachable(t', m, sections)
  {
  }

  lemma CountedNode(hash: Hash, t: Table, t': Table, n: Ptr, m: Ptr)
    requires Inv(hash, t) && Counted(t, t', n) && m in t.mem
    ensures NodeOk(hash, t', m)
  {
    assert NodeOk(hash, t, m);
    if !t.mem[m].linked && t.mem[m].since != {} && t.mem[m].next != 0 {
      CountedReachable(t, t', n, t.mem[m].next, t.mem[m].since);
    }
  }

  lemma CountKeeps(hash: Hash, t: Table, t': Table, n: Ptr)
    requires Inv(hash, t) && Counted(t, t', n)
    ensures Inv(hash, t')
  {
    KeptLists(hash, t, t');
    forall m | m in t'.mem
      ensures NodeOk(hash, t', m)
    {
      CountedNode(hash, t, t', n, m);
    }
    forall s | s in t'.readers
      ensures ReaderOk(t', s)
    {
      assert ReaderOk(t, s);
    }
  }

  lemma TryGetKeeps(hash: Hash, t: Table, r: Section)
    requires Inv(hash, t)
    ensures Inv(hash, Next(hash, t, TryGet(r)))
  {
    if r in t.readers && t.readers[r] in t.mem {
      var n := t.readers[r];
      assert NodeOk(hash, t, n);
      if t.mem[n].ref == 0 {
        var b := Bucket(hash, t, t.mem[n].uid);
        if t.heads[b] != 0 { HeadIsLinked(hash, t, b); }
        MoveKeeps(hash, t, r, t.heads[b]);
      } else {
        CountKeeps(hash, t, Next(hash, t, TryGet(r)), n);
      }
    }
  }

  lemma PutKeeps(hash: Hash, t: Table, n: Ptr)
    requires Inv(hash, t) && n in t.held && n in t.mem
    ensures Inv(hash, Next(hash, t, Put(n)))
  {
    assert NodeOk(hash, t, n);
    CountKeeps(hash, t, Next(hash, t, Put(n)), n);
  }

  lemma PutOldKeeps(hash: Hash, t: Table)
    requires Inv(hash, t) && t.writer.Owes?
    ensures Inv(hash, Next(hash, t, PutOld))
  {
    var n := t.writer.gone;
    assert NodeOk(hash, t, n);
    CountKeeps(hash, t, Next(hash, t, PutOld), n);
  }

  lemma UnlockKeeps(hash: Hash, t: Table, r: Section)
    requires Inv(hash, t) && r in t.readers
    ensures Inv(hash, Next(hash, t, Unlock(r)))
  {
    var t' := Next(hash, t, Unlock(r));
    KeptLists(hash, t, t');
    forall n | n in t'.mem
      ensures NodeOk(hash, t', n)
    {
      assert NodeOk(hash, t, n);
    }
    forall s | s in t'.readers
      ensures ReaderOk(t', s)
    {
      assert ReaderOk(t, s);
    }
  }

  /** Memory is given back only when nobody can come to it. */
  lemma FreeKeeps(hash: Hash, t: Table, n: Ptr)
    requires Inv(hash, t) && n in t.mem && t.mem[n].retired && t.mem[n].waiting == {}
    ensures Inv(hash, Next(hash, t, Free(n)))
  {
    var t' := Next(hash, t, Free(n));
    assert NodeOk(hash, t, n);
    assert t.mem[n].since == {} && !t.mem[n].linked && n !in t.held;
    KeptLists(hash, t, t');
    forall m | m in t'.mem
      ensures NodeOk(hash, t', m)
    {
      assert NodeOk(hash, t, m);
    }
    forall s | s in t'.readers
      ensures ReaderOk(t', s)
    {
      assert ReaderOk(t, s);
    }
  }

  // ----- the steps of the writer -----

  /** The cells before place i, then the list d: what a bucket is once place i was pointed at d. */
  lemma Linked(hash: Hash, t: Table, mem: Memory, b: nat, i: nat, p: Ptr, d: seq<Ptr>)
    requires Listed(hash, t) && b < |t.heads| && i <= |t.chains[b]|
    requires forall k :: 0 <= k < |t.chains[b]| && t.chains[b][k] in t.mem ==>
               t.chains[b][k] in mem && mem[t.chains[b][k]].next == t.mem[t.chains[b][k]].next
    requires Chain(mem, p, d) && forall k :: 0 <= k < i ==> t.chains[b][k] !in d
    ensures i > 0 ==> t.chains[b][i - 1] in mem
    ensures i > 0 ==> Chain(mem[t.chains[b][i - 1] := mem[t.chains[b][i - 1]].(next := p)], t.heads[b], t.chains[b][..i] + d)
    ensures i == 0 ==> Chain(mem, p, t.chains[b][..i] + d)
  {
    assert BucketOk(hash, t, b);
    var c := t.chains[b];
    forall k | 0 <= k < |c|
      ensures c[k] in t.mem
    {
      assert Home(hash, t, b, c[k]);
    }
    DifferentUidsDifferentNodes(t.mem, c);
    if i > 0 {
      ChainAgree(t.mem, mem, t.heads[b], c);
      Relink(mem, t.heads[b], c, i, p, d);
    } else {
      assert c[..0] + d == d;
    }
  }

  /** The list behind place i, seen in a memory that agrees on it. */
  lemma Behind(hash: Hash, t: Table, mem: Memory, b: nat, i: nat)
    requires Listed(hash, t) && b < |t.heads| && i < |t.chains[b]|
    requires forall k :: 0 <= k < |t.chains[b]| && t.chains[b][k] in t.mem ==>
               t.chains[b][k] in mem && mem[t.chains[b][k]].next == t.mem[t.chains[b][k]].next
    ensures t.chains[b][i] in t.mem && Chain(mem, t.mem[t.chains[b][i]].next, t.chains[b][i + 1..])
  {
    assert BucketOk(hash, t, b);
    ChainFrom(t.mem, t.heads[b], t.chains[b], i + 1);
    ChainAgree(t.mem, mem, t.mem[t.chains[b][i]].next, t.chains[b][i + 1..]);
  }

  /** What a writer's step changes: one bucket's list, nodes of that bucket, and a new node. */
  ghost predicate OneBucket(hash: Hash, t: Table, t': Table, b: nat)
    requires 0 < |t.heads|
  {
    && |t'.heads| == |t'.chains| == |t.heads| == |t.chains| && b < |t.heads|
    && t'.heads == t.heads[b := t'.heads[b]] && t'.chains == t.chains[b := t'.chains[b]]
    && forall n :: n in t.mem && t.mem[n].linked && Bucket(hash, t, t.mem[n].uid) != b ==> n in t'.mem && t'.mem[n] == t.mem[n]
  }

  lemma OneBucketListed(hash: Hash, t: Table, t': Table, b: nat)
    requires Listed(hash, t) && OneBucket(hash, t, t', b) && BucketOk(hash, t', b)
    ensures Listed(hash, t')
  {
    forall k | 0 <= k < |t'.heads|
      ensures BucketOk(hash, t', k)
    {
      if k != b { KeptBucket(hash, t, t', k); }
    }
  }

  /** Nodes of a chain are in memory, and another memory has them with the same uids. */
  ghost predicate SameUids(mem: Memory, mem': Memory, c: seq<Ptr>) {
    forall k :: 0 <= k < |c| ==> c[k] in mem && c[k] in mem' && mem'[c[k]].uid == mem[c[k]].uid
  }

  lemma UidsOfCut(mem: Memory, mem': Memory, c: seq<Ptr>, i: nat)
    requires UidsDiffer(mem, c) && SameUids(mem, mem', c) && i < |c|
    ensures UidsDiffer(mem', Cut(c, i))
  {
    var d := Cut(c, i);
    forall k, j | 0 <= k < j < |d|
      ensures d[k] in mem' && d[j] in mem' && mem'[d[k]].uid != mem'[d[j]].uid
    {
      assert d[k] == c[if k < i then k else k + 1] && d[j] == c[if j < i then j else j + 1];
    }
  }

  lemma UidsOfReplace(mem: Memory, mem': Memory, c: seq<Ptr>, i: nat, np: Ptr)
    requires UidsDiffer(mem, c) && SameUids(mem, mem', c) && i < |c| && np in mem' && mem'[np].uid == mem[c[i]].uid
    ensures UidsDiffer(mem', c[i := np])
  {
  }

  lemma UidsOfAdd(mem: Memory, mem': Memory, c: seq<Ptr>, np: Ptr)
    requires UidsDiffer(mem, c) && SameUids(mem, mem', c) && np in mem'
    requires forall k :: 0 <= k < |c| ==> mem[c[k]].uid != mem'[np].uid
    ensures UidsDiffer(mem', [np] + c)
  {
  }

  lemma BucketUids(hash: Hash, t: Table, mem: Memory, b: nat)
    requires Listed(hash, t) && b < |t.heads| && forall n :: n in t.mem ==> n in mem && mem[n].uid == t.mem[n].uid
    ensures UidsDiffer(t.mem, t.chains[b]) && SameUids(t.mem, mem, t.chains[b])
  {
    assert BucketOk(hash, t, b);
    forall k | 0 <= k < |t.chains[b]|
      ensures t.chains[b][k] in t.mem
    {
      assert Home(hash, t, b, t.chains[b][k]);
    }
  }

  lemma UnlinkChain(hash: Hash, t: Table, b: nat, i: nat)
    requires Listed(hash, t) && b < |t.heads| && i < |t.chains[b]|
    requires t.chains[b][i] in t.mem && (i > 0 ==> t.chains[b][i - 1] in t.mem)
    ensures Chain(Unlink(t, b, i).mem, Unlink(t, b, i).heads[b], Cut(t.chains[b], i))
  {
    var c, p := t.chains[b], t.chains[b][i];
    var mem := t.mem[p := t.mem[p].(linked := false, since := t.readers.Keys)];
    BucketUids(hash, t, mem, b);
    DifferentUidsDifferentNodes(t.mem, c);
    Behind(hash, t, mem, b, i);
    Linked(hash, t, mem, b, i, t.mem[p].next, c[i + 1..]);
  }

  lemma UnlinkHome(hash: Hash, t: Table, b: nat, i: nat, k: nat)
    requires Listed(hash, t) && b < |t.heads| && i < |t.chains[b]| && k < |t.chains[b]| && k != i
    requires t.chains[b][i] in t.mem && (i > 0 ==> t.chains[b][i - 1] in t.mem)
    ensures Home(hash, Unlink(t, b, i), b, t.chains[b][k])
  {
    BucketUids(hash, t, t.mem, b);
    DifferentUidsDifferentNodes(t.mem, t.chains[b]);
    ListedAt(hash, t, b, k);
  }

  lemma UnlinkElsewhere(hash: Hash, t: Table, b: nat, i: nat)
    requires Listed(hash, t) && b < |t.heads| && i < |t.chains[b]|
    requires t.chains[b][i] in t.mem && (i > 0 ==> t.chains[b][i - 1] in t.mem)
    ensures OneBucket(hash, t, Unlink(t, b, i), b)
    ensures forall n :: n in t.mem ==> n in Unlink(t, b, i).mem && Unlink(t, b, i).mem[n].uid == t.mem[n].uid
  {
    ListedAt(hash, t, b, i);
  }

  lemma UnlinkListed(hash: Hash, t: Table, b: nat, i: nat)
    requires Inv(hash, t) && b < |t.heads| && i < |t.chains[b]|
    requires t.chains[b][i] in t.mem && (i > 0 ==> t.chains[b][i - 1] in t.mem)
    ensures Listed(hash, Unlink(t, b, i))
  {
    var t' := Unlink(t, b, i);
    UnlinkElsewhere(hash, t, b, i);
    UnlinkChain(hash, t, b, i);
    BucketUids(hash, t, t'.mem, b);
    UidsOfCut(t.mem, t'.mem, t.chains[b], i);
    forall k | 0 <= k < |t'.chains[b]|
      ensures Home(hash, t', b, t'.chains[b][k])
    {
      UnlinkHome(hash, t, b, i, if k < i then k else k + 1);
    }
    OneBucketListed(hash, t, t', b);
  }

  lemma ReplaceChain(hash: Hash, t: Table, b: nat, i: nat, np: Ptr)
    requires Listed(hash, t) && b < |t.heads| && i < |t.chains[b]| && np !in t.mem && np != 0
    requires t.chains[b][i] in t.mem && (i > 0 ==> t.chains[b][i - 1] in t.mem)
    ensures Chain(Replace(t, b, i, np).mem, Replace(t, b, i, np).heads[b], Replace(t, b, i, np).chains[b])
  {
    var c, p := t.chains[b], t.chains[b][i];
    var mem := t.mem[np := Node(t.mem[p].uid, 1, t.mem[p].next, true, {}, false, {})]
                    [p := t.mem[p].(linked := false, since := t.readers.Keys)];
    BucketUids(hash, t, mem, b);
    DifferentUidsDifferentNodes(t.mem, c);
    Behind(hash, t, mem, b, i);
    var d := [np] + c[i + 1..];
    assert d[1..] == c[i + 1..];
    Linked(hash, t, mem, b, i, np, d);
    assert c[..i] + d == c[i := np];
  }

  lemma ReplaceHome(hash: Hash, t: Table, b: nat, i: nat, np: Ptr, k: nat)
    requires Listed(hash, t) && b < |t.heads| && i < |t.chains[b]| && k < |t.chains[b]| && np !in t.mem && np != 0
    requires t.chains[b][i] in t.mem && (i > 0 ==> t.chains[b][i - 1] in t.mem)
    ensures Home(hash, Replace(t, b, i, np), b, if k == i then np else t.chains[b][k])
  {
    BucketUids(hash, t, t.mem, b);
    DifferentUidsDifferentNodes(t.mem, t.chains[b]);
    ListedAt(hash, t, b, k);
  }

  lemma ReplaceElsewhere(hash: Hash, t: Table, b: nat, i: nat, np: Ptr)
    requires Listed(hash, t) && b < |t.heads| && i < |t.chains[b]| && np !in t.mem && np != 0
    requires t.chains[b][i] in t.mem && (i > 0 ==> t.chains[b][i - 1] in t.mem)
    ensures OneBucket(hash, t, Replace(t, b, i, np), b)
    ensures forall n :: n in t.mem ==> n in Replace(t, b, i, np).mem && Replace(t, b, i, np).mem[n].uid == t.mem[n].uid
  {
    ListedAt(hash, t, b, i);
  }

  lemma ReplaceListed(hash: Hash, t: Table, b: nat, i: nat, np: Ptr)
    requires Inv(hash, t) && b < |t.heads| && i < |t.chains[b]| && np !in t.mem && np != 0
    requires t.chains[b][i] in t.mem && (i > 0 ==> t.chains[b][i - 1] in t.mem)
    ensures Listed(hash, Replace(t, b, i, np))
  {
    var t' := Replace(t, b, i, np);
    ReplaceElsewhere(hash, t, b, i, np);
    ReplaceChain(hash, t, b, i, np);
    BucketUids(hash, t, t'.mem, b);
    UidsOfReplace(t.mem, t'.mem, t.chains[b], i, np);
    forall k | 0 <= k < |t'.chains[b]|
      ensures Home(hash, t', b, t'.chains[b][k])
    {
      ReplaceHome(hash, t, b, i, np, k);
    }
    OneBucketListed(hash, t, t', b);
  }

  lemma AddHome(hash: Hash, t: Table, b: nat, uid: nat, np: Ptr, k: nat)
    requires Listed(hash, t) && np !in t.mem && np != 0 && b == Bucket(hash, t, uid) && k <= |t.chains[b]|
    ensures Home(hash, Add(t, b, uid, np), b, Add(t, b, uid, np).chains[b][k])
  {
    if k > 0 { ListedAt(hash, t, b, k - 1); }
  }

  lemma AddUids(hash: Hash, t: Table, b: nat, uid: nat, np: Ptr)
    requires Listed(hash, t) && np !in t.mem && np != 0 && b == Bucket(hash, t, uid)
    requires Find(t.mem, t.chains[b], uid) == |t.chains[b]|
    ensures UidsDiffer(Add(t, b, uid, np).mem, Add(t, b, uid, np).chains[b])
  {
    var t' := Add(t, b, uid, np);
    BucketUids(hash, t, t'.mem, b);
    FindIsFirst(t.mem, t.chains[b], uid);
    UidsOfAdd(t.mem, t'.mem, t.chains[b], np);
  }

  lemma AddListed(hash: Hash, t: Table, uid: nat, np: Ptr)
    requires Inv(hash, t) && np !in t.mem && np != 0
    requires Find(t.mem, t.chains[Bucket(hash, t, uid)], uid) == |t.chains[Bucket(hash, t, uid)]|
    ensures Listed(hash, Add(t, Bucket(hash, t, uid), uid, np))
  {
    var b := Bucket(hash, t, uid);
    var t' := Add(t, b, uid, np);
    AddUids(hash, t, b, uid, np);
    forall k | 0 <= k < |t'.chains[b]|
      ensures Home(hash, t', b, t'.chains[b][k])
    {
      AddHome(hash, t, b, uid, np, k);
    }
    AddChain(hash, t, b, uid, np);
    OneBucketListed(hash, t, t', b);
  }

  lemma AddChain(hash: Hash, t: Table, b: nat, uid: nat, np: Ptr)
    requires Listed(hash, t) && b < |t.heads| && np !in t.mem && np != 0
    ensures Chain(Add(t, b, uid, np).mem, np, [np] + t.chains[b])
  {
    assert BucketOk(hash, t, b);
    ChainAgree(t.mem, Add(t, b, uid, np).mem, t.heads[b], t.chains[b]);
    assert ([np] + t.chains[b])[1..] == t.chains[b];
  }

  /** What unlinking node p does to the nodes and to everybody who looks at them. */
  ghost predicate Left(t: Table, t': Table, p: Ptr) {
    && p in t.mem && t.mem[p].linked && p in t'.mem
    && t'.mem[p] == t.mem[p].(linked := false, since := t.readers.Keys)
    && t'.readers == t.readers && t'.held == t.held && t.writer.Idle? && t'.writer == Owes(p)
    && (forall n :: n in t.mem ==> n in t'.mem && t'.mem[n] == t.mem[n].(linked := t'.mem[n].linked, since := t'.mem[n].since, next := t'.mem[n].next))
    && (forall n :: n in t.mem && n != p ==> t'.mem[n].linked == t.mem[n].linked && t'.mem[n].since == t.mem[n].since)
    && (forall n :: n in t.mem && !t.mem[n].linked ==> t'.mem[n].next == t.mem[n].next)
  }

  lemma LeftReaders(hash: Hash, t: Table, t': Table, p: Ptr)
    requires Inv(hash, t) && Left(t, t', p)
    ensures forall r :: r in t'.readers ==> ReaderOk(t', r)
  {
    forall r | r in t'.readers
      ensures ReaderOk(t', r)
    {
      assert ReaderOk(t, r);
    }
  }

  lemma LeftReachable(hash: Hash, t: Table, t': Table, p: Ptr, n: Ptr, sections: set<Section>)
    requires Inv(hash, t) && Left(t, t', p) && Reachable(t, n, sections) && sections <= t.readers.Keys
    ensures Reachable(t', n, sections)
  {
  }

  /** A node that was there: p itself now owes its table reference to the writer. */
  lemma LeftNode(hash: Hash, t: Table, t': Table, p: Ptr, n: Ptr)
    requires Inv(hash, t) && Left(t, t', p) && |t'.heads| == |t'.chains| == |t.heads| && n in t.mem
    requires n != p && t.mem[n].linked ==> n in t'.chains[Bucket(hash, t', t.mem[n].uid)]
    ensures NodeOk(hash, t', n)
  {
    assert NodeOk(hash, t, n);
    if n == p {
      if t.mem[p].next != 0 {
        NextOfLinked(hash, t, p);
        LeftReachable(hash, t, t', p, t.mem[p].next, t.readers.Keys);
      }
    } else if !t.mem[n].linked && t.mem[n].since != {} && t.mem[n].next != 0 {
      LeftReachable(hash, t, t', p, t.mem[n].next, t.mem[n].since);
    }
  }

  lemma {:induction false} CutKeepsOthers(c: seq<Ptr>, i: nat, n: Ptr)
    requires i < |c| && n in c && n != c[i]
    ensures n in Cut(c, i)
  {
    var k :| 0 <= k < |c| && c[k] == n;
    assert Cut(c, i)[if k < i then k else k - 1] == n;
  }

  lemma UnlinkKeeps(hash: Hash, t: Table, b: nat, i: nat)
    requires Inv(hash, t) && t.writer.Idle? && b < |t.heads| && i < |t.chains[b]|
    ensures t.chains[b][i] in t.mem && (i > 0 ==> t.chains[b][i - 1] in t.mem)
    ensures Inv(hash, Unlink(t, b, i))
  {
    ListedAt(hash, t, b, i);
    UnlinkListed(hash, t, b, i);
    var t', p := Unlink(t, b, i), t.chains[b][i];
    UnlinkLeft(hash, t, b, i);
    forall n | n in t'.mem
      ensures NodeOk(hash, t', n)
    {
      if n != p && t.mem[n].linked {
        assert NodeOk(hash, t, n);
        if n in t.chains[b] { CutKeepsOthers(t.chains[b], i, n); }
      }
      LeftNode(hash, t, t', p, n);
    }
    LeftReaders(hash, t, t', p);
    TotalUpdate(t.chains, b, Cut(t.chains[b], i));
  }

  lemma NeighboursDiffer(hash: Hash, t: Table, b: nat, i: nat)
    requires Listed(hash, t) && b < |t.heads| && i < |t.chains[b]|
    ensures t.chains[b][i] in t.mem && t.mem[t.chains[b][i]].linked
    ensures i > 0 ==> t.chains[b][i - 1] != t.chains[b][i] && t.chains[b][i - 1] in t.mem && t.mem[t.chains[b][i - 1]].linked
  {
    ListedAt(hash, t, b, i);
    BucketUids(hash, t, t.mem, b);
  }

  lemma UnlinkLeft(hash: Hash, t: Table, b: nat, i: nat)
    requires Listed(hash, t) && t.writer.Idle? && b < |t.heads| && i < |t.chains[b]|
    requires t.chains[b][i] in t.mem && (i > 0 ==> t.chains[b][i - 1] in t.mem)
    ensures Left(t, Unlink(t, b, i), t.chains[b][i])
  {
    NeighboursDiffer(hash, t, b, i);
  }

  /** A node that was there, after a new one took the place of p. */
  lemma ReplaceKeeps(hash: Hash, t: Table, b: nat, i: nat, np: Ptr)
    requires Inv(hash, t) && t.writer.Idle? && b < |t.heads| && i < |t.chains[b]| && np !in t.mem && np != 0
    requires t.chains[b][i] in t.mem && (i > 0 ==> t.chains[b][i - 1] in t.mem)
    ensures Inv(hash, Replace(t, b, i, np))
  {
    var t', p := Replace(t, b, i, np), t.chains[b][i];
    ListedAt(hash, t, b, i);
    ReplaceListed(hash, t, b, i, np);
    ReplaceLeft(hash, t, b, i, np);
    forall n | n in t'.mem
      ensures NodeOk(hash, t', n)
    {
      if n == np {
        ReplaceHome(hash, t, b, i, np, i);
        ReplaceNew(hash, t, b, i, np);
      } else {
        if n != p && t.mem[n].linked {
          assert NodeOk(hash, t, n);
          if n in t.chains[b] { ReplaceKeepsOthers(t.chains[b], i, np, n); }
        }
        LeftNode(hash, t, t', p, n);
      }
    }
    LeftReaders(hash, t, t', p);
    TotalUpdate(t.chains, b, t'.chains[b]);
  }

  lemma ReplaceKeepsOthers(c: seq<Ptr>, i: nat, np: Ptr, n: Ptr)
    requires i < |c| && n in c && n != c[i]
    ensures n in c[i := np]
  {
    var k :| 0 <= k < |c| && c[k] == n;
    assert c[i := np][k] == n;
  }

  lemma ReplaceNew(hash: Hash, t: Table, b: nat, i: nat, np: Ptr)
    requires Inv(hash, t) && t.writer.Idle? && b < |t.heads| && i < |t.chains[b]| && np !in t.mem && np != 0
    requires t.chains[b][i] in t.mem && (i > 0 ==> t.chains[b][i - 1] in t.mem)
    ensures np in Replace(t, b, i, np).mem && NodeOk(hash, Replace(t, b, i, np), np)
  {
    var t' := Replace(t, b, i, np);
    ListedAt(hash, t, b, i);
    assert t'.chains[b][i] == np;
    assert np !in t.held;
  }

  lemma ReplaceLeft(hash: Hash, t: Table, b: nat, i: nat, np: Ptr)
    requires Listed(hash, t) && t.writer.Idle? && b < |t.heads| && i < |t.chains[b]| && np !in t.mem && np != 0
    requires t.chains[b][i] in t.mem && (i > 0 ==> t.chains[b][i - 1] in t.mem)
    ensures Left(t, Replace(t, b, i, np), t.chains[b][i])
  {
    NeighboursDiffer(hash, t, b, i);
  }

  lemma AddedNode(hash: Hash, t: Table, b: nat, uid: nat, np: Ptr, n: Ptr)
    requires Inv(hash, t) && np !in t.mem && np != 0 && b == Bucket(hash, t, uid) && n in Add(t, b, uid, np).mem
    ensures NodeOk(hash, Add(t, b, uid, np), n)
  {
    var t' := Add(t, b, uid, np);
    assert t'.chains[b][0] == np && forall m :: m in t.chains[b] ==> m in t'.chains[b];
    if n == np {
      assert np !in t.held;
    } else {
      assert NodeOk(hash, t, n);
    }
  }

  lemma AddKeeps(hash: Hash, t: Table, uid: nat, np: Ptr)
    requires Inv(hash, t) && np !in t.mem && np != 0 && t.count < U16_MAX
    requires Find(t.mem, t.chains[Bucket(hash, t, uid)], uid) == |t.chains[Bucket(hash, t, uid)]|
    ensures Inv(hash, Add(t, Bucket(hash, t, uid), uid, np))
  {
    var b := Bucket(hash, t, uid);
    var t' := Add(t, b, uid, np);
    AddListed(hash, t, uid, np);
    forall n | n in t'.mem
      ensures NodeOk(hash, t', n)
    {
      AddedNode(hash, t, b, uid, np, n);
    }
    forall r | r in t'.readers
      ensures ReaderOk(t', r)
    {
      assert ReaderOk(t, r);
    }
    TotalUpdate(t.chains, b, t'.chains[b]);
  }

  // ----- over every run -----

  lemma SetProfileKeeps(hash: Hash, t: Table, uid: nat, np: Ptr)
    requires Inv(hash, t)
    ensures Inv(hash, Next(hash, t, SetProfile(uid, np)))
  {
    var b := Bucket(hash, t, uid);
    var i := Find(t.mem, t.chains[b], uid);
    if t.writer.Idle? && np !in t.mem && np != 0 {
      if i < |t.chains[b]| {
        ListedAt(hash, t, b, i);
        ReplaceKeeps(hash, t, b, i, np);
      } else if t.count < U16_MAX {
        AddKeeps(hash, t, uid, np);
      }
    }
  }

  lemma PruneKeeps(hash: Hash, t: Table, uid: nat)
    requires Inv(hash, t)
    ensures Inv(hash, Next(hash, t, Prune(uid)))
  {
    var b := Bucket(hash, t, uid);
    var i := Find(t.mem, t.chains[b], uid);
    if t.writer.Idle? && i < |t.chains[b]| {
      ListedAt(hash, t, b, i);
      UnlinkKeeps(hash, t, b, i);
    }
  }

  lemma StepKeeps(hash: Hash, t: Table, st: Step)
    requires Inv(hash, t)
    ensures Inv(hash, Next(hash, t, st))
  {
    match st
    case SetProfile(uid, np) => SetProfileKeeps(hash, t, uid, np);
    case Prune(uid) => PruneKeeps(hash, t, uid);
    case PutOld => if t.writer.Owes? { PutOldKeeps(hash, t); }
    case Lock(r) => LockKeeps(hash, t, r);
    case Lookup(r, uid) => LookupKeeps(hash, t, r, uid);
    case Advance(r) => if r in t.readers && t.readers[r] in t.mem { AdvanceKeeps(hash, t, r); }
    case TryGet(r) => TryGetKeeps(hash, t, r);
    case Unlock(r) => if r in t.readers { UnlockKeeps(hash, t, r); }
    case Put(n) => if n in t.held && n in t.mem { PutKeeps(hash, t, n); }
    case Free(n) => if n in t.mem && t.mem[n].retired && t.mem[n].waiting == {} { FreeKeeps(hash, t, n); }
  }

  lemma LookupKeeps(hash: Hash, t: Table, r: Section, uid: nat)
    requires Inv(hash, t)
    ensures Inv(hash, Next(hash, t, Lookup(r, uid)))
  {
    if r in t.readers {
      var b := Bucket(hash, t, uid);
      if t.heads[b] != 0 { HeadIsLinked(hash, t, b); }
      MoveKeeps(hash, t, r, t.heads[b]);
    }
  }

  /** The states that a run goes through, from an empty table. */
  ghost predicate Run(hash: Hash, states: seq<Table>, steps: seq<Step>) {
    && |states| == |steps| + 1 && |states[0].heads| > 0 && states[0] == Empty(|states[0].heads|)
    && forall i :: 0 <= i < |steps| ==> Follows(hash, states[i], steps[i], states[i + 1])
  }

  ghost predicate Follows(hash: Hash, t: Table, st: Step, t': Table) {
    Listed(hash, t) && t' == Next(hash, t, st)
  }

  lemma {:induction false} EmptyTotal(n: nat)
    ensures Total(Empty(n).chains) == 0
  {
    if n > 0 {
      assert Empty(n).chains[1..] == Empty(n - 1).chains;
      EmptyTotal(n - 1);
    }
  }

  lemma EmptyInv(hash: Hash, n: nat)
    requires n > 0
    ensures Inv(hash, Empty(n))
  {
    EmptyTotal(n);
    forall b | 0 <= b < n
      ensures BucketOk(hash, Empty(n), b)
    {
    }
  }

  lemma {:induction false} RunKeeps(hash: Hash, states: seq<Table>, steps: seq<Step>, i: nat)
    requires Run(hash, states, steps) && i < |states|
    ensures Inv(hash, states[i])
    decreases i
  {
    if i == 0 {
      EmptyInv(hash, |states[0].heads|);
    } else {
      RunKeeps(hash, states, steps, i - 1);
      assert Follows(hash, states[i - 1], steps[i - 1], states[i]);
      StepKeeps(hash, states[i - 1], steps[i - 1]);
    }
  }

  ghost function LinkedNodes(t: Table): set<Ptr> {
    set n | n in t.mem && t.mem[n].linked
  }

  ghost function Members(c: seq<Ptr>): set<Ptr> {
    set n | n in c
  }

  ghost function AllMembers(chains: seq<seq<Ptr>>): set<Ptr> {
    if chains == [] then {} else Members(chains[0]) + AllMembers(chains[1..])
  }

  lemma {:induction false} InAllMembers(chains: seq<seq<Ptr>>, n: Ptr)
    ensures n in AllMembers(chains) <==> exists b :: 0 <= b < |chains| && n in chains[b]
  {
    if chains != [] {
      InAllMembers(chains[1..], n);
      assert forall b :: 0 < b < |chains| ==> chains[b] == chains[1..][b - 1];
      assert forall b :: 0 <= b < |chains| - 1 ==> chains[1..][b] == chains[b + 1];
    }
  }

  lemma {:induction false} MembersSize(c: seq<Ptr>)
    requires forall i, j :: 0 <= i < j < |c| ==> c[i] != c[j]
    ensures |Members(c)| == |c|
  {
    if c != [] {
      var n := |c| - 1;
      MembersSize(c[..n]);
      assert c == c[..n] + [c[n]];
      assert Members(c) == Members(c[..n]) + {c[n]} && c[n] !in c[..n];
    }
  }

  /** Chains without repetition that have nothing in common. */
  ghost predicate Apart(chains: seq<seq<Ptr>>) {
    && (forall b :: 0 <= b < |chains| ==> |Members(chains[b])| == |chains[b]|)
    && (forall b, d :: 0 <= b < d < |chains| ==> Members(chains[b]) !! Members(chains[d]))
  }

  lemma {:induction false} AllMembersSize(chains: seq<seq<Ptr>>)
    requires Apart(chains)
    ensures |AllMembers(chains)| == Total(chains)
  {
    if chains != [] {
      var rest := chains[1..];
      assert forall b :: 0 <= b < |rest| ==> rest[b] == chains[b + 1];
      AllMembersSize(rest);
      forall n | n in AllMembers(rest)
        ensures n !in Members(chains[0])
      {
        InAllMembers(rest, n);
        var b :| 0 <= b < |rest| && n in rest[b];
        assert n in Members(chains[b + 1]);
      }
      assert Members(chains[0]) !! AllMembers(rest);
    }
  }

  lemma ChainsAreApart(hash: Hash, t: Table)
    requires Listed(hash, t)
    ensures Apart(t.chains)
  {
    forall b | 0 <= b < |t.chains|
      ensures |Members(t.chains[b])| == |t.chains[b]|
    {
      BucketUids(hash, t, t.mem, b);
      DifferentUidsDifferentNodes(t.mem, t.chains[b]);
      MembersSize(t.chains[b]);
    }
    forall b, d | 0 <= b < d < |t.chains|
      ensures Members(t.chains[b]) !! Members(t.chains[d])
    {
      forall n | n in Members(t.chains[b])
        ensures n !in t.chains[d]
      {
        assert BucketOk(hash, t, b) && BucketOk(hash, t, d);
        assert Home(hash, t, b, n);
        assert n in t.chains[d] ==> Home(hash, t, d, n);
      }
    }
  }

  /** The chains hold all linked nodes, each once. */
  lemma TotalIsLinked(hash: Hash, t: Table)
    requires Inv(hash, t)
    ensures Total(t.chains) == |LinkedNodes(t)|
  {
    ChainsAreApart(hash, t);
    AllMembersSize(t.chains);
    forall n
      ensures n in AllMembers(t.chains) <==> n in LinkedNodes(t)
    {
      InAllMembers(t.chains, n);
      if n in LinkedNodes(t) { assert NodeOk(hash, t, n); }
      if b :| 0 <= b < |t.chains| && n in t.chains[b] {
        assert BucketOk(hash, t, b);
        assert Home(hash, t, b, n);
      }
    }
    assert AllMembers(t.chains) == LinkedNodes(t);
  }

  /** At most one linked entry per uid, and the counter is their number. */
  lemma OneEntryPerUid(hash: Hash, states: seq<Table>, steps: seq<Step>, i: nat, n: Ptr, m: Ptr)
    requires Run(hash, states, steps) && i < |states|
    ensures var t := states[i];
            && (n in t.mem && m in t.mem && t.mem[n].linked && t.mem[m].linked && t.mem[n].uid == t.mem[m].uid ==> n == m)
            && t.count == |LinkedNodes(t)| <= U16_MAX
  {
    RunKeeps(hash, states, steps, i);
    TotalIsLinked(hash, states[i]);
    var t := states[i];
    if n in t.mem && m in t.mem && t.mem[n].linked && t.mem[m].linked && t.mem[n].uid == t.mem[m].uid {
      assert NodeOk(hash, t, n) && NodeOk(hash, t, m);
      assert BucketOk(hash, t, Bucket(hash, t, t.mem[n].uid));
    }
  }

  /** The counts: one for the table while it owes it, and one for each holder. */
  lemma CountsAreExact(hash: Hash, states: seq<Table>, steps: seq<Step>, i: nat, n: Ptr)
    requires Run(hash, states, steps) && i < |states| && n in states[i].mem
    ensures states[i].mem[n].ref == (if states[i].mem[n].linked || states[i].writer == Owes(n) then 1 else 0) + states[i].held[n]
    ensures states[i].mem[n].retired <==> states[i].mem[n].ref == 0
  {
    RunKeeps(hash, states, steps, i);
    assert NodeOk(hash, states[i], n);
  }

  /** No held profile has been freed or is about to be, and no running section stands on, or comes to, freed memory. */
  lemma NothingFreedInUse(hash: Hash, states: seq<Table>, steps: seq<Step>, i: nat)
    requires Run(hash, states, steps) && i < |states|
    ensures forall n :: n in states[i].held ==> n in states[i].mem && !states[i].mem[n].retired
    ensures forall r :: r in states[i].readers && states[i].readers[r] != 0 ==>
              states[i].readers[r] in states[i].mem && !FreeableNow(states[i], states[i].readers[r])
  {
    RunKeeps(hash, states, steps, i);
    var t := states[i];
    forall n | n in t.held
      ensures n in t.mem && !t.mem[n].retired
    {
      assert NodeOk(hash, t, n);
    }
    forall r | r in t.readers && t.readers[r] != 0
      ensures t.readers[r] in t.mem && !FreeableNow(t, t.readers[r])
    {
      assert ReaderOk(t, r) && NodeOk(hash, t, t.readers[r]);
    }
  }

  predicate FreeableNow(t: Table, n: Ptr) {
    n in t.mem && t.mem[n].retired && t.mem[n].waiting == {}
  }
}
