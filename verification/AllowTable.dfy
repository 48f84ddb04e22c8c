/**
 The allowlist as a refcounted RCU hash table (kernel/policy/allowlist.c:32-225, 304-347, 548-580), as a
 state machine: one writer under the mutex, any number of read sections and of holders of references.
 Every step is one access that the others can see in between.
 */
module AllowTables {
  /** Addresses of `struct perm_data`; 0 is the null pointer. */
  type Ptr = nat

  /** A read section. */
  type Section = nat

  /**
   A node. `linked`, `since`, `retired` and `waiting` only record what happened: whether it is in the table,
   which sections of its last moment there still run, whether `kfree_rcu` was called, and for whom it waits.
   */
  datatype Node = Node(uid: nat, ref: nat, next: Ptr, linked: bool, since: set<Section>, retired: bool, waiting: set<Section>)

  type Memory = map<Ptr, Node>

  /** Between unlinking a node and dropping the table's reference to it. */
  datatype Writer = Idle | Owes(gone: Ptr)

  datatype Table = Table(
    mem: Memory, heads: seq<Ptr>, count: nat, writer: Writer,
    readers: map<Section, Ptr>,       // the running sections and their cursors
    held: multiset<Ptr>,              // references taken and not put
    chains: seq<seq<Ptr>>)            // the nodes of each bucket, in order: records what is linked

  const U16_MAX: nat := 0xffff

  type Hash = nat -> nat

  function Bucket(hash: Hash, t: Table, uid: nat): (b: nat)
    requires |t.heads| > 0
    ensures b < |t.heads|
  {
    hash(uid) % |t.heads|
  }

  // ----- linked lists -----

  /** The cells from `head` on are c, in order. */
  predicate Chain(mem: Memory, head: Ptr, c: seq<Ptr>)
    decreases |c|
  {
    if c == [] then head == 0
    else head == c[0] && head != 0 && head in mem && Chain(mem, mem[head].next, c[1..])
  }

  function Cut(c: seq<Ptr>, i: nat): (r: seq<Ptr>)
    requires i < |c|
    ensures |r| == |c| - 1
  {
    c[..i] + c[i + 1..]
  }

  /** The place of the first node of a chain with this uid; the length of the chain if there is none. */
  function Find(mem: Memory, c: seq<Ptr>, uid: nat): (i: nat)
    ensures i <= |c|
    ensures i < |c| ==> c[i] in mem && mem[c[i]].uid == uid
  {
    if c == [] then 0
    else if c[0] in mem && mem[c[0]].uid == uid then 0
    else 1 + Find(mem, c[1..], uid)
  }

  // ----- the steps -----

  datatype Step =
    | SetProfile(uid: nat, np: Ptr)   // publish a node: replace the uid's node, or add one
    | Prune(uid: nat)                 // unlink the uid's node
    | PutOld                          // the writer's put of what it unlinked
    | Lock(r: Section)
    | Lookup(r: Section, uid: nat)    // the cursor goes to the head of the uid's bucket
    | Advance(r: Section)
    | TryGet(r: Section)              // kref_get_unless_zero of the cursor's node; retry if it failed
    | Unlock(r: Section)
    | Put(n: Ptr)
    | Free(n: Ptr)                    // the end of a grace period

  /** Store p into the cell that points at place i of bucket b: the bucket head, or the next field before it. */
  function SetLink(t: Table, b: nat, i: nat, p: Ptr): Table
    requires b < |t.heads| == |t.chains| && i <= |t.chains[b]|
    requires i > 0 ==> t.chains[b][i - 1] in t.mem
  {
    if i == 0 then t.(heads := t.heads[b := p])
    else
      var before := t.chains[b][i - 1];
      t.(mem := t.mem[before := t.mem[before].(next := p)])
  }

  /** `hlist_replace_rcu` of the node at place i. */
  function Replace(t: Table, b: nat, i: nat, np: Ptr): Table
    requires b < |t.heads| == |t.chains| && i < |t.chains[b]| && t.chains[b][i] in t.mem && np !in t.mem
    requires i > 0 ==> t.chains[b][i - 1] in t.mem
  {
    var p := t.chains[b][i];
    var added := Node(t.mem[p].uid, 1, t.mem[p].next, true, {}, false, {});
    var unlinked := t.mem[p].(linked := false, since := t.readers.Keys);
    var c: seq<Ptr> := t.chains[b][i := np];
    SetLink(t.(mem := t.mem[np := added][p := unlinked]), b, i, np).(chains := t.chains[b := c], writer := Owes(p))
  }

  /** `hash_add_rcu`, at the head. */
  function Add(t: Table, b: nat, uid: nat, np: Ptr): Table
    requires b < |t.heads| == |t.chains| && np !in t.mem
  {
    var added := Node(uid, 1, t.heads[b], true, {}, false, {});
    t.(mem := t.mem[np := added], heads := t.heads[b := np], chains := t.chains[b := [np] + t.chains[b]], count := t.count + 1)
  }

  /** `hlist_del_rcu` of the node at place i; its own next field stays for readers that stand on it. */
  function Unlink(t: Table, b: nat, i: nat): Table
    requires b < |t.heads| == |t.chains| && i < |t.chains[b]| && t.chains[b][i] in t.mem
    requires i > 0 ==> t.chains[b][i - 1] in t.mem
  {
    var p := t.chains[b][i];
    var unlinked := t.mem[p].(linked := false, since := t.readers.Keys);
    SetLink(t.(mem := t.mem[p := unlinked]), b, i, t.mem[p].next)
      .(chains := t.chains[b := Cut(t.chains[b], i)], writer := Owes(p), count := if t.count > 0 then t.count - 1 else 0)
  }

  /** `kref_put`: the last reference gone, the node is freed after a grace period. */
  function Dropped(t: Table, n: Ptr): Table
    requires n in t.mem
  {
    var ref := if t.mem[n].ref > 0 then t.mem[n].ref - 1 else 0;
    t.(mem := t.mem[n := t.mem[n].(ref := ref, retired := ref == 0, waiting := if ref == 0 then t.readers.Keys else {})])
  }

  /** A section is over for a node. */
  function Passed(n: Node, r: Section): Node {
    n.(since := n.since - {r}, waiting := n.waiting - {r})
  }

  /** One step; a step that is not possible leaves the table as it is. */
  function Next(hash: Hash, t: Table, st: Step): Table
    requires Listed(hash, t)
  {
    match st
    case SetProfile(uid, np) =>
      var b := Bucket(hash, t, uid);
      var i := Find(t.mem, t.chains[b], uid);
      if !t.writer.Idle? || np in t.mem || np == 0 then t
      else if i < |t.chains[b]| then
        ListedAt(hash, t, b, i);
        Replace(t, b, i, np)
      else if t.count == U16_MAX then t
      else Add(t, b, uid, np)
    case Prune(uid) =>
      var b := Bucket(hash, t, uid);
      var i := Find(t.mem, t.chains[b], uid);
      if !t.writer.Idle? || i == |t.chains[b]| then t
      else
        ListedAt(hash, t, b, i);
        Unlink(t, b, i)
    case PutOld =>
      if !t.writer.Owes? || t.writer.gone !in t.mem then t else Dropped(t, t.writer.gone).(writer := Idle)
    case Lock(r) => if r in t.readers then t else t.(readers := t.readers[r := 0])
    case Lookup(r, uid) => if r !in t.readers then t else t.(readers := t.readers[r := t.heads[Bucket(hash, t, uid)]])
    case Advance(r) =>
      if r !in t.readers || t.readers[r] !in t.mem then t
      else t.(readers := t.readers[r := t.mem[t.readers[r]].next])
    case TryGet(r) =>
      if r !in t.readers || t.readers[r] !in t.mem then t
      else
        var n := t.readers[r];
        if t.mem[n].ref == 0 then t.(readers := t.readers[r := t.heads[Bucket(hash, t, t.mem[n].uid)]])
        else t.(mem := t.mem[n := t.mem[n].(ref := t.mem[n].ref + 1)], held := t.held + multiset{n})
    case Unlock(r) =>
      if r !in t.readers then t
      else t.(readers := t.readers - {r}, mem := map n | n in t.mem :: Passed(t.mem[n], r))
    case Put(n) => if n !in t.held || n !in t.mem then t else Dropped(t, n).(held := t.held - multiset{n})
    case Free(n) =>
      if n !in t.mem || !t.mem[n].retired || t.mem[n].waiting != {} then t
      else t.(mem := t.mem - {n})
  }

  // ----- what every step keeps -----

  /** The chain of bucket b is what its head leads to, and holds linked nodes of that bucket with different uids. */
  ghost predicate BucketOk(hash: Hash, t: Table, b: nat)
    requires b < |t.heads| == |t.chains|
  {
    && Chain(t.mem, t.heads[b], t.chains[b])
    && (forall i :: 0 <= i < |t.chains[b]| ==> Home(hash, t, b, t.chains[b][i]))
    && UidsDiffer(t.mem, t.chains[b])
  }

  predicate Home(hash: Hash, t: Table, b: nat, n: Ptr)
    requires b < |t.heads|
  {
    n in t.mem && t.mem[n].linked && Bucket(hash, t, t.mem[n].uid) == b
  }

  ghost predicate UidsDiffer(mem: Memory, c: seq<Ptr>) {
    forall i, j :: 0 <= i < j < |c| && c[i] in mem && c[j] in mem ==> mem[c[i]].uid != mem[c[j]].uid
  }

  ghost predicate Listed(hash: Hash, t: Table) {
    0 < |t.heads| == |t.chains| && forall b :: 0 <= b < |t.heads| ==> BucketOk(hash, t, b)
  }

  lemma ListedAt(hash: Hash, t: Table, b: nat, i: nat)
    requires Listed(hash, t) && b < |t.heads| && i < |t.chains[b]|
    ensures Home(hash, t, b, t.chains[b][i]) && (i > 0 ==> Home(hash, t, b, t.chains[b][i - 1]))
  {
    assert BucketOk(hash, t, b);
  }

  /** The table's own reference: while the node is linked, or unlinked and not yet put. */
  function Owed(t: Table, n: Ptr): nat
    requires n in t.mem
  {
    if t.mem[n].linked || t.writer == Owes(n) then 1 else 0
  }

  /** What is true of a node: where it is linked, who counts on it, and where its next field may lead. */
  ghost predicate NodeOk(hash: Hash, t: Table, n: Ptr)
    requires n in t.mem && |t.heads| == |t.chains| > 0
  {
    var node := t.mem[n];
    && n != 0
    && (node.linked ==> n in t.chains[Bucket(hash, t, node.uid)])
    && node.ref == Owed(t, n) + t.held[n]
    && (node.retired <==> node.ref == 0)
    && node.since <= t.readers.Keys
    && (node.linked ==> node.since == {})
    && (node.retired ==> node.since <= node.waiting)
    && (!node.linked && node.since != {} && node.next != 0 ==> Reachable(t, node.next, node.since))
  }

  /** Sections may stand on the node: it is linked, or was when they already ran. */
  predicate Reachable(t: Table, n: Ptr, sections: set<Section>) {
    n in t.mem && (t.mem[n].linked || sections <= t.mem[n].since)
  }

  ghost predicate ReaderOk(t: Table, r: Section)
    requires r in t.readers
  {
    t.readers[r] != 0 ==> Reachable(t, t.readers[r], {r})
  }

  ghost predicate WriterOk(t: Table) {
    t.writer.Owes? ==> t.writer.gone in t.mem && !t.mem[t.writer.gone].linked
  }

  function Total(chains: seq<seq<Ptr>>): nat {
    if chains == [] then 0 else |chains[0]| + Total(chains[1..])
  }

  ghost predicate Inv(hash: Hash, t: Table) {
    && Listed(hash, t)
    && (forall n :: n in t.mem ==> NodeOk(hash, t, n))
    && (forall r :: r in t.readers ==> ReaderOk(t, r))
    && (forall n :: n in t.held ==> n in t.mem)
    && WriterOk(t)
    && t.count == Total(t.chains) && t.count <= U16_MAX
  }

  function Empty(nbuckets: nat): Table {
    Table(map[], seq(nbuckets, _ => 0), 0, Idle, map[], multiset{}, seq(nbuckets, _ => []))
  }
}
