/**
 The access-vector table: a hash table of singly linked chains of rule nodes, edited in place
 (kernel/non_gki/sepolicy.c). The table refines a map from access-vector keys to bits.
 */
module RuleTables {
  import opened AccessVectors
  import opened Options

  /** `key.specified`: a node carries exactly one of these. */
  datatype Kind =
    | Allowed | AuditAllow | AuditDeny
    | Transition | Member | Change
    | XpermsAllowed | XpermsAuditAllow | XpermsDontAudit
  {
    predicate IsAv() { Allowed? || AuditAllow? || AuditDeny? }
    predicate IsXperms() { XpermsAllowed? || XpermsAuditAllow? || XpermsDontAudit? }
  }

  datatype RuleKey = RuleKey(source: nat, target: nat, cls: nat, kind: Kind)

  /** The union `datum.u`; extended permissions are a pointer this model does not look behind. */
  datatype Datum = Bits(av: AV) | TypeValue(v: nat) | Xperms(pointer: nat)

  predicate WellTyped(k: Kind, d: Datum) {
    if k.IsAv() then d.Bits? else if k.IsXperms() then d.Xperms? else d.TypeValue?
  }

  /** The value a fresh access-vector node starts with, which is also the value not worth a node. */
  function DefaultAv(k: Kind): AV {
    if k.AuditDeny? then ALL_ONES else {}
  }

  // ----- the table as a map -----

  /** What the map says of a key: a missing access-vector rule means its default. */
  function ValueAt(m: map<RuleKey, AV>, k: RuleKey): AV {
    if k in m then m[k] else DefaultAv(k.kind)
  }

  /** The map with one key set, in canonical form: a default value is not stored. */
  function Put(m: map<RuleKey, AV>, k: RuleKey, v: AV): map<RuleKey, AV> {
    if v == DefaultAv(k.kind) then m - {k} else m[k := v]
  }

  /** A rule as a value: what one node stores. */
  datatype Entry = Entry(key: RuleKey, datum: Datum)

  function Cut<T>(s: seq<T>, p: nat): seq<T>
    requires p < |s|
  {
    s[..p] + s[p + 1..]
  }

  function Paste<T>(s: seq<T>, p: nat, x: T): seq<T>
    requires p <= |s|
  {
    s[..p] + [x] + s[p..]
  }

  lemma PasteAt<T>(s: seq<T>, p: nat, x: T, j: nat)
    requires p <= |s| && j <= |s|
    ensures Paste(s, p, x)[j] == if j < p then s[j] else if j == p then x else s[j - 1]
  {
  }

  ghost predicate Distinct<T>(s: seq<T>) {
    forall j, k :: 0 <= j < k < |s| ==> s[j] != s[k]
  }

  lemma CutAt<T>(s: seq<T>, p: nat, j: nat)
    requires p < |s| && j < |s| - 1
    ensures Cut(s, p)[j] == if j < p then s[j] else s[j + 1]
  {
  }

  /** The slot of a key: extended permissions and rules of one triple share it. */
  function SlotOf(hash: (nat, nat, nat) -> nat, n: nat, k: RuleKey): (i: nat)
    requires n > 0
    ensures i < n
  {
    hash(k.source, k.target, k.cls) % n
  }

  /** Every rule of chain i belongs to slot i, and an access-vector key has one node. */
  ghost predicate ChainOk(hash: (nat, nat, nat) -> nat, n: nat, i: nat, c: seq<Entry>)
    requires n > 0
  {
    && (forall j :: 0 <= j < |c| ==> SlotOf(hash, n, c[j].key) == i && WellTyped(c[j].key.kind, c[j].datum))
    && (forall j, k :: 0 <= j < k < |c| && c[j].key == c[k].key ==> !c[j].key.kind.IsAv())
  }

  ghost predicate TableOk(hash: (nat, nat, nat) -> nat, es: seq<seq<Entry>>) {
    |es| > 0 && forall i :: 0 <= i < |es| ==> ChainOk(hash, |es|, i, es[i])
  }

  /** The bits a chain holds for an access-vector key, if it has a node for it. */
  function Find(c: seq<Entry>, k: RuleKey): Option<AV> {
    if c == [] then None
    else if c[0].key == k && c[0].datum.Bits? then Some(c[0].datum.av)
    else Find(c[1..], k)
  }

  /** The map a table of chains stands for. */
  ghost predicate Refines(hash: (nat, nat, nat) -> nat, es: seq<seq<Entry>>, m: map<RuleKey, AV>) {
    && TableOk(hash, es)
    && (forall k: RuleKey :: k.kind.IsAv() ==>
          Find(es[SlotOf(hash, |es|, k)], k) == if k in m then Some(m[k]) else None)
    && (forall k :: k in m ==> k.kind.IsAv())
  }

  /** What Find means: the node with that key, if there is one. */
  lemma {:induction false} FindIsIndex(c: seq<Entry>, k: RuleKey)
    ensures Find(c, k).Some? ==> exists j :: 0 <= j < |c| && c[j] == Entry(k, Bits(Find(c, k).value))
    ensures Find(c, k).None? ==> forall j :: 0 <= j < |c| && c[j].key == k ==> !c[j].datum.Bits?
  {
    if c != [] && !(c[0].key == k && c[0].datum.Bits?) {
      FindIsIndex(c[1..], k);
      if Find(c, k).Some? {
        var j :| 0 <= j < |c[1..]| && c[1..][j] == Entry(k, Bits(Find(c[1..], k).value));
        assert c[j + 1] == Entry(k, Bits(Find(c, k).value));
      }
    }
  }

  lemma FindFound(hash: (nat, nat, nat) -> nat, n: nat, i: nat, c: seq<Entry>, j: nat)
    requires n > 0 && ChainOk(hash, n, i, c) && j < |c| && c[j].key.kind.IsAv()
    ensures Find(c, c[j].key) == Some(c[j].datum.av)
  {
    FindIsIndex(c, c[j].key);
  }

  lemma {:induction false} FindPaste(c: seq<Entry>, p: nat, e: Entry, k: RuleKey)
    requires p <= |c| && WellTyped(e.key.kind, e.datum) && k.kind.IsAv()
    requires e.key.kind.IsAv() ==> Find(c, e.key).None?
    ensures Find(Paste(c, p, e), k) == if k == e.key then Some(e.datum.av) else Find(c, k)
  {
    if p == 0 {
      assert Paste(c, p, e)[1..] == c;
    } else {
      FindPaste(c[1..], p - 1, e, k);
      assert Paste(c, p, e)[1..] == Paste(c[1..], p - 1, e);
    }
  }

  lemma {:induction false} FindCut(c: seq<Entry>, p: nat, k: RuleKey)
    requires p < |c| && k != c[p].key
    ensures Find(Cut(c, p), k) == Find(c, k)
  {
    if p == 0 {
      assert Cut(c, p) == c[1..];
    } else {
      FindCut(c[1..], p - 1, k);
      assert Cut(c, p)[1..] == Cut(c[1..], p - 1);
    }
  }

  lemma {:induction false} FindStore(c: seq<Entry>, p: nat, v: AV, k: RuleKey)
    requires p < |c| && k != c[p].key
    ensures Find(c[p := Entry(c[p].key, Bits(v))], k) == Find(c, k)
  {
    var c' := c[p := Entry(c[p].key, Bits(v))];
    if p == 0 {
      assert c'[1..] == c[1..];
    } else {
      FindStore(c[1..], p - 1, v, k);
      assert c'[1..] == c[1..][p - 1 := Entry(c[p].key, Bits(v))];
    }
  }

  lemma PasteKeepsChain(hash: (nat, nat, nat) -> nat, n: nat, i: nat, c: seq<Entry>, p: nat, e: Entry)
    requires n > 0 && ChainOk(hash, n, i, c) && p <= |c|
    requires SlotOf(hash, n, e.key) == i && WellTyped(e.key.kind, e.datum)
    requires e.key.kind.IsAv() ==> Find(c, e.key).None?
    ensures ChainOk(hash, n, i, Paste(c, p, e))
  {
    FindIsIndex(c, e.key);
    PasteKeepsUnique(c, p, e);
    PasteKeepsSlots(hash, n, i, c, p, e);
  }

  lemma PasteKeepsSlots(hash: (nat, nat, nat) -> nat, n: nat, i: nat, c: seq<Entry>, p: nat, e: Entry)
    requires n > 0 && p <= |c|
    requires forall j :: 0 <= j < |c| ==> SlotOf(hash, n, c[j].key) == i && WellTyped(c[j].key.kind, c[j].datum)
    requires SlotOf(hash, n, e.key) == i && WellTyped(e.key.kind, e.datum)
    ensures var d := Paste(c, p, e);
            forall j :: 0 <= j < |d| ==> SlotOf(hash, n, d[j].key) == i && WellTyped(d[j].key.kind, d[j].datum)
  {
    forall j | 0 <= j < |Paste(c, p, e)|
      ensures SlotOf(hash, n, Paste(c, p, e)[j].key) == i &&
              WellTyped(Paste(c, p, e)[j].key.kind, Paste(c, p, e)[j].datum)
    {
      PasteAt(c, p, e, j);
    }
  }

  lemma PasteKeepsUnique(c: seq<Entry>, p: nat, e: Entry)
    requires p <= |c|
    requires forall j, k :: 0 <= j < k < |c| && c[j].key == c[k].key ==> !c[j].key.kind.IsAv()
    requires e.key.kind.IsAv() ==> forall j :: 0 <= j < |c| ==> c[j].key != e.key
    ensures var d := Paste(c, p, e);
            forall j, k :: 0 <= j < k < |d| && d[j].key == d[k].key ==> !d[j].key.kind.IsAv()
  {
    forall j | 0 <= j <= |c| { PasteAt(c, p, e, j); }
  }

  lemma CutKeepsChain(hash: (nat, nat, nat) -> nat, n: nat, i: nat, c: seq<Entry>, p: nat)
    requires n > 0 && ChainOk(hash, n, i, c) && p < |c|
    ensures ChainOk(hash, n, i, Cut(c, p))
    ensures c[p].key.kind.IsAv() ==> Find(Cut(c, p), c[p].key).None?
  {
    var d := Cut(c, p);
    forall j | 0 <= j < |c| - 1 { CutAt(c, p, j); }
    FindIsIndex(d, c[p].key);
  }

  /** Pasting a rule with a new key adds that key to the map. */
  lemma PasteRefines(hash: (nat, nat, nat) -> nat, es: seq<seq<Entry>>, m: map<RuleKey, AV>, p: nat, e: Entry)
    requires Refines(hash, es, m) && WellTyped(e.key.kind, e.datum)
    requires e.key.kind.IsAv() ==> e.key !in m
    requires p <= |es[SlotOf(hash, |es|, e.key)]|
    ensures var i := SlotOf(hash, |es|, e.key);
            Refines(hash, es[i := Paste(es[i], p, e)], if e.key.kind.IsAv() then m[e.key := e.datum.av] else m)
  {
    var i := SlotOf(hash, |es|, e.key);
    PasteKeepsChain(hash, |es|, i, es[i], p, e);
    forall k: RuleKey | k.kind.IsAv()
      ensures Find(Paste(es[i], p, e), k) == if k == e.key then Some(e.datum.av) else Find(es[i], k)
    {
      FindPaste(es[i], p, e, k);
    }
  }

  /** Cutting a node out removes its key from the map and nothing else. */
  lemma CutRefines(hash: (nat, nat, nat) -> nat, es: seq<seq<Entry>>, m: map<RuleKey, AV>, i: nat, p: nat)
    requires Refines(hash, es, m) && i < |es| && p < |es[i]|
    ensures Refines(hash, es[i := Cut(es[i], p)], m - {es[i][p].key})
    ensures es[i][p].key in m <==> es[i][p].key.kind.IsAv()
  {
    CutKeepsChain(hash, |es|, i, es[i], p);
    if es[i][p].key.kind.IsAv() {
      FindFound(hash, |es|, i, es[i], p);
    }
    forall k: RuleKey | k.kind.IsAv() && k != es[i][p].key
      ensures Find(Cut(es[i], p), k) == Find(es[i], k)
    {
      FindCut(es[i], p, k);
    }
  }

  /** Overwriting a node's bits changes the map at its key only. */
  lemma StoreRefines(hash: (nat, nat, nat) -> nat, es: seq<seq<Entry>>, m: map<RuleKey, AV>, i: nat, p: nat, v: AV)
    requires Refines(hash, es, m) && i < |es| && p < |es[i]| && es[i][p].key.kind.IsAv()
    ensures Refines(hash, es[i := es[i][p := Entry(es[i][p].key, Bits(v))]], m[es[i][p].key := v])
  {
    var c, k0 := es[i], es[i][p].key;
    var d := c[p := Entry(k0, Bits(v))];
    assert ChainOk(hash, |es|, i, d);
    FindFound(hash, |es|, i, d, p);
    forall k: RuleKey | k.kind.IsAv() && k != k0
      ensures Find(d, k) == Find(c, k)
    {
      FindStore(c, p, v, k);
    }
  }

  /** The number of nodes, `te_avtab.nel`. */
  ghost function Total(es: seq<seq<Entry>>): nat {
    if es == [] then 0 else |es[0]| + Total(es[1..])
  }

  lemma {:induction false} TotalUpdate(es: seq<seq<Entry>>, i: nat, c: seq<Entry>)
    requires i < |es|
    ensures Total(es[i := c]) == Total(es) - |es[i]| + |c|
    ensures |es[i]| <= Total(es)
  {
    if i == 0 {
      assert es[0 := c][1..] == es[1..];
    } else {
      TotalUpdate(es[1..], i - 1, c);
      assert es[i := c][1..] == es[1..][i - 1 := c];
    }
  }

  // ----- the chains of nodes themselves -----

  /** A pointer to a node; 0 is NULL. */
  type Ptr = nat

  datatype Node = Node(key: RuleKey, datum: Datum, next: Ptr)

  type Memory = map<Ptr, Node>

  /** Following `next` from p visits exactly the nodes of c and ends in NULL. */
  ghost predicate Linked(mem: Memory, p: Ptr, c: seq<Ptr>)
    decreases |c|
  {
    if c == [] then p == 0
    else p == c[0] && p != 0 && p in mem && p !in c[1..] && Linked(mem, mem[p].next, c[1..])
  }

  /** The rules stored along a chain. */
  ghost function Stored(mem: Memory, c: seq<Ptr>): (es: seq<Entry>)
    requires forall p :: p in c ==> p in mem
    ensures |es| == |c|
    ensures forall j :: 0 <= j < |c| ==> es[j] == Entry(mem[c[j]].key, mem[c[j]].datum)
  {
    if c == [] then [] else [Entry(mem[c[0]].key, mem[c[0]].datum)] + Stored(mem, c[1..])
  }

  lemma {:induction false} LinkedInMemory(mem: Memory, p: Ptr, c: seq<Ptr>)
    requires Linked(mem, p, c)
    ensures forall q :: q in c ==> q in mem && q != 0
    ensures Distinct(c)
    decreases |c|
  {
    if c != [] {
      LinkedInMemory(mem, mem[p].next, c[1..]);
      assert c == [c[0]] + c[1..];
    }
  }

  /** A write to a node outside a chain leaves the chain alone. */
  lemma {:induction false} LinkedFrame(mem: Memory, mem': Memory, p: Ptr, c: seq<Ptr>)
    requires Linked(mem, p, c)
    requires forall q :: q in c && q in mem ==> q in mem' && mem'[q] == mem[q]
    ensures Linked(mem', p, c) 
    decreases |c|
  {
    if c != [] {
      LinkedFrame(mem, mem', mem[p].next, c[1..]);
    }
  }

  /** What a walk along a chain finds behind place j. */
  lemma {:induction false} LinkedAt(mem: Memory, p: Ptr, c: seq<Ptr>, j: nat)
    requires Linked(mem, p, c) && j < |c|
    ensures c[j] in mem && c[j] != 0 && p == c[0]
    ensures mem[c[j]].next == if j + 1 < |c| then c[j + 1] else 0
    decreases |c|
  {
    if j > 0 {
      LinkedAt(mem, mem[p].next, c[1..], j - 1);
    }
  }

  /** Writing a node's datum keeps every chain. */
  lemma {:induction false} LinkedStore(mem: Memory, p: Ptr, c: seq<Ptr>, q: Ptr, d: Datum)
    requires Linked(mem, p, c) && q in mem
    ensures Linked(mem[q := mem[q].(datum := d)], p, c)
    decreases |c|
  {
    if c != [] {
      LinkedStore(mem, mem[p].next, c[1..], q, d);
    }
  }

  /** The unlink step: the predecessor, or the slot head, skips the node, which is then freed. */
  lemma {:induction false} LinkedCut(mem: Memory, p: Ptr, c: seq<Ptr>, at: nat)
    requires Linked(mem, p, c) && at < |c|
    ensures forall q :: q in c ==> q in mem
    ensures var mem' := (if at == 0 then mem else mem[c[at - 1] := mem[c[at - 1]].(next := mem[c[at]].next)]) - {c[at]};
            Linked(mem', if at == 0 then mem[c[0]].next else p, Cut(c, at))
    decreases |c|
  {
    LinkedInMemory(mem, p, c);
    var rest := c[1..];
    if at == 0 {
      assert Cut(c, 0) == rest;
      LinkedFrame(mem, mem - {c[0]}, mem[p].next, rest);
    } else {
      var mem' := mem[c[at - 1] := mem[c[at - 1]].(next := mem[c[at]].next)] - {c[at]};
      assert Cut(c, at)[1..] == Cut(rest, at - 1);
      LinkedCut(mem, mem[p].next, rest, at - 1);
      if at == 1 {
        assert Cut(rest, 0) == rest[1..];
        LinkedFrame(mem - {c[1]}, mem', mem[c[1]].next, rest[1..]);
      }
    }
  }

  /** The link step: a new node goes in behind its predecessor, or first. */
  lemma {:induction false} LinkedPaste(mem: Memory, p: Ptr, c: seq<Ptr>, at: nat, n: Ptr, k: RuleKey, d: Datum)
    requires Linked(mem, p, c) && at <= |c| && n !in mem && n != 0
    ensures forall q :: q in c ==> q in mem
    ensures var node := Node(k, d, if at == 0 then p else mem[c[at - 1]].next);
            var mem' := (if at == 0 then mem else mem[c[at - 1] := mem[c[at - 1]].(next := n)])[n := node];
            Linked(mem', if at == 0 then n else p, Paste(c, at, n))
    decreases |c|
  {
    LinkedInMemory(mem, p, c);
    var node := Node(k, d, if at == 0 then p else mem[c[at - 1]].next);
    if at == 0 {
      assert Paste(c, 0, n)[1..] == c;
      LinkedFrame(mem, mem[n := node], p, c);
    } else {
      var rest := c[1..];
      var mem' := mem[c[at - 1] := mem[c[at - 1]].(next := n)][n := node];
      assert Paste(c, at, n)[1..] == Paste(rest, at - 1, n);
      LinkedPaste(mem, mem[p].next, rest, at - 1, n, k, d);
      if at == 1 {
        LinkedFrame(mem[n := node], mem', n, Paste(rest, 0, n));
      }
    }
  }

  lemma {:induction false} StoredFrame(mem: Memory, mem': Memory, c: seq<Ptr>)
    requires forall p :: p in c ==> p in mem && p in mem'
    requires forall p :: p in c ==> mem[p].key == mem'[p].key && mem[p].datum == mem'[p].datum
    ensures Stored(mem, c) == Stored(mem', c)
  {
  }

  lemma StoredPaste(mem: Memory, c: seq<Ptr>, at: nat, n: Ptr)
    requires at <= |c| && n in mem && forall p :: p in c ==> p in mem
    ensures forall p :: p in Paste(c, at, n) ==> p in mem
    ensures Stored(mem, Paste(c, at, n)) == Paste(Stored(mem, c), at, Entry(mem[n].key, mem[n].datum))
  {
    var e := Entry(mem[n].key, mem[n].datum);
    forall j | 0 <= j <= |c|
      ensures Stored(mem, Paste(c, at, n))[j] == Paste(Stored(mem, c), at, e)[j]
    {
      PasteAt(c, at, n, j);
      PasteAt(Stored(mem, c), at, e, j);
    }
  }

  lemma StoredCut(mem: Memory, c: seq<Ptr>, at: nat)
    requires at < |c| && forall p :: p in c ==> p in mem
    ensures forall p :: p in Cut(c, at) ==> p in mem
    ensures Stored(mem, Cut(c, at)) == Cut(Stored(mem, c), at)
  {
    forall j | 0 <= j < |c| - 1
      ensures Stored(mem, Cut(c, at))[j] == Cut(Stored(mem, c), at)[j]
    {
      CutAt(c, at, j);
      CutAt(Stored(mem, c), at, j);
    }
  }

  lemma StoredStore(mem: Memory, c: seq<Ptr>, at: nat, d: Datum)
    requires at < |c| && Distinct(c) && forall p :: p in c ==> p in mem
    ensures Stored(mem[c[at] := mem[c[at]].(datum := d)], c) == Stored(mem, c)[at := Entry(mem[c[at]].key, d)]
  {
    var mem' := mem[c[at] := mem[c[at]].(datum := d)];
    forall j | 0 <= j < |c|
      ensures Stored(mem', c)[j] == Stored(mem, c)[at := Entry(mem[c[at]].key, d)][j]
    {
    }
  }

  /** The table's pointers: every slot heads a chain, and no node is in two of them. */
  ghost predicate Chained(mem: Memory, htable: seq<Ptr>, chains: seq<seq<Ptr>>) {
    && |chains| == |htable|
    && (forall i :: 0 <= i < |htable| ==> Linked(mem, htable[i], chains[i]))
    && (forall i, j, q :: 0 <= i < j < |htable| && q in chains[i] ==> q !in chains[j])
  }

  /** The rules of the whole table. */
  ghost function Rules(mem: Memory, htable: seq<Ptr>, chains: seq<seq<Ptr>>): (es: seq<seq<Entry>>)
    requires Chained(mem, htable, chains)
  {
    InMemory(mem, htable, chains);
    seq(|chains|, i requires 0 <= i < |chains| => Stored(mem, chains[i]))
  }

  lemma InMemory(mem: Memory, htable: seq<Ptr>, chains: seq<seq<Ptr>>)
    requires Chained(mem, htable, chains)
    ensures forall i, q :: 0 <= i < |chains| && q in chains[i] ==> q in mem && q != 0
  {
    forall i | 0 <= i < |chains|
      ensures forall q :: q in chains[i] ==> q in mem && q != 0
    {
      LinkedInMemory(mem, htable[i], chains[i]);
    }
  }

  lemma {:induction false} EmptyTotal(es: seq<seq<Entry>>)
    requires forall i :: 0 <= i < |es| ==> es[i] == []
    ensures Total(es) == 0
  {
    if es != [] { EmptyTotal(es[1..]); }
  }

  /** The memory and head after linking a new node at a place of a chain. */
  ghost function LinkMem(mem: Memory, head: Ptr, c: seq<Ptr>, at: nat, n: Ptr, k: RuleKey, d: Datum): Memory
    requires at <= |c| && forall q :: q in c ==> q in mem
  {
    (if at == 0 then mem else mem[c[at - 1] := mem[c[at - 1]].(next := n)])
      [n := Node(k, d, if at == 0 then head else mem[c[at - 1]].next)]
  }

  /** When one chain is rebuilt from its own and new nodes, the other chains stay as they are. */
  lemma OneChainChanges(mem: Memory, mem': Memory, htable: seq<Ptr>, chains: seq<seq<Ptr>>, i: nat, head: Ptr, c: seq<Ptr>)
    requires Chained(mem, htable, chains) && i < |htable| && Linked(mem', head, c)
    requires forall q :: q in c ==> q in chains[i] || q !in mem
    requires forall q :: q in mem && q !in chains[i] ==> q in mem' && mem'[q] == mem[q]
    ensures Chained(mem', htable[i := head], chains[i := c])
    ensures forall q :: q in c ==> q in mem'
    ensures Rules(mem', htable[i := head], chains[i := c]) == Rules(mem, htable, chains)[i := Stored(mem', c)]
  {
    InMemory(mem, htable, chains);
    LinkedInMemory(mem', head, c);
    forall j | 0 <= j < |htable| && j != i
      ensures Linked(mem', htable[j], chains[j])
      ensures (forall q :: q in chains[j] ==> q in mem') && Stored(mem', chains[j]) == Stored(mem, chains[j])
    {
      LinkedFrame(mem, mem', htable[j], chains[j]);
      StoredFrame(mem, mem', chains[j]);
    }
  }

  /** Linking a node in pastes its rule into the chain. */
  lemma LinkPastes(mem: Memory, htable: seq<Ptr>, chains: seq<seq<Ptr>>, i: nat, at: nat, n: Ptr, k: RuleKey, d: Datum)
    requires Chained(mem, htable, chains) && i < |htable| && at <= |chains[i]| && n !in mem && n != 0
    ensures forall q :: q in chains[i] ==> q in mem
    ensures var mem' := LinkMem(mem, htable[i], chains[i], at, n, k, d);
            var htable' := if at == 0 then htable[i := n] else htable;
            var chains' := chains[i := Paste(chains[i], at, n)];
            Chained(mem', htable', chains') &&
            Rules(mem', htable', chains') ==
            Rules(mem, htable, chains)[i := Paste(Rules(mem, htable, chains)[i], at, Entry(k, d))]
  {
    var c := chains[i];
    LinkedInMemory(mem, htable[i], c);
    LinkedPaste(mem, htable[i], c, at, n, k, d);
    var mem' := LinkMem(mem, htable[i], c, at, n, k, d);
    var head := if at == 0 then n else htable[i];
    OneChainChanges(mem, mem', htable, chains, i, head, Paste(c, at, n));
    assert htable[i := head] == if at == 0 then htable[i := n] else htable;
    StoredFrame(mem, mem', c);
    StoredPaste(mem', c, at, n);
  }

  /** The memory after unlinking and freeing the node at a place of a chain. */
  ghost function UnlinkMem(mem: Memory, c: seq<Ptr>, at: nat): Memory
    requires at < |c| && forall q :: q in c ==> q in mem
  {
    (if at == 0 then mem else mem[c[at - 1] := mem[c[at - 1]].(next := mem[c[at]].next)]) - {c[at]}
  }

  /** Unlinking a node cuts its rule out of the chain. */
  lemma UnlinkCuts(mem: Memory, htable: seq<Ptr>, chains: seq<seq<Ptr>>, i: nat, at: nat)
    requires Chained(mem, htable, chains) && i < |htable| && at < |chains[i]|
    ensures forall q :: q in chains[i] ==> q in mem
    ensures var mem' := UnlinkMem(mem, chains[i], at);
            var htable' := if at == 0 then htable[i := mem[chains[i][0]].next] else htable;
            var chains' := chains[i := Cut(chains[i], at)];
            Chained(mem', htable', chains') &&
            Rules(mem', htable', chains') == Rules(mem, htable, chains)[i := Cut(Rules(mem, htable, chains)[i], at)]
  {
    var c := chains[i];
    LinkedInMemory(mem, htable[i], c);
    LinkedCut(mem, htable[i], c, at);
    var mem' := UnlinkMem(mem, c, at);
    var head := if at == 0 then mem[c[0]].next else htable[i];
    OneChainChanges(mem, mem', htable, chains, i, head, Cut(c, at));
    assert htable[i := head] == if at == 0 then htable[i := mem[c[0]].next] else htable;
    StoredCut(mem, c, at);
    StoredFrame(mem, mem', Cut(c, at));
  }

  /** Overwriting a node's datum overwrites its rule. */
  lemma StoreOverwrites(mem: Memory, htable: seq<Ptr>, chains: seq<seq<Ptr>>, i: nat, at: nat, d: Datum)
    requires Chained(mem, htable, chains) && i < |htable| && at < |chains[i]|
    ensures chains[i][at] in mem
    ensures var n := chains[i][at];
            var mem' := mem[n := mem[n].(datum := d)];
            Chained(mem', htable, chains) &&
            Rules(mem', htable, chains) ==
            Rules(mem, htable, chains)[i := Rules(mem, htable, chains)[i][at := Entry(mem[n].key, d)]]
  {
    var c := chains[i];
    LinkedInMemory(mem, htable[i], c);
    var mem' := mem[c[at] := mem[c[at]].(datum := d)];
    LinkedStore(mem, htable[i], c, c[at], d);
    OneChainChanges(mem, mem', htable, chains, i, htable[i], c);
    assert htable[i := htable[i]] == htable && chains[i := c] == chains;
    StoredStore(mem, c, at, d);
  }

  predicate Matches(n: RuleKey, k: RuleKey, kinds: set<Kind>) {
    n.source == k.source && n.target == k.target && n.cls == k.cls && n.kind in kinds
  }

  /** r is the first match at or behind place `from` of a chain, found at place `at`; NULL if there is none. */
  ghost predicate FirstMatch(mem: Memory, c: seq<Ptr>, k: RuleKey, kinds: set<Kind>, from: nat, r: Ptr, at: nat)
    requires forall p :: p in c ==> p in mem
  {
    && from <= at <= |c|
    && (forall j :: from <= j < at ==> !Matches(mem[c[j]].key, k, kinds))
    && (if at == |c| then r == 0 else r == c[at] && Matches(mem[c[at]].key, k, kinds))
  }

  /** `avtab_search_node` on the key's chain: the first node whose key agrees and whose kind is asked for. */
  method SearchNode(mem: Memory, head: Ptr, k: RuleKey, kinds: set<Kind>, ghost c: seq<Ptr>) returns (r: Ptr, ghost at: nat)
    requires Linked(mem, head, c)
    ensures forall p :: p in c ==> p in mem && p != 0
    ensures FirstMatch(mem, c, k, kinds, 0, r, at)
  {
    LinkedInMemory(mem, head, c);
    r, at := Scan(mem, head, k, kinds, head, c, 0);
  }

  /** `avtab_search_node_next`: the next such node behind the one found. */
  method SearchNodeNext(mem: Memory, n: Ptr, k: RuleKey, kinds: set<Kind>, ghost head: Ptr, ghost c: seq<Ptr>, ghost from: nat)
    returns (r: Ptr, ghost at: nat)
    requires Linked(mem, head, c) && from < |c| && n == c[from]
    ensures forall p :: p in c ==> p in mem && p != 0
    ensures FirstMatch(mem, c, k, kinds, from + 1, r, at)
  {
    LinkedAt(mem, head, c, from);
    r, at := Scan(mem, mem[n].next, k, kinds, head, c, from + 1);
  }

  method Scan(mem: Memory, start: Ptr, k: RuleKey, kinds: set<Kind>, ghost head: Ptr, ghost c: seq<Ptr>, ghost from: nat)
    returns (r: Ptr, ghost at: nat)
    requires Linked(mem, head, c) && from <= |c|
    requires start == if from < |c| then c[from] else 0
    ensures forall p :: p in c ==> p in mem && p != 0
    ensures FirstMatch(mem, c, k, kinds, from, r, at)
  {
    r, at := start, from;
    LinkedInMemory(mem, head, c);
    while r != 0 && !Matches(mem[r].key, k, kinds)
      invariant from <= at <= |c| && r == if at < |c| then c[at] else 0
      invariant forall j :: from <= j < at ==> !Matches(mem[c[j]].key, k, kinds)
      decreases |c| - at
    {
      LinkedAt(mem, head, c, at);
      r := mem[r].next;
      at := at + 1;
    }
    assert at < |c| ==> c[at] in c;
  }

  /** Some place of a chain: the node in front of it and the node behind it. */
  method SomePlace(mem: Memory, head: Ptr, ghost c: seq<Ptr>) returns (prev: Ptr, cur: Ptr, ghost at: nat)
    requires Linked(mem, head, c)
    ensures at <= |c| && forall p :: p in c ==> p in mem && p != 0
    ensures prev == (if at > 0 then c[at - 1] else 0) && cur == (if at < |c| then c[at] else 0)
  {
    prev, cur, at := 0, head, 0;
    LinkedInMemory(mem, head, c);
    var stop := *;
    while cur != 0 && !stop
      invariant at <= |c| && prev == (if at > 0 then c[at - 1] else 0) && cur == if at < |c| then c[at] else 0
      decreases |c| - at
    {
      LinkedAt(mem, head, c, at);
      prev, cur := cur, mem[cur].next;
      at := at + 1;
      stop := *;
    }
  }

  /** The walk of `remove_avtab_node` along one chain, with its trailing pointer. */
  method Locate(mem: Memory, head: Ptr, node: Ptr, ghost c: seq<Ptr>) returns (n: Ptr, prev: Ptr, ghost at: nat)
    requires Linked(mem, head, c)
    ensures at <= |c| && forall p :: p in c ==> p in mem && p != 0
    ensures prev == (if at > 0 then c[at - 1] else 0) && n == (if at < |c| then c[at] else 0)
    ensures if node in c then n == node else n == 0
  {
    n, prev, at := head, 0, 0;
    LinkedInMemory(mem, head, c);
    while n != 0 && n != node
      invariant at <= |c| && prev == (if at > 0 then c[at - 1] else 0) && n == if at < |c| then c[at] else 0
      invariant node !in c[..at]
      decreases |c| - at
    {
      LinkedAt(mem, head, c, at);
      n, prev := mem[n].next, n;
      at := at + 1;
    }
    assert at < |c| ==> c[at] in c;
    assert at == |c| ==> c[..at] == c;
  }

  /** The allocator: some pointer not in use. */
  method Allocate(mem: Memory) returns (n: Ptr)
    ensures n !in mem && n != 0
  {
    FreshPtrExists(mem.Keys);
    n :| n !in mem && n != 0;
  }

  lemma {:induction false} FreshPtrExists(s: set<Ptr>)
    ensures exists n: Ptr :: n !in s && n != 0
  {
    var b := UpperBound(s);
    assert b !in s && b != 0;
  }

  lemma {:induction false} UpperBound(s: set<Ptr>) returns (b: Ptr)
    ensures b > 0 && forall n :: n in s ==> n < b
  {
    if s == {} {
      b := 1;
    } else {
      var x :| x in s;
      var c := UpperBound(s - {x});
      b := if x < c then c else x + 1;
      assert forall n :: n in s ==> n == x || n in s - {x};
    }
  }

  // ----- the table -----

  /** A table: the slot heads, the nodes they lead to, their number; and the chains and the map these stand for. */
  datatype Table = Table(htable: seq<Ptr>, mem: Memory, nel: nat, chains: seq<seq<Ptr>>, contents: map<RuleKey, AV>)

  ghost function Entries(t: Table): seq<seq<Entry>>
    requires Chained(t.mem, t.htable, t.chains)
  {
    Rules(t.mem, t.htable, t.chains)
  }

  ghost predicate TableValid(hash: (nat, nat, nat) -> nat, t: Table) {
    Chained(t.mem, t.htable, t.chains) && Refines(hash, Entries(t), t.contents) && t.nel == Total(Entries(t))
  }

  /** The table with a new node at a place of its chain. */
  ghost function WithNode(hash: (nat, nat, nat) -> nat, t: Table, at: nat, n: Ptr, k: RuleKey, d: Datum): Table
    requires TableValid(hash, t) && at <= |t.chains[SlotOf(hash, |t.htable|, k)]| && WellTyped(k.kind, d)
  {
    InMemory(t.mem, t.htable, t.chains);
    var i := SlotOf(hash, |t.htable|, k);
    Table(if at == 0 then t.htable[i := n] else t.htable,
          LinkMem(t.mem, t.htable[i], t.chains[i], at, n, k, d),
          t.nel + 1,
          t.chains[i := Paste(t.chains[i], at, n)],
          if k.kind.IsAv() then t.contents[k := d.av] else t.contents)
  }

  lemma WithNodeValid(hash: (nat, nat, nat) -> nat, t: Table, at: nat, n: Ptr, k: RuleKey, d: Datum)
    requires TableValid(hash, t) && at <= |t.chains[SlotOf(hash, |t.htable|, k)]| && WellTyped(k.kind, d)
    requires n !in t.mem && n != 0 && (k.kind.IsAv() ==> k !in t.contents)
    ensures var i := SlotOf(hash, |t.htable|, k);
            var t' := WithNode(hash, t, at, n, k, d);
            TableValid(hash, t') && Entries(t') == Entries(t)[i := Paste(Entries(t)[i], at, Entry(k, d))]
  {
    var i := SlotOf(hash, |t.htable|, k);
    LinkPastes(t.mem, t.htable, t.chains, i, at, n, k, d);
    PasteRefines(hash, Entries(t), t.contents, at, Entry(k, d));
    TotalUpdate(Entries(t), i, Paste(Entries(t)[i], at, Entry(k, d)));
  }

  /** The table without the node at a place of a chain. */
  ghost function WithoutNode(hash: (nat, nat, nat) -> nat, t: Table, i: nat, at: nat): Table
    requires TableValid(hash, t) && i < |t.chains| && at < |t.chains[i]|
  {
    InMemory(t.mem, t.htable, t.chains);
    TotalUpdate(Entries(t), i, []);
    Table(if at == 0 then t.htable[i := t.mem[t.chains[i][0]].next] else t.htable,
          UnlinkMem(t.mem, t.chains[i], at),
          t.nel - 1,
          t.chains[i := Cut(t.chains[i], at)],
          t.contents - {t.mem[t.chains[i][at]].key})
  }

  lemma WithoutNodeValid(hash: (nat, nat, nat) -> nat, t: Table, i: nat, at: nat)
    requires TableValid(hash, t) && i < |t.chains| && at < |t.chains[i]|
    ensures var t' := WithoutNode(hash, t, i, at);
            TableValid(hash, t') && Entries(t') == Entries(t)[i := Cut(Entries(t)[i], at)]
  {
    UnlinkCuts(t.mem, t.htable, t.chains, i, at);
    CutRefines(hash, Entries(t), t.contents, i, at);
    TotalUpdate(Entries(t), i, Cut(Entries(t)[i], at));
  }

  /** The table with one access-vector node's bits overwritten. */
  ghost function WithBits(hash: (nat, nat, nat) -> nat, t: Table, i: nat, at: nat, v: AV): Table
    requires TableValid(hash, t) && i < |t.chains| && at < |t.chains[i]|
  {
    InMemory(t.mem, t.htable, t.chains);
    var n := t.chains[i][at];
    t.(mem := t.mem[n := t.mem[n].(datum := Bits(v))], contents := t.contents[t.mem[n].key := v])
  }

  lemma WithBitsValid(hash: (nat, nat, nat) -> nat, t: Table, i: nat, at: nat, v: AV)
    requires TableValid(hash, t) && i < |t.chains| && at < |t.chains[i]| && Entries(t)[i][at].key.kind.IsAv()
    ensures var t' := WithBits(hash, t, i, at, v);
            TableValid(hash, t') &&
            Entries(t') == Entries(t)[i := Entries(t)[i][at := Entry(Entries(t)[i][at].key, Bits(v))]]
  {
    StoreOverwrites(t.mem, t.htable, t.chains, i, at, Bits(v));
    StoreRefines(hash, Entries(t), t.contents, i, at, v);
    TotalUpdate(Entries(t), i, Entries(t)[i][at := Entry(Entries(t)[i][at].key, Bits(v))]);
  }

  /** The pointer writes of an insertion behind prev, or at the head. */
  method LinkNode(mem: Memory, htable: seq<Ptr>, i: nat, prev: Ptr, node: Node, n: Ptr)
    returns (mem': Memory, htable': seq<Ptr>)
    requires i < |htable| && (prev != 0 ==> prev in mem)
    ensures mem' == (if prev == 0 then mem else mem[prev := mem[prev].(next := n)])[n := node]
    ensures htable' == if prev == 0 then htable[i := n] else htable
  {
    mem', htable' := mem, htable;
    if prev == 0 {
      htable' := htable'[i := n];
    } else {
      mem' := mem'[prev := mem'[prev].(next := n)];
    }
    mem' := mem'[n := node];
  }

  /** The pointer writes of a removal: prev, or the head, skips the node, which is freed. */
  method UnlinkNode(mem: Memory, htable: seq<Ptr>, i: nat, prev: Ptr, n: Ptr) returns (mem': Memory, htable': seq<Ptr>)
    requires i < |htable| && n in mem && (prev != 0 ==> prev in mem)
    ensures mem' == (if prev == 0 then mem else mem[prev := mem[prev].(next := mem[n].next)]) - {n}
    ensures htable' == if prev == 0 then htable[i := mem[n].next] else htable
  {
    mem', htable' := mem, htable;
    if prev != 0 {
      mem' := mem'[prev := mem'[prev].(next := mem[n].next)];
    } else {
      htable' := htable'[i := mem[n].next];
    }
    mem' := mem' - {n};
  }

  /** `te_avtab`. */
  class RuleTable {
    const hash: (nat, nat, nat) -> nat
    var htable: seq<Ptr>
    var mem: Memory
    var nel: nat
    ghost var chains: seq<seq<Ptr>>
    ghost var contents: map<RuleKey, AV>

    /** An empty table (`avtab_alloc`). */
    constructor (hash: (nat, nat, nat) -> nat, nslot: nat)
      requires nslot > 0
      ensures Valid() && this.hash == hash && contents == map[] && nel == 0 && |htable| == nslot
    {
      this.hash := hash;
      htable, mem, nel := seq(nslot, _ => 0), map[], 0;
      chains, contents := seq(nslot, _ => []), map[];
      new;
      EmptyTotal(Entries(State()));
    }

    /** A second table that reads the same. */
    constructor Copy(table: RuleTable)
      requires table.Valid()
      ensures Valid() && hash == table.hash && State() == table.State()
    {
      hash, htable, mem, nel, chains, contents :=
        table.hash, table.htable, table.mem, table.nel, table.chains, table.contents;
    }

    ghost function State(): Table
      reads this
    {
      Table(htable, mem, nel, chains, contents)
    }

    ghost predicate Valid()
      reads this
    {
      TableValid(hash, State())
    }

    function Slot(k: RuleKey): (i: nat)
      requires |htable| > 0
      reads this
    {
      SlotOf(hash, |htable|, k)
    }

    /** Whether a node is linked in, and where. */
    ghost predicate LinkedIn(n: Ptr, i: nat, at: nat)
      reads this
    {
      i < |chains| && at < |chains[i]| && chains[i][at] == n
    }

    /** The single-kind search every edit starts with: it finds a node exactly for the keys of the map. */
    method FindRule(k: RuleKey) returns (r: Ptr, ghost at: nat)
      requires Valid() && k.kind.IsAv()
      ensures (r == 0) == (k !in contents)
      ensures r != 0 ==> LinkedIn(r, Slot(k), at) && r in mem && mem[r] == Node(k, Bits(contents[k]), mem[r].next)
    {
      r, at := SearchNode(mem, htable[Slot(k)], k, {k.kind}, chains[Slot(k)]);
      FoundIsMapped(hash, State(), k, r, at);
    }

    /** `avtab_insert_nonunique`, by its contract: a fresh node is linked at some place of its chain. */
    method Insert(k: RuleKey, d: Datum) returns (n: Ptr, ghost at: nat)
      requires Valid() && WellTyped(k.kind, d)
      requires k.kind.IsAv() ==> k !in contents
      modifies this
      ensures Valid() && n !in old(mem) && n != 0 && at <= |old(chains)[old(Slot(k))]|
      ensures State() == WithNode(hash, old(State()), at, n, k, d)
    {
      var i := Slot(k);
      var prev, cur;
      prev, cur, at := SomePlace(mem, htable[i], chains[i]);
      n := Allocate(mem);
      ghost var after := WithNode(hash, State(), at, n, k, d);
      InsertPlan(hash, State(), at, n, prev, cur, k, d);
      mem, htable := LinkNode(mem, htable, i, prev, Node(k, d, cur), n);
      nel := nel + 1;
      chains, contents := after.chains, after.contents;
      assert State() == after;
    }

    /** `remove_avtab_node`: search every slot for the node and unlink it where it is found. */
    method Remove(node: Ptr) returns (found: bool, ghost i: nat, ghost at: nat)
      requires Valid()
      modifies this
      ensures Valid()
      ensures found ==> i < |old(chains)| && at < |old(chains)[i]| && old(chains)[i][at] == node
      ensures found ==> State() == WithoutNode(hash, old(State()), i, at)
      ensures !found ==> State() == old(State()) && forall c :: c in chains ==> node !in c
    {
      i, at, found := 0, 0, false;
      for k := 0 to |htable|
        invariant State() == old(State()) && forall j :: 0 <= j < k ==> node !in chains[j]
      {
        var n, prev;
        n, prev, at := Locate(mem, htable[k], node, chains[k]);
        if n != 0 {
          i := k;
          ghost var after := WithoutNode(hash, State(), i, at);
          assert TableValid(hash, after) by {
            WithoutNodeValid(hash, State(), i, at);
          }
          RemoveWrites(hash, State(), i, at, prev);
          mem, htable := UnlinkNode(mem, htable, k, prev, n);
          if nel > 0 { nel := nel - 1; }
          chains, contents := after.chains, after.contents;
          assert State() == after;
          return true, i, at;
        }
      }
    }

    /** Overwrite an access-vector node's bits in place. */
    method Store(node: Ptr, v: AV, ghost i: nat, ghost at: nat)
      requires Valid() && LinkedIn(node, i, at) && node in mem && mem[node].key.kind.IsAv()
      modifies this
      ensures Valid() && State() == WithBits(hash, old(State()), i, at, v)
    {
      WithBitsValid(hash, State(), i, at, v);
      contents := contents[mem[node].key := v];
      mem := mem[node := mem[node].(datum := Bits(v))];
    }
  }

  ghost function WritesOfInsert(t: Table, i: nat, at: nat, n: Ptr, prev: Ptr, cur: Ptr, k: RuleKey, d: Datum): Table
    requires i < |t.htable| && i < |t.chains| && at <= |t.chains[i]| && WellTyped(k.kind, d)
    requires prev != 0 ==> prev in t.mem
  {
    Table(if prev == 0 then t.htable[i := n] else t.htable,
          (if prev == 0 then t.mem else t.mem[prev := t.mem[prev].(next := n)])[n := Node(k, d, cur)],
          t.nel + 1, t.chains[i := Paste(t.chains[i], at, n)],
          if k.kind.IsAv() then t.contents[k := d.av] else t.contents)
  }

  /** The table after an insertion is valid, and made by these writes. */
  lemma InsertPlan(hash: (nat, nat, nat) -> nat, t: Table, at: nat, n: Ptr, prev: Ptr, cur: Ptr, k: RuleKey, d: Datum)
    requires TableValid(hash, t) && at <= |t.chains[SlotOf(hash, |t.htable|, k)]| && WellTyped(k.kind, d)
    requires n !in t.mem && n != 0 && (k.kind.IsAv() ==> k !in t.contents)
    requires var c := t.chains[SlotOf(hash, |t.htable|, k)];
             prev == (if at > 0 then c[at - 1] else 0) && cur == if at < |c| then c[at] else 0
    ensures (prev != 0 ==> prev in t.mem) && TableValid(hash, WithNode(hash, t, at, n, k, d))
    ensures WithNode(hash, t, at, n, k, d) == WritesOfInsert(t, SlotOf(hash, |t.htable|, k), at, n, prev, cur, k, d)
  {
    WithNodeValid(hash, t, at, n, k, d);
    InsertWrites(hash, t, at, n, prev, cur, k, d);
  }

  /** The writes of an insertion, spelled out with the pointers the walk holds. */
  lemma InsertWrites(hash: (nat, nat, nat) -> nat, t: Table, at: nat, n: Ptr, prev: Ptr, cur: Ptr, k: RuleKey, d: Datum)
    requires TableValid(hash, t) && at <= |t.chains[SlotOf(hash, |t.htable|, k)]| && WellTyped(k.kind, d)
    requires var c := t.chains[SlotOf(hash, |t.htable|, k)];
             prev == (if at > 0 then c[at - 1] else 0) && cur == if at < |c| then c[at] else 0
    ensures prev != 0 ==> prev in t.mem
    ensures WithNode(hash, t, at, n, k, d) == WritesOfInsert(t, SlotOf(hash, |t.htable|, k), at, n, prev, cur, k, d)
  {
    var i := SlotOf(hash, |t.htable|, k);
    LinkedInMemory(t.mem, t.htable[i], t.chains[i]);
    if at > 0 { LinkedAt(t.mem, t.htable[i], t.chains[i], at - 1); }
  }

  /** The writes of a removal, spelled out with the pointers the walk holds. */
  lemma RemoveWrites(hash: (nat, nat, nat) -> nat, t: Table, i: nat, at: nat, prev: Ptr)
    requires TableValid(hash, t) && i < |t.chains| && at < |t.chains[i]|
    requires prev == if at > 0 then t.chains[i][at - 1] else 0
    ensures t.chains[i][at] in t.mem && (prev != 0 ==> prev in t.mem) && t.nel > 0
    ensures var n := t.chains[i][at];
            WithoutNode(hash, t, i, at) ==
            Table(if prev == 0 then t.htable[i := t.mem[n].next] else t.htable,
                  (if prev == 0 then t.mem else t.mem[prev := t.mem[prev].(next := t.mem[n].next)]) - {n},
                  t.nel - 1, t.chains[i := Cut(t.chains[i], at)], t.contents - {t.mem[n].key})
  {
    LinkedInMemory(t.mem, t.htable[i], t.chains[i]);
    TotalUpdate(Entries(t), i, []);
  }

  /** A single-kind search finds a node exactly when the map has the key, and it holds the map's bits. */
  lemma FoundIsMapped(hash: (nat, nat, nat) -> nat, t: Table, k: RuleKey, r: Ptr, at: nat)
    requires TableValid(hash, t) && k.kind.IsAv()
    requires forall p :: p in t.chains[SlotOf(hash, |t.htable|, k)] ==> p in t.mem && p != 0
    requires FirstMatch(t.mem, t.chains[SlotOf(hash, |t.htable|, k)], k, {k.kind}, 0, r, at)
    ensures (r == 0) == (k !in t.contents)
    ensures r != 0 ==> r in t.mem && t.mem[r].key == k && t.mem[r].datum == Bits(t.contents[k])
    ensures r != 0 ==> at < |t.chains[SlotOf(hash, |t.htable|, k)]| && t.chains[SlotOf(hash, |t.htable|, k)][at] == r
  {
    var i := SlotOf(hash, |t.htable|, k);
    var c, es := t.chains[i], Entries(t)[i];
    FindIsIndex(es, k);
    if at < |c| {
      assert c[at] in c;
      FindFound(hash, |t.htable|, i, es, at);
    }
  }
}
