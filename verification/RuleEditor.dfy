/**
 The access-vector rule editor (kernel/non_gki/sepolicy.c:93-359): wildcard expansion, in-place edits
 of single rules, and removal of rules that hold their default value.
 */
module RuleEditor {
  import opened AccessVectors
  import opened Options
  import opened RuleTables
  import opened Policies

  /** `sizeof(struct avtab_key) + sizeof(struct avtab_datum)` on a 64-bit kernel. */
  const ENTRY_SIZE: nat := 16

  // ----- what an edit means -----

  /** The bits of one rule after an edit; no permission stands for all of them. */
  function NewBits(v: AV, perm: Option<Bit>, invert: bool): AV {
    if invert then
      if perm.Some? then v - {perm.value} else {}
    else
      if perm.Some? then v + {perm.value} else ALL_ONES
  }

  /** The map after the same edit of every key in S, in canonical form at those keys. */
  function EditAll(m: map<RuleKey, AV>, S: set<RuleKey>, perm: Option<Bit>, invert: bool): map<RuleKey, AV> {
    map k | k in m.Keys + S && (k in S ==> NewBits(ValueAt(m, k), perm, invert) != DefaultAv(k.kind)) ::
      if k in S then NewBits(ValueAt(m, k), perm, invert) else m[k]
  }

  /** Pointwise: edited at the named keys, untouched elsewhere, and no named key keeps a default value. */
  lemma EditAllAt(m: map<RuleKey, AV>, S: set<RuleKey>, perm: Option<Bit>, invert: bool, k: RuleKey)
    ensures var m' := EditAll(m, S, perm, invert);
            && ValueAt(m', k) == (if k in S then NewBits(ValueAt(m, k), perm, invert) else ValueAt(m, k))
            && (k in S ==> (k in m' <==> ValueAt(m', k) != DefaultAv(k.kind)))
            && (k !in S ==> (k in m' <==> k in m))
  {
  }

  lemma NewBitsTwice(v: AV, perm: Option<Bit>, invert: bool)
    ensures NewBits(NewBits(v, perm, invert), perm, invert) == NewBits(v, perm, invert)
  {
  }

  /** Edits of several key sets add up, in any order: this is why the hash iteration order is irrelevant. */
  lemma EditAllAdds(m: map<RuleKey, AV>, S: set<RuleKey>, T: set<RuleKey>, perm: Option<Bit>, invert: bool)
    ensures EditAll(EditAll(m, S, perm, invert), T, perm, invert) == EditAll(m, S + T, perm, invert)
  {
    var m1 := EditAll(m, S, perm, invert);
    var m2, m3 := EditAll(m1, T, perm, invert), EditAll(m, S + T, perm, invert);
    forall k: RuleKey
      ensures k in m2 <==> k in m3
      ensures k in m2 ==> m2[k] == m3[k]
    {
      EditAllAt(m, S, perm, invert, k);
      EditAllAt(m1, T, perm, invert, k);
      EditAllAt(m, S + T, perm, invert, k);
      NewBitsTwice(ValueAt(m, k), perm, invert);
    }
  }

  lemma EditNone(m: map<RuleKey, AV>, perm: Option<Bit>, invert: bool)
    ensures EditAll(m, {}, perm, invert) == m
  {
  }

  /** An edit of one key is a Put. */
  lemma EditOne(m: map<RuleKey, AV>, k: RuleKey, perm: Option<Bit>, invert: bool)
    ensures EditAll(m, {k}, perm, invert) == Put(m, k, NewBits(ValueAt(m, k), perm, invert))
  {
  }

  // ----- the rules an edit leaves alone -----

  /** The rules of a chain whose keys are not in S, in order. */
  function Keep(c: seq<Entry>, S: set<RuleKey>): seq<Entry> {
    if c == [] then [] else if c[0].key in S then Keep(c[1..], S) else [c[0]] + Keep(c[1..], S)
  }

  lemma {:induction false} KeepPaste(c: seq<Entry>, p: nat, e: Entry, S: set<RuleKey>)
    requires p <= |c| && e.key in S
    ensures Keep(Paste(c, p, e), S) == Keep(c, S)
  {
    if p == 0 {
      assert Paste(c, p, e)[1..] == c;
    } else {
      assert Paste(c, p, e)[1..] == Paste(c[1..], p - 1, e);
      KeepPaste(c[1..], p - 1, e, S);
    }
  }

  lemma {:induction false} KeepCut(c: seq<Entry>, p: nat, S: set<RuleKey>)
    requires p < |c| && c[p].key in S
    ensures Keep(Cut(c, p), S) == Keep(c, S)
  {
    if p == 0 {
      assert Cut(c, p) == c[1..];
    } else {
      assert Cut(c, p)[1..] == Cut(c[1..], p - 1);
      KeepCut(c[1..], p - 1, S);
    }
  }

  lemma {:induction false} KeepStore(c: seq<Entry>, p: nat, d: Datum, S: set<RuleKey>)
    requires p < |c| && c[p].key in S
    ensures Keep(c[p := Entry(c[p].key, d)], S) == Keep(c, S)
  {
    var c' := c[p := Entry(c[p].key, d)];
    if p == 0 {
      assert c'[1..] == c[1..];
    } else {
      assert c'[1..] == c[1..][p - 1 := Entry(c[p].key, d)];
      KeepStore(c[1..], p - 1, d, S);
    }
  }

  lemma {:induction false} KeepMore(c: seq<Entry>, S: set<RuleKey>, T: set<RuleKey>)
    ensures Keep(Keep(c, S), T) == Keep(c, S + T)
  {
    if c != [] {
      KeepMore(c[1..], S, T);
      assert c[0].key !in S ==> ([c[0]] + Keep(c[1..], S))[1..] == Keep(c[1..], S);
    }
  }

  /** The rules outside S, chain by chain: what an edit of keys in S must leave as it is. */
  function KeepAll(es: seq<seq<Entry>>, S: set<RuleKey>): seq<seq<Entry>> {
    if es == [] then [] else [Keep(es[0], S)] + KeepAll(es[1..], S)
  }

  lemma {:induction false} KeepAllMore(es: seq<seq<Entry>>, S: set<RuleKey>, T: set<RuleKey>)
    ensures KeepAll(KeepAll(es, S), T) == KeepAll(es, S + T)
  {
    if es != [] {
      KeepMore(es[0], S, T);
      KeepAllMore(es[1..], S, T);
      assert KeepAll(es, S)[1..] == KeepAll(es[1..], S);
    }
  }

  lemma {:induction false} KeepAllUpdate(es: seq<seq<Entry>>, i: nat, c: seq<Entry>, S: set<RuleKey>)
    requires i < |es| && Keep(c, S) == Keep(es[i], S)
    ensures KeepAll(es[i := c], S) == KeepAll(es, S)
  {
    if i == 0 {
      assert es[0 := c][1..] == es[1..];
    } else {
      KeepAllUpdate(es[1..], i - 1, c, S);
      assert es[i := c][1..] == es[1..][i - 1 := c];
    }
  }

  /** What KeepAll says of one chain. */
  lemma {:induction false} KeepAllAt(es: seq<seq<Entry>>, i: nat, S: set<RuleKey>)
    requires i < |es|
    ensures |KeepAll(es, S)| == |es| && KeepAll(es, S)[i] == Keep(es[i], S)
  {
    if i == 0 {
      if |es| > 1 { KeepAllAt(es[1..], 0, S); }
    } else {
      KeepAllAt(es[1..], i - 1, S);
    }
  }

  // ----- overwriting in place -----

  /** The chain with the bits of key k replaced. */
  function Overwrite(c: seq<Entry>, k: RuleKey, v: AV): seq<Entry> {
    if c == [] then [] else [if c[0].key == k then Entry(k, Bits(v)) else c[0]] + Overwrite(c[1..], k, v)
  }

  function OverwriteAll(es: seq<seq<Entry>>, k: RuleKey, v: AV): seq<seq<Entry>> {
    if es == [] then [] else [Overwrite(es[0], k, v)] + OverwriteAll(es[1..], k, v)
  }

  lemma {:induction false} OverwriteAt(c: seq<Entry>, k: RuleKey, v: AV, j: nat)
    requires j < |c|
    ensures |Overwrite(c, k, v)| == |c|
    ensures Overwrite(c, k, v)[j] == if c[j].key == k then Entry(k, Bits(v)) else c[j]
  {
    if j > 0 {
      OverwriteAt(c[1..], k, v, j - 1);
    } else if |c| > 1 {
      OverwriteAt(c[1..], k, v, 0);
    }
  }

  lemma {:induction false} OverwriteAllAt(es: seq<seq<Entry>>, k: RuleKey, v: AV, i: nat)
    requires i < |es|
    ensures |OverwriteAll(es, k, v)| == |es| && OverwriteAll(es, k, v)[i] == Overwrite(es[i], k, v)
  {
    if i > 0 {
      OverwriteAllAt(es[1..], k, v, i - 1);
    } else if |es| > 1 {
      OverwriteAllAt(es[1..], k, v, 0);
    }
  }

  lemma {:induction false} OverwriteTwice(c: seq<Entry>, k: RuleKey, v: AV, w: AV)
    ensures Overwrite(Overwrite(c, k, v), k, w) == Overwrite(c, k, w)
  {
    if c != [] { OverwriteTwice(c[1..], k, v, w); }
  }

  lemma {:induction false} OverwriteAllTwice(es: seq<seq<Entry>>, k: RuleKey, v: AV, w: AV)
    ensures OverwriteAll(OverwriteAll(es, k, v), k, w) == OverwriteAll(es, k, w)
  {
    if es != [] {
      OverwriteTwice(es[0], k, v, w);
      OverwriteAllTwice(es[1..], k, v, w);
    }
  }

  /** A store at the one node of a key overwrites that key, in the whole table. */
  lemma StoreIsOverwrite(hash: (nat, nat, nat) -> nat, es: seq<seq<Entry>>, i: nat, p: nat, v: AV)
    requires TableOk(hash, es) && i < |es| && p < |es[i]| && es[i][p].key.kind.IsAv()
    ensures es[i := es[i][p := Entry(es[i][p].key, Bits(v))]] == OverwriteAll(es, es[i][p].key, v)
  {
    var k := es[i][p].key;
    var after := es[i := es[i][p := Entry(k, Bits(v))]];
    forall a | 0 <= a < |es|
      ensures |OverwriteAll(es, k, v)| == |es| && after[a] == OverwriteAll(es, k, v)[a]
    {
      OverwriteAllAt(es, k, v, a);
      OneChainOverwritten(hash, es, i, p, v, a);
    }
    OverwriteAllAt(es, k, v, 0);
  }

  lemma OneChainOverwritten(hash: (nat, nat, nat) -> nat, es: seq<seq<Entry>>, i: nat, p: nat, v: AV, a: nat)
    requires TableOk(hash, es) && i < |es| && p < |es[i]| && es[i][p].key.kind.IsAv() && a < |es|
    ensures es[i := es[i][p := Entry(es[i][p].key, Bits(v))]][a] == Overwrite(es[a], es[i][p].key, v)
  {
    var k := es[i][p].key;
    var c := es[i := es[i][p := Entry(k, Bits(v))]][a];
    assert ChainOk(hash, |es|, i, es[i]) && ChainOk(hash, |es|, a, es[a]);
    if es[a] != [] { OverwriteAt(es[a], k, v, 0); }
    forall j | 0 <= j < |c|
      ensures c[j] == Overwrite(es[a], k, v)[j]
    {
      OverwriteAt(es[a], k, v, j);
    }
  }

  /** Overwriting a key with the bits it has changes nothing. */
  lemma OverwriteSame(hash: (nat, nat, nat) -> nat, es: seq<seq<Entry>>, m: map<RuleKey, AV>, k: RuleKey)
    requires Refines(hash, es, m) && k in m
    ensures OverwriteAll(es, k, m[k]) == es
  {
    var i := SlotOf(hash, |es|, k);
    FindIsIndex(es[i], k);
    var p :| 0 <= p < |es[i]| && es[i][p] == Entry(k, Bits(m[k]));
    StoreIsOverwrite(hash, es, i, p, m[k]);
    assert es[i][p := Entry(k, Bits(m[k]))] == es[i] && es[i := es[i]] == es;
  }

  // ----- wildcards -----

  /** `strip_av(effect, invert)` */
  predicate StripAv(effect: Kind, invert: bool) {
    effect.AuditDeny? == !invert
  }

  /** The types a missing type argument stands for: all of them, or only the attributes. */
  predicate InWildcard(t: TypeDatum, effect: Kind, invert: bool) {
    StripAv(effect, invert) || t.attribute
  }

  /** The key halves (type values cut to 16 bits) that a type argument stands for. */
  function TypeKeys(types: seq<TypeEntry>, t: Option<TypeDatum>, effect: Kind, invert: bool): set<nat> {
    if t.Some? then {U16(t.value.value)} else Wildcard(types, effect, invert)
  }

  function Wildcard(types: seq<TypeEntry>, effect: Kind, invert: bool): set<nat> {
    set e | e in types && InWildcard(e.datum, effect, invert) :: U16(e.datum.value)
  }

  function ClassKeys(classOrder: seq<nat>, c: Option<nat>): set<nat> {
    if c.Some? then {U16(c.value)} else set v | v in classOrder :: U16(v)
  }

  function Keys(S: set<nat>, T: set<nat>, C: set<nat>, effect: Kind): set<RuleKey> {
    set s, t, c | s in S && t in T && c in C :: RuleKey(s, t, c, effect)
  }

  /** All the keys that `add_rule_raw` edits. */
  function TargetKeys(types: seq<TypeEntry>, classOrder: seq<nat>, src: Option<TypeDatum>, tgt: Option<TypeDatum>,
                      cls: Option<nat>, effect: Kind, invert: bool): set<RuleKey>
  {
    Keys(TypeKeys(types, src, effect, invert), TypeKeys(types, tgt, effect, invert), ClassKeys(classOrder, cls), effect)
  }

  lemma WildcardNext(types: seq<TypeEntry>, i: nat, effect: Kind, invert: bool)
    requires i < |types|
    ensures InWildcard(types[i].datum, effect, invert) ==>
              Wildcard(types[..i + 1], effect, invert) == Wildcard(types[..i], effect, invert) + {U16(types[i].datum.value)}
    ensures !InWildcard(types[i].datum, effect, invert) ==>
              Wildcard(types[..i + 1], effect, invert) == Wildcard(types[..i], effect, invert)
  {
    assert types[..i + 1] == types[..i] + [types[i]];
  }

  lemma ClassKeysNext(order: seq<nat>, i: nat)
    requires i < |order|
    ensures ClassKeys(order[..i + 1], None) == ClassKeys(order[..i], None) + {U16(order[i])}
  {
    assert order[..i + 1] == order[..i] + [order[i]];
  }

  lemma KeysAdd(S: set<nat>, T: set<nat>, C: set<nat>, x: nat, effect: Kind)
    ensures Keys(S + {x}, T, C, effect) == Keys(S, T, C, effect) + Keys({x}, T, C, effect)
    ensures Keys(S, T + {x}, C, effect) == Keys(S, T, C, effect) + Keys(S, {x}, C, effect)
    ensures Keys(S, T, C + {x}, effect) == Keys(S, T, C, effect) + Keys(S, T, {x}, effect)
    ensures Keys({}, T, C, effect) == Keys(S, {}, C, effect) == Keys(S, T, {}, effect) == {}
  {
  }

  lemma OneKey(s: nat, t: nat, c: nat, effect: Kind)
    ensures Keys({s}, {t}, {c}, effect) == {RuleKey(s, t, c, effect)}
  {
  }

  /** What an edit is judged by: the rules chain by chain, their number, the map, and the serialized length. */
  datatype Snapshot = Snapshot(entries: seq<seq<Entry>>, nel: nat, contents: map<RuleKey, AV>, len: nat)

  ghost function SnapshotOf(t: Table, len: nat): Snapshot
    requires Chained(t.mem, t.htable, t.chains)
  {
    Snapshot(Entries(t), t.nel, t.contents, len)
  }

  /** What every edit of keys in S keeps: the other rules, and one node and one entry of length per stored rule. */
  ghost predicate Touched(a: Snapshot, b: Snapshot, S: set<RuleKey>) {
    && KeepAll(a.entries, S) == KeepAll(b.entries, S)
    && b.nel - a.nel == |b.contents| - |a.contents|
    && (a.len >= ENTRY_SIZE * a.nel ==> b.len - a.len == ENTRY_SIZE * (b.nel - a.nel))
  }

  /** Everything an edit of the key set S does. */
  ghost predicate Edited(a: Snapshot, b: Snapshot, S: set<RuleKey>, perm: Option<Bit>, invert: bool) {
    Touched(a, b, S) && b.contents == EditAll(a.contents, S, perm, invert)
  }

  lemma EditedNone(a: Snapshot, perm: Option<Bit>, invert: bool)
    ensures Edited(a, a, {}, perm, invert)
  {
    EditNone(a.contents, perm, invert);
  }

  lemma TouchedTrans(a: Snapshot, b: Snapshot, c: Snapshot, S: set<RuleKey>, T: set<RuleKey>)
    requires Touched(a, b, S) && Touched(b, c, T)
    ensures Touched(a, c, S + T)
  {
    KeepAllMore(a.entries, S, T);
    KeepAllMore(b.entries, S, T);
    KeepAllMore(b.entries, T, S);
    KeepAllMore(c.entries, T, S);
    assert S + T == T + S;
  }

  lemma EditedTrans(a: Snapshot, b: Snapshot, c: Snapshot, S: set<RuleKey>, T: set<RuleKey>, perm: Option<Bit>, invert: bool)
    requires Edited(a, b, S, perm, invert) && Edited(b, c, T, perm, invert)
    ensures Edited(a, c, S + T, perm, invert)
  {
    EditAllAdds(a.contents, S, T, perm, invert);
    TouchedTrans(a, b, c, S, T);
  }

  // ----- the wildcard loops, turn by turn -----

  /** The arguments of one `add_rule_raw`, and the hash tables its wildcards range over. */
  datatype Request = Request(types: seq<TypeEntry>, classOrder: seq<nat>, src: Option<TypeDatum>, tgt: Option<TypeDatum>,
                             cls: Option<nat>, perm: Option<Bit>, effect: Kind, invert: bool)
  {
    function Targets(): set<RuleKey> {
      TargetKeys(types, classOrder, src, tgt, cls, effect, invert)
    }

    /** The turns of the loop over the missing argument. */
    function Turns(): nat {
      if src.None? || tgt.None? then |types| else |classOrder|
    }

    /** The keys reached after i turns of that loop. */
    function After(i: nat): set<RuleKey>
      requires i <= Turns()
    {
      var S := if src.None? then Wildcard(types[..i], effect, invert) else TypeKeys(types, src, effect, invert);
      var T := if src.Some? && tgt.None? then Wildcard(types[..i], effect, invert) else TypeKeys(types, tgt, effect, invert);
      var C := if src.Some? && tgt.Some? && cls.None? then ClassKeys(classOrder[..i], None) else ClassKeys(classOrder, cls);
      Keys(S, T, C, effect)
    }
  }

  /** The request one turn of a loop makes. */
  function Turn(q: Request, i: nat): Request
    requires q.src.None? || q.tgt.None? || q.cls.None?
    requires i < q.Turns()
  {
    if q.src.None? then q.(src := Some(q.types[i].datum))
    else if q.tgt.None? then q.(tgt := Some(q.types[i].datum))
    else q.(cls := Some(q.classOrder[i]))
  }

  predicate TurnTaken(q: Request, i: nat)
    requires i < q.Turns()
  {
    (q.src.None? || q.tgt.None?) ==> InWildcard(q.types[i].datum, q.effect, q.invert)
  }

  lemma LoopStarts(q: Request, a: Snapshot)
    requires q.src.None? || q.tgt.None? || q.cls.None?
    ensures Edited(a, a, q.After(0), q.perm, q.invert)
  {
    EditedNone(a, q.perm, q.invert);
    assert Wildcard(q.types[..0], q.effect, q.invert) == {} && ClassKeys(q.classOrder[..0], None) == {};
    assert q.After(0) == {};
  }

  lemma LoopTurns(q: Request, a: Snapshot, b: Snapshot, c: Snapshot, i: nat)
    requires q.src.None? || q.tgt.None? || q.cls.None?
    requires i < q.Turns()
    requires Edited(a, b, q.After(i), q.perm, q.invert)
    requires if TurnTaken(q, i) then Edited(b, c, Turn(q, i).Targets(), q.perm, q.invert) else b == c
    ensures Edited(a, c, q.After(i + 1), q.perm, q.invert)
  {
    AfterNext(q, i);
    if TurnTaken(q, i) {
      EditedTrans(a, b, c, q.After(i), Turn(q, i).Targets(), q.perm, q.invert);
    }
  }

  lemma AfterNext(q: Request, i: nat)
    requires q.src.None? || q.tgt.None? || q.cls.None?
    requires i < q.Turns()
    ensures q.After(i + 1) == if TurnTaken(q, i) then q.After(i) + Turn(q, i).Targets() else q.After(i)
  {
    var S, T, C := TypeKeys(q.types, q.src, q.effect, q.invert), TypeKeys(q.types, q.tgt, q.effect, q.invert), ClassKeys(q.classOrder, q.cls);
    if q.src.None? {
      WildcardNext(q.types, i, q.effect, q.invert);
      KeysAdd(Wildcard(q.types[..i], q.effect, q.invert), T, C, U16(q.types[i].datum.value), q.effect);
    } else if q.tgt.None? {
      WildcardNext(q.types, i, q.effect, q.invert);
      KeysAdd(S, Wildcard(q.types[..i], q.effect, q.invert), C, U16(q.types[i].datum.value), q.effect);
    } else {
      ClassKeysNext(q.classOrder, i);
      KeysAdd(S, T, ClassKeys(q.classOrder[..i], None), U16(q.classOrder[i]), q.effect);
    }
  }

  lemma LoopEnds(q: Request)
    requires q.src.None? || q.tgt.None? || q.cls.None?
    ensures q.After(q.Turns()) == q.Targets()
  {
    assert q.types[..|q.types|] == q.types && q.classOrder[..|q.classOrder|] == q.classOrder;
  }

  /** n is the node of access-vector key k, with bits v, at place `at` of its chain. */
  ghost predicate NodeOf(hash: (nat, nat, nat) -> nat, t: Table, k: RuleKey, v: AV, n: Ptr, at: nat) {
    && |t.htable| > 0 && n != 0 && n in t.mem && t.mem[n].key == k && t.mem[n].datum == Bits(v)
    && SlotOf(hash, |t.htable|, k) < |t.chains|
    && at < |t.chains[SlotOf(hash, |t.htable|, k)]| && t.chains[SlotOf(hash, |t.htable|, k)][at] == n
  }

  lemma InsertTouches(hash: (nat, nat, nat) -> nat, t: Table, at: nat, n: Ptr, k: RuleKey, v: AV, len: nat)
    requires TableValid(hash, t) && at <= |t.chains[SlotOf(hash, |t.htable|, k)]|
    requires n !in t.mem && n != 0 && k.kind.IsAv() && k !in t.contents && v == DefaultAv(k.kind)
    ensures var t' := WithNode(hash, t, at, n, k, Bits(v));
            TableValid(hash, t') && NodeOf(hash, t', k, v, n, at) &&
            NodeEnsured(SnapshotOf(t, len), SnapshotOf(t', len + ENTRY_SIZE), k)
  {
    InsertedNode(hash, t, at, n, k, v);
    InsertEnsures(hash, t, at, n, k, v, len);
  }

  lemma InsertedNode(hash: (nat, nat, nat) -> nat, t: Table, at: nat, n: Ptr, k: RuleKey, v: AV)
    requires TableValid(hash, t) && at <= |t.chains[SlotOf(hash, |t.htable|, k)]|
    requires n !in t.mem && n != 0 && k.kind.IsAv() && k !in t.contents
    ensures var t' := WithNode(hash, t, at, n, k, Bits(v)); TableValid(hash, t') && NodeOf(hash, t', k, v, n, at)
  {
    WithNodeValid(hash, t, at, n, k, Bits(v));
    PasteAt(t.chains[SlotOf(hash, |t.htable|, k)], at, n, at);
  }

  lemma InsertEnsures(hash: (nat, nat, nat) -> nat, t: Table, at: nat, n: Ptr, k: RuleKey, v: AV, len: nat)
    requires TableValid(hash, t) && at <= |t.chains[SlotOf(hash, |t.htable|, k)]|
    requires n !in t.mem && n != 0 && k.kind.IsAv() && k !in t.contents && v == DefaultAv(k.kind)
    ensures var t' := WithNode(hash, t, at, n, k, Bits(v));
            TableValid(hash, t') && NodeEnsured(SnapshotOf(t, len), SnapshotOf(t', len + ENTRY_SIZE), k)
  {
    InsertKeepsOthers(hash, t, at, n, k, v);
    GrownSnapshot(SnapshotOf(t, len), SnapshotOf(WithNode(hash, t, at, n, k, Bits(v)), len + ENTRY_SIZE), k);
  }

  lemma GrownSnapshot(a: Snapshot, b: Snapshot, k: RuleKey)
    requires KeepAll(b.entries, {k}) == KeepAll(a.entries, {k}) && k !in a.contents
    requires b.nel == a.nel + 1 && b.len == a.len + ENTRY_SIZE && b.contents == a.contents[k := ValueAt(a.contents, k)]
    ensures NodeEnsured(a, b, k)
  {
  }

  lemma InsertKeepsOthers(hash: (nat, nat, nat) -> nat, t: Table, at: nat, n: Ptr, k: RuleKey, v: AV)
    requires TableValid(hash, t) && at <= |t.chains[SlotOf(hash, |t.htable|, k)]|
    requires n !in t.mem && n != 0 && k.kind.IsAv() && k !in t.contents
    ensures var t' := WithNode(hash, t, at, n, k, Bits(v));
            TableValid(hash, t') && KeepAll(Entries(t'), {k}) == KeepAll(Entries(t), {k})
  {
    WithNodeValid(hash, t, at, n, k, Bits(v));
    var i := SlotOf(hash, |t.htable|, k);
    KeepPaste(Entries(t)[i], at, Entry(k, Bits(v)), {k});
    KeepAllUpdate(Entries(t), i, Paste(Entries(t)[i], at, Entry(k, Bits(v))), {k});
  }

  lemma StoreTouches(hash: (nat, nat, nat) -> nat, t: Table, k: RuleKey, w: AV, n: Ptr, at: nat, v: AV, len: nat)
    requires TableValid(hash, t) && NodeOf(hash, t, k, w, n, at) && k.kind.IsAv()
    ensures var t' := WithBits(hash, t, SlotOf(hash, |t.htable|, k), at, v);
            && TableValid(hash, t') && NodeOf(hash, t', k, v, n, at)
            && NodeStored(SnapshotOf(t, len), SnapshotOf(t', len), k, v)
  {
    var i := SlotOf(hash, |t.htable|, k);
    StoreIsOverwrite(hash, Entries(t), i, at, v);
    WithBitsValid(hash, t, i, at, v);
    FindFound(hash, |t.htable|, i, Entries(t)[i], at);
    KeepStore(Entries(t)[i], at, Bits(v), {k});
    KeepAllUpdate(Entries(t), i, Entries(t)[i][at := Entry(k, Bits(v))], {k});
  }

  lemma RemoveTouches(hash: (nat, nat, nat) -> nat, t: Table, k: RuleKey, n: Ptr, i: nat, at: nat, len: nat)
    requires TableValid(hash, t) && n in t.mem && t.mem[n].key == k && k.kind.IsAv()
    requires i < |t.chains| && at < |t.chains[i]| && t.chains[i][at] == n
    ensures var t' := WithoutNode(hash, t, i, at);
            && TableValid(hash, t')
            && NodeRemoved(SnapshotOf(t, len), SnapshotOf(t', if len >= ENTRY_SIZE then len - ENTRY_SIZE else len), k)
  {
    RemoveKeepsOthers(hash, t, k, n, i, at);
    RemovedFields(hash, t, k, n, i, at);
    ShrunkTable(t, WithoutNode(hash, t, i, at), k, len);
  }

  lemma ShrunkTable(t: Table, t': Table, k: RuleKey, len: nat)
    requires Chained(t.mem, t.htable, t.chains) && Chained(t'.mem, t'.htable, t'.chains)
    requires KeepAll(Entries(t'), {k}) == KeepAll(Entries(t), {k}) && k in t.contents
    requires t'.nel == t.nel - 1 && t'.contents == t.contents - {k}
    ensures NodeRemoved(SnapshotOf(t, len), SnapshotOf(t', if len >= ENTRY_SIZE then len - ENTRY_SIZE else len), k)
  {
    ShrunkSnapshot(SnapshotOf(t, len), SnapshotOf(t', if len >= ENTRY_SIZE then len - ENTRY_SIZE else len), k);
  }

  lemma RemovedFields(hash: (nat, nat, nat) -> nat, t: Table, k: RuleKey, n: Ptr, i: nat, at: nat)
    requires TableValid(hash, t) && n in t.mem && t.mem[n].key == k
    requires i < |t.chains| && at < |t.chains[i]| && t.chains[i][at] == n && t.nel > 0
    ensures var t' := WithoutNode(hash, t, i, at); t'.nel == t.nel - 1 && t'.contents == t.contents - {k}
  {
  }

  lemma RemoveKeepsOthers(hash: (nat, nat, nat) -> nat, t: Table, k: RuleKey, n: Ptr, i: nat, at: nat)
    requires TableValid(hash, t) && n in t.mem && t.mem[n].key == k && k.kind.IsAv()
    requires i < |t.chains| && at < |t.chains[i]| && t.chains[i][at] == n
    ensures k in t.contents && t.nel > 0
    ensures var t' := WithoutNode(hash, t, i, at);
            TableValid(hash, t') && KeepAll(Entries(t'), {k}) == KeepAll(Entries(t), {k})
  {
    WithoutNodeValid(hash, t, i, at);
    FindFound(hash, |t.htable|, i, Entries(t)[i], at);
    KeepCut(Entries(t)[i], at, {k});
    KeepAllUpdate(Entries(t), i, Cut(Entries(t)[i], at), {k});
    TotalUpdate(Entries(t), i, []);
  }

  lemma ShrunkSnapshot(a: Snapshot, b: Snapshot, k: RuleKey)
    requires KeepAll(b.entries, {k}) == KeepAll(a.entries, {k}) && k in a.contents
    requires b.nel == a.nel - 1 && b.contents == a.contents - {k}
    requires b.len == if a.len >= ENTRY_SIZE then a.len - ENTRY_SIZE else a.len
    ensures NodeRemoved(a, b, k)
  {
  }

  /** Insert if missing, overwrite, remove if redundant: together a Put of the new bits. */
  lemma StepsAreEdit(m: map<RuleKey, AV>, m1: map<RuleKey, AV>, m2: map<RuleKey, AV>, k: RuleKey,
                     perm: Option<Bit>, invert: bool)
    requires m1 == m || m1 == m[k := ValueAt(m, k)]
    requires m2 == AfterNodeEdit(m1, k, NewBits(ValueAt(m, k), perm, invert))
    ensures m2 == EditAll(m, {k}, perm, invert)
  {
    EditOne(m, k, perm, invert);
  }

  /** The map after a node was overwritten and, if redundant, removed. */
  function AfterNodeEdit(m: map<RuleKey, AV>, k: RuleKey, v: AV): map<RuleKey, AV> {
    if v == DefaultAv(k.kind) then m - {k} else m[k := v]
  }

  lemma OverwriteThenRemove(m: map<RuleKey, AV>, k: RuleKey, v: AV)
    ensures m[k := v] - {k} == m - {k}
  {
  }

  /** Removing a permission from a rule that does not exist is no edit. */
  lemma EditAbsent(m: map<RuleKey, AV>, k: RuleKey, perm: Option<Bit>)
    requires k !in m && !k.kind.AuditDeny?
    ensures EditAll(m, {k}, perm, true) == m
  {
  }

  // ----- one edit, and undoing it -----

  /** Exactly what editing one rule does: the map, the chains, the node count and the serialized length. */
  ghost predicate RuleEdited(a: Snapshot, b: Snapshot, k: RuleKey, perm: Option<Bit>, invert: bool) {
    && Edited(a, b, {k}, perm, invert)
    && (k in a.contents && k in b.contents ==> b.entries == OverwriteAll(a.entries, k, b.contents[k]))
    && b.len == LengthAfter(a.len, k in a.contents, k in b.contents)
  }

  /** The node of k got the bits v. */
  ghost predicate NodeStored(a: Snapshot, b: Snapshot, k: RuleKey, v: AV) {
    && Touched(a, b, {k}) && k in a.contents && b.contents == a.contents[k := v]
    && b.entries == OverwriteAll(a.entries, k, v) && b.len == a.len
  }

  /** The node of k was unlinked. */
  ghost predicate NodeRemoved(a: Snapshot, b: Snapshot, k: RuleKey) {
    && Touched(a, b, {k}) && k in a.contents && b.contents == a.contents - {k}
    && b.len == LengthAfter(a.len, true, false)
  }

  /** A node for k was linked in unless there was one. */
  ghost predicate NodeEnsured(a: Snapshot, b: Snapshot, k: RuleKey) {
    && Touched(a, b, {k})
    && (if k in a.contents then b == a
        else b.contents == a.contents[k := ValueAt(a.contents, k)] && b.len == a.len + ENTRY_SIZE)
  }

  /** The node of k got the bits v, and was unlinked if they are its default. */
  ghost predicate NodeEdited(a: Snapshot, b: Snapshot, k: RuleKey, v: AV) {
    && Touched(a, b, {k}) && k in a.contents && b.contents == AfterNodeEdit(a.contents, k, v)
    && b.len == LengthAfter(a.len, true, k in b.contents)
    && (k in b.contents ==> b.entries == OverwriteAll(a.entries, k, v))
  }

  lemma StoredThenRemoved(a: Snapshot, s: Snapshot, b: Snapshot, k: RuleKey, v: AV)
    requires NodeStored(a, s, k, v)
    requires if v == DefaultAv(k.kind) then NodeRemoved(s, b, k) else b == s
    ensures NodeEdited(a, b, k, v)
  {
    if v == DefaultAv(k.kind) {
      TouchedTrans(a, s, b, {k}, {k});
      assert {k} + {k} == {k};
      OverwriteThenRemove(a.contents, k, v);
    }
  }

  lemma EnsuredThenEdited(a: Snapshot, s: Snapshot, b: Snapshot, k: RuleKey, perm: Option<Bit>, invert: bool)
    requires NodeEnsured(a, s, k) && NodeEdited(s, b, k, NewBits(ValueAt(a.contents, k), perm, invert))
    ensures RuleEdited(a, b, k, perm, invert)
  {
    TouchedTrans(a, s, b, {k}, {k});
    assert {k} + {k} == {k};
    StepsAreEdit(a.contents, s.contents, b.contents, k, perm, invert);
  }

  lemma AbsentIsEdited(a: Snapshot, k: RuleKey, perm: Option<Bit>)
    requires k !in a.contents && !k.kind.AuditDeny?
    ensures RuleEdited(a, a, k, perm, true)
  {
    EditAbsent(a.contents, k, perm);
  }

  /** One entry more, one entry less (if the length has that much), or the same. */
  function LengthAfter(len: nat, before: bool, after: bool): nat {
    if !before && after then len + ENTRY_SIZE
    else if before && !after && len >= ENTRY_SIZE then len - ENTRY_SIZE
    else len
  }

  lemma {:induction false} KeepAbsent(c: seq<Entry>, k: RuleKey)
    requires forall j :: 0 <= j < |c| ==> c[j].key != k
    ensures Keep(c, {k}) == c
  {
    if c != [] { KeepAbsent(c[1..], k); }
  }

  /** Without a node for k, the rules outside k are all the rules. */
  lemma KeepAllAbsent(hash: (nat, nat, nat) -> nat, es: seq<seq<Entry>>, m: map<RuleKey, AV>, k: RuleKey)
    requires Refines(hash, es, m) && k !in m && k.kind.IsAv()
    ensures KeepAll(es, {k}) == es
  {
    KeepAllAt(es, 0, {k});
    forall i | 0 <= i < |es|
      ensures KeepAll(es, {k})[i] == es[i]
    {
      KeepAllAt(es, i, {k});
      FindIsIndex(es[i], k);
      assert ChainOk(hash, |es|, i, es[i]);
      KeepAbsent(es[i], k);
    }
  }

  lemma AllowThenDenyOfMap(m: map<RuleKey, AV>, k: RuleKey, p: Bit)
    requires k.kind.Allowed? && p !in ValueAt(m, k)
    ensures k in EditAll(m, {k}, Some(p), false)
    ensures EditAll(EditAll(m, {k}, Some(p), false), {k}, Some(p), true) == if EmptyRule(m, k) then m - {k} else m
  {
    var v := ValueAt(m, k);
    EditOne(m, k, Some(p), false);
    var m1 := EditAll(m, {k}, Some(p), false);
    assert p in v + {p} && m1 == m[k := v + {p}];
    EditOne(m1, k, Some(p), true);
    assert v + {p} - {p} == v;
  }

  /** A rule that is stored although it allows nothing. */
  predicate EmptyRule(m: map<RuleKey, AV>, k: RuleKey) {
    k in m && m[k] == {}
  }

  /**
   Allow, then deny, of a permission the rule did not have: chains, count, map and length are back if and only if the
   rule was not stored empty; such a rule is unlinked by the deny.
   */
  lemma AllowThenDenyRestores(hash: (nat, nat, nat) -> nat, a: Snapshot, b: Snapshot, c: Snapshot, k: RuleKey, p: Bit)
    requires k.kind.Allowed? && p !in ValueAt(a.contents, k)
    requires Refines(hash, a.entries, a.contents) && Refines(hash, c.entries, c.contents)
    requires RuleEdited(a, b, k, Some(p), false) && RuleEdited(b, c, k, Some(p), true)
    ensures c == a <==> !EmptyRule(a.contents, k)
    ensures EmptyRule(a.contents, k) ==> c.contents == a.contents - {k}
  {
    AllowThenDenyOfMap(a.contents, k, p);
    if EmptyRule(a.contents, k) {
      assert k in a.contents && k !in c.contents;
    } else if k in a.contents {
      OverwriteAllTwice(a.entries, k, b.contents[k], c.contents[k]);
      OverwriteSame(hash, a.entries, a.contents, k);
    } else {
      TouchedTrans(a, b, c, {k}, {k});
      assert {k} + {k} == {k};
      KeepAllAbsent(hash, a.entries, a.contents, k);
      KeepAllAbsent(hash, c.entries, c.contents, k);
    }
  }

  /** A table of one bucket whose one rule is stored empty: allow and deny of bit 0 lose the rule. */
  lemma EmptyRuleIsLost(hash: (nat, nat, nat) -> nat)
    ensures var k := RuleKey(1, 1, 1, Kind.Allowed);
            var m: map<RuleKey, AV> := map[k := {}];
            && Refines(hash, [[Entry(k, Bits({}))]], m)
            && EditAll(EditAll(m, {k}, Some(0), false), {k}, Some(0), true) == map[] != m
  {
    var k := RuleKey(1, 1, 1, Kind.Allowed);
    var m: map<RuleKey, AV> := map[k := {}];
    var es := [[Entry(k, Bits({}))]];
    assert SlotOf(hash, 1, k) == 0;
    assert ChainOk(hash, 1, 0, es[0]);
    AllowThenDenyOfMap(m, k, 0);
    forall j: RuleKey | j.kind.IsAv()
      ensures Find(es[SlotOf(hash, 1, j)], j) == if j in m then Some(m[j]) else None
    {
      assert es[0][1..] == [] && Find([], j) == None;
    }
  }
}
