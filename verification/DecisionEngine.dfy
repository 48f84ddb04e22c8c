/**
 The access decision as the kernel computes it (kernel/non_gki/selinux_hide.c:1730-1925): loops over
 attribute pairs, rule chains and constraints that update an `av_decision` in place, and a mutual
 recursion along the type bounds. Proved against Policies.Decide.
 */
module DecisionEngine {
  import opened AccessVectors
  import opened Options
  import opened RuleTables
  import opened Constraints
  import opened Policies

  class AvDecision {
    var allowed: AV
    var auditallow: AV
    var auditdeny: AV

    constructor ()
      ensures allowed == {} && auditallow == {} && auditdeny == {}
    {
      allowed, auditallow, auditdeny := {}, {}, {};
    }

    ghost function Value(): CondAv
      reads this
    {
      CondAv(allowed, auditallow, auditdeny)
    }

    /** The loop body over the nodes of one key triple. */
    method Read(k: RuleKey, e: Entry)
      modifies this
      ensures Value() == ReadRule(old(Value()), k, e)
    {
      if e.datum.Bits? && Matches(e.key, k, AV_OR_XPERMS) {
        match e.key.kind
        case Allowed => allowed := allowed + e.datum.av;
        case AuditAllow => auditallow := auditallow + e.datum.av;
        case AuditDeny => auditdeny := auditdeny * e.datum.av;
        case _ => // extended permissions: no caller asks for them
      }
    }
  }

  const AV_OR_XPERMS: set<Kind> :=
    {Kind.Allowed, AuditAllow, AuditDeny, XpermsAllowed, XpermsAuditAllow, XpermsDontAudit}

  /** What the rules read so far of one chain say about a key. */
  function Seen(c: seq<Entry>, k: RuleKey): AV {
    var f := Find(c, k);
    if f.Some? then f.value else DefaultAv(k.kind)
  }

  /** Reading one more rule of a chain with unique keys. */
  lemma SeenNext(hash: (nat, nat, nat) -> nat, n: nat, i: nat, c: seq<Entry>, j: nat, k: RuleKey)
    requires n > 0 && ChainOk(hash, n, i, c) && j < |c| && k.kind.IsAv()
    ensures c[j].key == k ==> c[j].datum.Bits? && Seen(c[..j], k) == DefaultAv(k.kind)
    ensures Seen(c[..j + 1], k) == if c[j].key == k then c[j].datum.av else Seen(c[..j], k)
  {
    FindIsIndex(c[..j], k);
    FindIsIndex(c[..j + 1], k);
    assert c[..j + 1][j] == c[j];
    if c[j].key != k {
      assert c[..j] == Cut(c[..j + 1], j);
      FindCut(c[..j + 1], j, k);
    }
  }

  function Of(k: RuleKey, kind: Kind): RuleKey {
    k.(kind := kind)
  }

  /** The effect of one rule on a decision, when it belongs to the key's triple. */
  function ReadRule(acc: CondAv, k: RuleKey, e: Entry): CondAv {
    if !e.datum.Bits? || !Matches(e.key, k, AV_OR_XPERMS) then acc
    else match e.key.kind
      case Allowed => acc.(allowed := acc.allowed + e.datum.av)
      case AuditAllow => acc.(auditallow := acc.auditallow + e.datum.av)
      case AuditDeny => acc.(auditdeny := acc.auditdeny * e.datum.av)
      case _ => acc
  }

  function ReadRules(acc: CondAv, k: RuleKey, c: seq<Entry>): CondAv {
    if c == [] then acc else ReadRule(ReadRules(acc, k, c[..|c| - 1]), k, c[|c| - 1])
  }

  /** Rules that do not match the triple are irrelevant to it. */
  lemma {:induction false} ReadSkips(acc: CondAv, k: RuleKey, c: seq<Entry>, from: nat, upto: nat)
    requires from <= upto <= |c| && forall j :: from <= j < upto ==> !Matches(c[j].key, k, AV_OR_XPERMS)
    ensures ReadRules(acc, k, c[..upto]) == ReadRules(acc, k, c[..from])
    decreases upto
  {
    if from < upto {
      ReadSkips(acc, k, c, from, upto - 1);
      assert c[..upto][..upto - 1] == c[..upto - 1];
    }
  }

  /** Reading a chain adds, for each kind, what the chain holds for that key. */
  lemma {:induction false} ReadsWhatIsSeen(hash: (nat, nat, nat) -> nat, n: nat, i: nat, c: seq<Entry>, acc: CondAv, k: RuleKey, m: nat)
    requires n > 0 && ChainOk(hash, n, i, c) && m <= |c|
    ensures ReadRules(acc, k, c[..m]) == CondAv(acc.allowed + Seen(c[..m], Of(k, Kind.Allowed)),
                                               acc.auditallow + Seen(c[..m], Of(k, AuditAllow)),
                                               acc.auditdeny * Seen(c[..m], Of(k, AuditDeny)))
    decreases m
  {
    if m > 0 {
      ReadsWhatIsSeen(hash, n, i, c, acc, k, m - 1);
      assert c[..m][..m - 1] == c[..m - 1];
      SeenNext(hash, n, i, c, m - 1, Of(k, Kind.Allowed));
      SeenNext(hash, n, i, c, m - 1, Of(k, AuditAllow));
      SeenNext(hash, n, i, c, m - 1, Of(k, AuditDeny));
      AllOnesIsTop(acc.auditdeny);
    }
  }

  /** Reading the whole chain of a triple adds what the map says of the triple. */
  lemma ReadsTheMap(hash: (nat, nat, nat) -> nat, t: Table, k: RuleKey, acc: CondAv)
    requires TableValid(hash, t)
    ensures ReadRules(acc, k, Entries(t)[SlotOf(hash, |t.htable|, k)]) ==
            CondAv(acc.allowed + ValueAt(t.contents, Of(k, Kind.Allowed)),
                   acc.auditallow + ValueAt(t.contents, Of(k, AuditAllow)),
                   acc.auditdeny * ValueAt(t.contents, Of(k, AuditDeny)))
  {
    var i := SlotOf(hash, |t.htable|, k);
    var es := Entries(t)[i];
    assert es[..|es|] == es;
    ReadsWhatIsSeen(hash, |t.htable|, i, es, acc, k, |es|);
  }

  /** The loop over the nodes of one key triple, in their chain. */
  method ScanChain(mem: Memory, head: Ptr, k: RuleKey, avd: AvDecision, ghost c: seq<Ptr>)
    requires Linked(mem, head, c) && forall p :: p in c ==> p in mem
    modifies avd
    ensures avd.Value() == ReadRules(old(avd.Value()), k, Stored(mem, c))
  {
    ghost var es, acc := Stored(mem, c), avd.Value();
    var node, at := SearchNode(mem, head, k, AV_OR_XPERMS, c);
    ReadSkips(acc, k, es, 0, at);
    while node != 0
      invariant if at < |c| then node == c[at] && node in c else node == 0 && at == |c|
      invariant avd.Value() == ReadRules(acc, k, es[..at])
      decreases |c| - at
    {
      avd.Read(k, Entry(mem[node].key, mem[node].datum));
      assert es[..at + 1][..at] == es[..at];
      ghost var from := at + 1;
      node, at := SearchNodeNext(mem, node, k, AV_OR_XPERMS, head, c, at);
      ReadSkips(acc, k, es, from, at);
    }
    assert es[..at] == es;
  }

  /** The part of the decision that the rules of one key triple contribute. */
  method ScanRules(table: RuleTable, k: RuleKey, avd: AvDecision)
    requires table.Valid()
    modifies avd
    ensures avd.Value() == CondAv(old(avd.allowed) + ValueAt(table.contents, Of(k, Kind.Allowed)),
                                  old(avd.auditallow) + ValueAt(table.contents, Of(k, AuditAllow)),
                                  old(avd.auditdeny) * ValueAt(table.contents, Of(k, AuditDeny)))
  {
    InMemory(table.mem, table.htable, table.chains);
    ReadsTheMap(table.hash, table.State(), k, avd.Value());
    ScanChain(table.mem, table.htable[table.Slot(k)], k, avd, table.chains[table.Slot(k)]);
  }

  // ----- the union over attribute pairs -----

  /** The permissions one pair of attribute bits contributes. */
  function PairAv(pol: Policy, i: nat, j: nat, c: nat): CondAv {
    var cond := CondOf(pol, i + 1, j + 1, c);
    CondAv(ValueAt(pol.rules, AvKey(i + 1, j + 1, c, Kind.Allowed)) + cond.allowed,
           ValueAt(pol.rules, AvKey(i + 1, j + 1, c, AuditAllow)) + cond.auditallow,
           ValueAt(pol.rules, AvKey(i + 1, j + 1, c, AuditDeny)) * cond.auditdeny)
  }

  /** What the pairs in done contribute: two unions and an intersection. */
  ghost function UnionAv(pol: Policy, c: nat, done: set<(nat, nat)>): CondAv {
    CondAv(set p: Bit | p < 32 && SomeAllows(pol, c, done, p),
           set p: Bit | p < 32 && SomeAuditAllows(pol, c, done, p),
           set p: Bit | p < 32 && AllAuditDeny(pol, c, done, p))
  }

  ghost predicate SomeAllows(pol: Policy, c: nat, done: set<(nat, nat)>, p: Bit) {
    exists q :: q in done && p in PairAv(pol, q.0, q.1, c).allowed
  }

  ghost predicate SomeAuditAllows(pol: Policy, c: nat, done: set<(nat, nat)>, p: Bit) {
    exists q :: q in done && p in PairAv(pol, q.0, q.1, c).auditallow
  }

  ghost predicate AllAuditDeny(pol: Policy, c: nat, done: set<(nat, nat)>, p: Bit) {
    forall q :: q in done ==> p in PairAv(pol, q.0, q.1, c).auditdeny
  }

  function Combine(v: CondAv, d: CondAv): CondAv {
    CondAv(v.allowed + d.allowed, v.auditallow + d.auditallow, v.auditdeny * d.auditdeny)
  }

  lemma UnionGrows(pol: Policy, c: nat, done: set<(nat, nat)>, q: (nat, nat))
    ensures UnionAv(pol, c, done + {q}) == Combine(UnionAv(pol, c, done), PairAv(pol, q.0, q.1, c))
  {
    var d := PairAv(pol, q.0, q.1, c);
    forall p: Bit
      ensures SomeAllows(pol, c, done + {q}, p) <==> (SomeAllows(pol, c, done, p) || p in d.allowed)
      ensures SomeAuditAllows(pol, c, done + {q}, p) <==> (SomeAuditAllows(pol, c, done, p) || p in d.auditallow)
      ensures AllAuditDeny(pol, c, done + {q}, p) <==> (AllAuditDeny(pol, c, done, p) && p in d.auditdeny)
    {
    }
  }

  lemma UnionOfNone(pol: Policy, c: nat)
    ensures UnionAv(pol, c, {}) == CondAv({}, {}, ALL_ONES)
  {
    forall p: Bit
      ensures !SomeAllows(pol, c, {}, p) && !SomeAuditAllows(pol, c, {}, p) && AllAuditDeny(pol, c, {}, p)
    {
    }
  }

  lemma PairIsRulesThenCond(pol: Policy, i: nat, j: nat, c: nat, v: CondAv)
    ensures var k, cond := AvKey(i + 1, j + 1, c, Kind.Allowed), CondOf(pol, i + 1, j + 1, c);
            Combine(v, PairAv(pol, i, j, c)) ==
            CondAv(v.allowed + ValueAt(pol.rules, Of(k, Kind.Allowed)) + cond.allowed,
                   v.auditallow + ValueAt(pol.rules, Of(k, AuditAllow)) + cond.auditallow,
                   v.auditdeny * ValueAt(pol.rules, Of(k, AuditDeny)) * cond.auditdeny)
  {
  }

  /** One pair of attributes: the unconditional rules, then the conditional table. */
  method ScanPair(pol: Policy, table: RuleTable, i: nat, j: nat, c: nat, avd: AvDecision)
    requires table.Valid() && table.contents == pol.rules
    modifies avd
    ensures avd.Value() == Combine(old(avd.Value()), PairAv(pol, i, j, c))
  {
    PairIsRulesThenCond(pol, i, j, c, avd.Value());
    ScanRules(table, AvKey(i + 1, j + 1, c, Kind.Allowed), avd);
    var cond := CondOf(pol, i + 1, j + 1, c);
    avd.allowed := avd.allowed + cond.allowed;
    avd.auditallow := avd.auditallow + cond.auditallow;
    avd.auditdeny := avd.auditdeny * cond.auditdeny;
  }

  ghost function Row(i: nat, tattr: set<nat>): set<(nat, nat)> {
    set j | j in tattr :: (i, j)
  }

  ghost function Grid(sattr: set<nat>, tattr: set<nat>): set<(nat, nat)> {
    set i, j | i in sattr && j in tattr :: (i, j)
  }

  lemma RowGrows(before: set<(nat, nat)>, i: nat, tattr: set<nat>, left: set<nat>, j: nat)
    requires j in left && left <= tattr
    ensures before + Row(i, tattr - (left - {j})) == before + Row(i, tattr - left) + {(i, j)}
  {
  }

  /** The inner loop over the target's attributes. */
  method ScanRow(pol: Policy, table: RuleTable, i: nat, tattr: set<nat>, c: nat, avd: AvDecision, ghost before: set<(nat, nat)>)
    requires table.Valid() && table.contents == pol.rules && avd.Value() == UnionAv(pol, c, before)
    modifies avd
    ensures avd.Value() == UnionAv(pol, c, before + Row(i, tattr))
  {
    var tnodes := tattr;
    assert before + Row(i, {}) == before;
    while tnodes != {}
      invariant tnodes <= tattr && avd.Value() == UnionAv(pol, c, before + Row(i, tattr - tnodes))
    {
      var j :| j in tnodes;
      UnionGrows(pol, c, before + Row(i, tattr - tnodes), (i, j));
      RowGrows(before, i, tattr, tnodes, j);
      ScanPair(pol, table, i, j, c, avd);
      tnodes := tnodes - {j};
    }
    assert tattr - {} == tattr;
  }

  /** The two nested loops over the positive bits of the attribute sets, in any order. */
  method ScanAttributes(pol: Policy, table: RuleTable, sattr: set<nat>, tattr: set<nat>, c: nat, avd: AvDecision)
    requires table.Valid() && table.contents == pol.rules && avd.Value() == UnionAv(pol, c, {})
    modifies avd
    ensures avd.Value() == UnionAv(pol, c, Grid(sattr, tattr))
  {
    var snodes := sattr;
    assert Grid({}, tattr) == {};
    while snodes != {}
      invariant snodes <= sattr && avd.Value() == UnionAv(pol, c, Grid(sattr - snodes, tattr))
    {
      var i :| i in snodes;
      ScanRow(pol, table, i, tattr, c, avd, Grid(sattr - snodes, tattr));
      assert Grid(sattr - (snodes - {i}), tattr) == Grid(sattr - snodes, tattr) + Row(i, tattr);
      snodes := snodes - {i};
    }
    assert sattr - {} == sattr;
  }

  // ----- the whole decision -----

  ghost predicate Denied(pol: Policy, s: Context, t: Context, cons: seq<Constraint>, p: Bit) {
    exists con :: con in cons && p in con.permissions && Violated(pol, s, t, con)
  }

  lemma DeniedNext(pol: Policy, s: Context, t: Context, cons: seq<Constraint>, k: nat, p: Bit)
    requires k < |cons|
    ensures Denied(pol, s, t, cons[..k + 1], p) <==>
            Denied(pol, s, t, cons[..k], p) || (p in cons[k].permissions && Violated(pol, s, t, cons[k]))
  {
    assert cons[..k + 1] == cons[..k] + [cons[k]];
  }

  /** Every constraint removes its permissions when it is violated. */
  method ApplyConstraints(pol: Policy, s: Context, t: Context, cons: seq<Constraint>, avd: AvDecision)
    modifies avd
    ensures forall p :: p in avd.allowed <==> p in old(avd.allowed) && !Denied(pol, s, t, cons, p)
    ensures avd.auditallow == old(avd.auditallow) && avd.auditdeny == old(avd.auditdeny)
  {
    for k := 0 to |cons|
      invariant forall p :: p in avd.allowed <==> p in old(avd.allowed) && !Denied(pol, s, t, cons[..k], p)
      invariant avd.auditallow == old(avd.auditallow) && avd.auditdeny == old(avd.auditdeny)
    {
      var con := cons[k];
      forall p: Bit { DeniedNext(pol, s, t, cons, k, p); }
      if con.permissions * avd.allowed != {} {
        var o := ConstraintExprEval(Env(pol.roleDominates, s, t, None), con.expr, CEXPR_MAXDEPTH);
        if !Holds(o) {
          avd.allowed := avd.allowed - con.permissions;
        }
      } else {
        assert forall p :: p in con.permissions && p in avd.allowed ==> p in con.permissions * avd.allowed;
      }
    }
    assert cons[..|cons|] == cons;
  }

  /** The search of the role-allow list. */
  method RoleChangeAllowed(pol: Policy, from: nat, new_role: nat) returns (found: bool)
    ensures found == ((from, new_role) in pol.roleAllow)
  {
    for k := 0 to |pol.roleAllow|
      invariant (from, new_role) !in pol.roleAllow[..k]
    {
      if pol.roleAllow[k] == (from, new_role) {
        return true;
      }
    }
    return false;
  }

  /** Everything but the bounds, as an access vector. */
  ghost function OwnAv(pol: Policy, s: Context, t: Context, c: nat): AV
    requires TypesOk(pol) && IsType(pol, s.typ) && IsType(pol, t.typ) && 1 <= c <= |pol.classes|
  {
    set p: Bit | p < 32 && Granted(pol, s, t, c, p)
  }

  /** Rules, constraints and role changes: all of the decision but the bounds. */
  method ComputeOwnAv(pol: Policy, table: RuleTable, s: Context, t: Context, c: nat, avd: AvDecision)
    requires TypesOk(pol) && IsType(pol, s.typ) && IsType(pol, t.typ) && 1 <= c <= |pol.classes|
    requires table.Valid() && table.contents == pol.rules
    requires avd.Value() == CondAv({}, {}, ALL_ONES)
    modifies avd
    ensures avd.Value() == UnionAv(pol, c, Pairs(pol, s.typ, t.typ)).(allowed := OwnAv(pol, s, t, c))
  {
    ScanTypes(pol, table, s.typ, t.typ, c, avd);
    ApplyDenials(pol, s, t, c, avd);
  }

  /** The rules of two types: the union over their attribute pairs. */
  method ScanTypes(pol: Policy, table: RuleTable, source: nat, target: nat, c: nat, avd: AvDecision)
    requires TypesOk(pol) && IsType(pol, source) && IsType(pol, target)
    requires table.Valid() && table.contents == pol.rules && avd.Value() == CondAv({}, {}, ALL_ONES)
    modifies avd
    ensures avd.Value() == UnionAv(pol, c, Pairs(pol, source, target))
  {
    UnionOfNone(pol, c);
    ScanAttributes(pol, table, pol.typeAttr[source - 1], pol.typeAttr[target - 1], c, avd);
  }

  /** What constraints and role changes take from the union over the rules. */
  method ApplyDenials(pol: Policy, s: Context, t: Context, c: nat, avd: AvDecision)
    requires TypesOk(pol) && IsType(pol, s.typ) && IsType(pol, t.typ) && 1 <= c <= |pol.classes|
    requires avd.allowed == UnionAv(pol, c, Pairs(pol, s.typ, t.typ)).allowed
    modifies avd
    ensures avd.Value() == old(avd.Value()).(allowed := OwnAv(pol, s, t, c))
  {
    ghost var ruled := avd.allowed;
    ApplyConstraints(pol, s, t, pol.classes[c - 1].constraints, avd);
    ApplyRoleChange(pol, s, t, c, avd);
    GrantedIsFiltered(pol, s, t, c, ruled, avd.allowed);
  }

  /** A role change that no role-allow rule permits costs the process-transition permissions. */
  method ApplyRoleChange(pol: Policy, s: Context, t: Context, c: nat, avd: AvDecision)
    modifies avd
    ensures forall p :: p in avd.allowed <==> p in old(avd.allowed) && !RoleDenies(pol, s, t, c, p)
    ensures avd.auditallow == old(avd.auditallow) && avd.auditdeny == old(avd.auditdeny)
  {
    assert forall p :: p in avd.allowed && p in pol.processTransPerms ==> p in avd.allowed * pol.processTransPerms;
    if c == pol.processClass && avd.allowed * pol.processTransPerms != {} && s.role != t.role {
      var ok := RoleChangeAllowed(pol, s.role, t.role);
      if !ok {
        avd.allowed := avd.allowed - pol.processTransPerms;
      }
    }
  }

  lemma GrantedIsFiltered(pol: Policy, s: Context, t: Context, c: nat, ruled: AV, allowed: AV)
    requires TypesOk(pol) && IsType(pol, s.typ) && IsType(pol, t.typ) && 1 <= c <= |pol.classes|
    requires ruled == UnionAv(pol, c, Pairs(pol, s.typ, t.typ)).allowed
    requires forall p :: p in allowed <==>
               p in ruled && !Denied(pol, s, t, pol.classes[c - 1].constraints, p) && !RoleDenies(pol, s, t, c, p)
    ensures allowed == OwnAv(pol, s, t, c)
  {
    forall p: Bit
      ensures p in allowed <==> Granted(pol, s, t, c, p)
    {
      UnionIsGranted(pol, s.typ, t.typ, c, p);
      assert Denied(pol, s, t, pol.classes[c - 1].constraints, p) == ConstraintDenies(pol, s, t, c, p);
    }
  }

  /** `context_struct_compute_av` without extended permissions. */
  method ContextStructComputeAv(pol: Policy, table: RuleTable, s: Context, t: Context, c: nat, avd: AvDecision)
    requires TypesOk(pol) && IsType(pol, s.typ) && IsType(pol, t.typ)
    requires table.Valid() && table.contents == pol.rules
    modifies avd
    ensures avd.allowed == Decide(pol, s, t, c)
    ensures 1 <= c <= |pol.classes| ==>
              avd.Value() == UnionAv(pol, c, Pairs(pol, s.typ, t.typ)).(allowed := avd.allowed)
    ensures !(1 <= c <= |pol.classes|) ==> avd.Value() == CondAv({}, {}, ALL_ONES)
    decreases Rank(pol, s.typ), 1
  {
    avd.allowed, avd.auditallow, avd.auditdeny := {}, {}, ALL_ONES;
    if c == 0 || c > |pol.classes| {
      return;
    }
    ComputeOwnAv(pol, table, s, t, c, avd);
    TypeAttributeBoundsAv(pol, table, s, t, c, avd);
  }

  /** `type_attribute_bounds_av`: mask what the bounding type may not do. */
  method TypeAttributeBoundsAv(pol: Policy, table: RuleTable, s: Context, t: Context, c: nat, avd: AvDecision)
    requires TypesOk(pol) && IsType(pol, s.typ) && IsType(pol, t.typ)
    requires table.Valid() && table.contents == pol.rules
    modifies avd
    ensures BoundOf(pol, s.typ) == 0 ==> avd.allowed == old(avd.allowed)
    ensures BoundOf(pol, s.typ) != 0 ==>
              IsType(pol, LowerSource(pol, s).typ) && IsType(pol, LowerTarget(pol, t).typ) &&
              avd.allowed == old(avd.allowed) * Decide(pol, LowerSource(pol, s), LowerTarget(pol, t), c)
    ensures avd.auditallow == old(avd.auditallow) && avd.auditdeny == old(avd.auditdeny)
    decreases Rank(pol, s.typ), 0
  {
    var source := pol.typeStruct[s.typ - 1];
    if source.bounds == 0 {
      return;
    }
    RankDecreases(pol, s.typ);
    var target := pol.typeStruct[t.typ - 1];
    var lo_avd := new AvDecision();
    var lo_scontext := s.(typ := source.bounds);
    var tcontextp := t;
    if target.bounds != 0 {
      tcontextp := t.(typ := target.bounds);
    }
    ContextStructComputeAv(pol, table, lo_scontext, tcontextp, c, lo_avd);
    var masked := (ALL_ONES - lo_avd.allowed) * avd.allowed;
    AllOnesIsTop(avd.allowed);
    forall p | p in avd.allowed
      ensures p in masked <==> p !in lo_avd.allowed
    {
    }
    if masked == {} {
      return;
    }
    avd.allowed := avd.allowed - masked;
  }

  /** The audit vectors of a user's query: the rules' unions, or nothing audited but denials. */
  ghost function UserAudit(pol: Policy, sids: map<nat, Context>, ssid: nat, tsid: nat, tclass: nat): (AV, AV)
    requires TypesOk(pol) && SidsOk(pol, sids)
  {
    if ssid in sids && tsid in sids && 1 <= tclass <= |pol.classes| then
      var union := UnionAv(pol, tclass, Pairs(pol, sids[ssid].typ, sids[tsid].typ));
      (union.auditallow, union.auditdeny)
    else ({}, ALL_ONES)
  }

  /** `ksu_security_compute_av_user` */
  method SecurityComputeAvUser(pol: Policy, table: RuleTable, sids: map<nat, Context>, allow_unknown: bool,
                               ssid: nat, tsid: nat, tclass: nat) returns (avd: AvDecision, permissive: bool)
    requires TypesOk(pol) && SidsOk(pol, sids)
    requires table.Valid() && table.contents == pol.rules
    ensures fresh(avd) && (avd.allowed, permissive) == UserDecide(pol, sids, allow_unknown, ssid, tsid, tclass)
    ensures (avd.auditallow, avd.auditdeny) == UserAudit(pol, sids, ssid, tsid, tclass)
  {
    avd := new AvDecision();
    avd.auditdeny := ALL_ONES;
    permissive := false;
    if ssid !in sids {
      return;
    }
    var scontext := sids[ssid];
    if scontext.typ in pol.permissive {
      permissive := true;
    }
    if tsid !in sids {
      return;
    }
    if tclass == 0 {
      if allow_unknown {
        avd.allowed := ALL_ONES;
      }
      return;
    }
    ContextStructComputeAv(pol, table, scontext, sids[tsid], tclass, avd);
  }

  ghost function Pairs(pol: Policy, source: nat, target: nat): set<(nat, nat)>
    requires TypesOk(pol) && IsType(pol, source) && IsType(pol, target)
  {
    Grid(pol.typeAttr[source - 1], pol.typeAttr[target - 1])
  }

  /** The union over all pairs is what the rules grant. */
  lemma UnionIsGranted(pol: Policy, source: nat, target: nat, c: nat, p: Bit)
    requires TypesOk(pol) && IsType(pol, source) && IsType(pol, target)
    ensures SomeAllows(pol, c, Pairs(pol, source, target), p) <==> RuleGrants(pol, source, target, c, p)
  {
    if SomeAllows(pol, c, Pairs(pol, source, target), p) {
      var q :| q in Pairs(pol, source, target) && p in PairAv(pol, q.0, q.1, c).allowed;
      assert PairGrants(pol, q.0, q.1, c, p);
    }
    if RuleGrants(pol, source, target, c, p) {
      var i, j :| i in pol.typeAttr[source - 1] && j in pol.typeAttr[target - 1] && PairGrants(pol, i, j, c, p);
      assert (i, j) in Pairs(pol, source, target) && p in PairAv(pol, (i, j).0, (i, j).1, c).allowed;
    }
  }
}
