/**
 What a single operand of a constraint says, in the fields of the two contexts, and what a decision is, in the fields of
 the policy (kernel/non_gki/selinux_hide.c:1594-1717, 1720-1785, 1816-1925).
 */
module DecisionMeaning {
  import opened AccessVectors
  import opened Options
  import opened RuleTables
  import opened Constraints
  import opened Policies
  import opened DecisionEngine

  /** The two levels that a level attribute compares, in this order. */
  predicate ComparesLevels(env: Env, a: AttrKind, l1: Level, l2: Level) {
    match a
    case L1L2 => l1 == env.scontext.low && l2 == env.tcontext.low
    case L1H2 => l1 == env.scontext.low && l2 == env.tcontext.high
    case H1L2 => l1 == env.scontext.high && l2 == env.tcontext.low
    case H1H2 => l1 == env.scontext.high && l2 == env.tcontext.high
    case L1H1 => l1 == env.scontext.low && l2 == env.scontext.high
    case L2H2 => l1 == env.tcontext.low && l2 == env.tcontext.high
    case _ => false
  }

  /** A list of one operand pushes its value, ends in BUG when the operand is not known, and never fills the stack. */
  lemma OneLeaf(env: Env, e: Expr, max: nat)
    requires 0 < max && e.IsLeaf()
    ensures Run(env, [e], [], max) == if LeafOk(e, env.xcontext.Some?) then Value(LeafValue(env, e)) else Bug
  {
    assert [e][1..] == [];
    if LeafOk(e, env.xcontext.Some?) { assert Step(env, e, [], max) == Next([LeafValue(env, e)]); }
  }

  /** The level attributes with every operator. */
  lemma LevelLeaf(env: Env, a: AttrKind, max: nat, l1: Level, l2: Level)
    requires 0 < max && ComparesLevels(env, a, l1, l2)
    ensures Run(env, [Attr(a, Eq)], [], max) == Value(l1.sens == l2.sens && l1.cats == l2.cats)
    ensures Run(env, [Attr(a, Neq)], [], max) == Value(l1.sens != l2.sens || l1.cats != l2.cats)
    ensures Run(env, [Attr(a, Dom)], [], max) == Value(l2.sens <= l1.sens && l2.cats <= l1.cats)
    ensures Run(env, [Attr(a, DomBy)], [], max) == Value(l1.sens <= l2.sens && l1.cats <= l2.cats)
    ensures Run(env, [Attr(a, Incomp)], [], max) ==
            Value((l1.sens < l2.sens || !(l2.cats <= l1.cats)) && (l2.sens < l1.sens || !(l1.cats <= l2.cats)))
    ensures Run(env, [Attr(a, UnknownOp)], [], max) == Bug
  {
    OneLeaf(env, Attr(a, Eq), max);
    OneLeaf(env, Attr(a, Neq), max);
    OneLeaf(env, Attr(a, Dom), max);
    OneLeaf(env, Attr(a, DomBy), max);
    OneLeaf(env, Attr(a, Incomp), max);
    OneLeaf(env, Attr(a, UnknownOp), max);
  }

  /** Users and types are compared as numbers, for equality alone. */
  lemma UserAndTypeLeaf(env: Env, op: RelOp, max: nat)
    requires 0 < max
    ensures Run(env, [Attr(User, op)], [], max) ==
            if op == Eq then Value(env.scontext.user == env.tcontext.user)
            else if op == Neq then Value(env.scontext.user != env.tcontext.user)
            else Bug
    ensures Run(env, [Attr(Type, op)], [], max) ==
            if op == Eq then Value(env.scontext.typ == env.tcontext.typ)
            else if op == Neq then Value(env.scontext.typ != env.tcontext.typ)
            else Bug
    ensures Run(env, [Attr(UnknownAttr, op)], [], max) == Bug && Run(env, [UnknownExpr], [], max) == Bug
  {
    OneLeaf(env, Attr(User, op), max);
    OneLeaf(env, Attr(Type, op), max);
    OneLeaf(env, Attr(UnknownAttr, op), max);
  }

  /** Roles are also ordered: role r is over role q when q's bit is in the dominates map of r. */
  lemma RoleLeaf(env: Env, max: nat)
    requires 0 < max && 1 <= env.scontext.role <= |env.roles| && 1 <= env.tcontext.role <= |env.roles|
    ensures var r, q := env.scontext.role, env.tcontext.role;
            && Run(env, [Attr(Role, Eq)], [], max) == Value(r == q)
            && Run(env, [Attr(Role, Neq)], [], max) == Value(r != q)
            && Run(env, [Attr(Role, Dom)], [], max) == Value(q - 1 in env.roles[r - 1])
            && Run(env, [Attr(Role, DomBy)], [], max) == Value(r - 1 in env.roles[q - 1])
            && Run(env, [Attr(Role, Incomp)], [], max) == Value(q - 1 !in env.roles[r - 1] && r - 1 !in env.roles[q - 1])
            && Run(env, [Attr(Role, UnknownOp)], [], max) == Bug
  {
    OneLeaf(env, Attr(Role, Eq), max);
    OneLeaf(env, Attr(Role, Neq), max);
    OneLeaf(env, Attr(Role, Dom), max);
    OneLeaf(env, Attr(Role, DomBy), max);
    OneLeaf(env, Attr(Role, Incomp), max);
    OneLeaf(env, Attr(Role, UnknownOp), max);
  }

  /** The field a names operand looks up: of the target before the third context before the source, and the user first. */
  predicate NamesField(env: Env, e: Expr, v: nat)
    requires e.Names?
  {
    || (e.target && FieldOf(env.tcontext, e, v))
    || (!e.target && e.xtarget && env.xcontext.Some? && FieldOf(env.xcontext.value, e, v))
    || (!e.target && !e.xtarget && FieldOf(env.scontext, e, v))
  }

  predicate FieldOf(c: Context, e: Expr, v: nat)
    requires e.Names?
  {
    || (e.user && v == c.user)
    || (!e.user && e.role && v == c.role)
    || (!e.user && !e.role && e.typ && v == c.typ)
  }

  /** A names operand tells whether the field's bit is in its list, or is not; the names of types are not looked at. */
  lemma NamesLeaf(env: Env, e: Expr, max: nat, v: nat)
    requires 0 < max && e.Names? && NamesField(env, e, v)
    ensures Run(env, [e], [], max) ==
            if e.op == Eq then Value(v - 1 in e.names) else if e.op == Neq then Value(v - 1 !in e.names) else Bug
  {
    OneLeaf(env, e, max);
  }

  /** Without a field, or with a third context that is not there, a names operand ends in BUG. */
  lemma NamesWithoutField(env: Env, e: Expr, max: nat)
    requires 0 < max && e.Names?
    ensures (forall v: nat :: !NamesField(env, e, v)) <==>
            (!e.user && !e.role && !e.typ) || (!e.target && e.xtarget && env.xcontext.None?)
    ensures (forall v: nat :: !NamesField(env, e, v)) ==> Run(env, [e], [], max) == Bug
  {
    OneLeaf(env, e, max);
    if (e.user || e.role || e.typ) && (e.target || !e.xtarget || env.xcontext.Some?) {
      var c := if e.target then env.tcontext else if e.xtarget then env.xcontext.value else env.scontext;
      assert NamesField(env, e, if e.user then c.user else if e.role then c.role else c.typ);
    }
  }

  /** The connectives, on operands that evaluate to v and w. */
  lemma Connectives(env: Env, a: Expr, b: Expr, max: nat, v: bool, w: bool)
    requires 2 <= max && a.IsLeaf() && b.IsLeaf()
    requires Run(env, [a], [], max) == Value(v) && Run(env, [b], [], max) == Value(w)
    ensures Run(env, [a, Not], [], max) == Value(!v)
    ensures Run(env, [a, b, And], [], max) == Value(v && w)
    ensures Run(env, [a, b, Or], [], max) == Value(v || w)
  {
    OneLeaf(env, a, max);
    OneLeaf(env, b, max);
    EvaluatesTree(env, Neg(Leaf(a)), max);
    EvaluatesTree(env, Both(Leaf(a), Leaf(b)), max);
    EvaluatesTree(env, Either(Leaf(a), Leaf(b)), max);
    assert [a] + [Not] == [a, Not] && [a] + [b] + [And] == [a, b, And] && [a] + [b] + [Or] == [a, b, Or];
  }

  // ----- which way round a decision reads its constraints -----

  /**
   A decision evaluates constraints with the source's context first, the target's second and none third: the multi-level
   rule that the source's low level dominates the target's takes a permission exactly when it does not.
   */
  lemma LowDominatesLow(pol: Policy, s: Context, t: Context, perms: AV)
    ensures Violated(pol, s, t, Constraint(perms, [Attr(L1L2, Dom)])) <==>
            !(t.low.sens <= s.low.sens && t.low.cats <= s.low.cats)
  {
    LevelLeaf(Env(pol.roleDominates, s, t, None), L1L2, CEXPR_MAXDEPTH, s.low, t.low);
  }

  /** A constraint on the source's type alone, and one on the target's. */
  lemma TypeListed(pol: Policy, s: Context, t: Context, perms: AV, target: bool, names: set<int>, typeNames: set<int>)
    ensures Violated(pol, s, t, Constraint(perms, [Names(target, false, false, false, true, Eq, names, typeNames)])) <==>
            (if target then t.typ - 1 else s.typ - 1) !in names
    ensures Violated(pol, s, t, Constraint(perms, [Names(target, true, false, false, true, Eq, names, typeNames)])) <==>
            !target || t.typ - 1 !in names
  {
    var env := Env(pol.roleDominates, s, t, None);
    var e, x := Names(target, false, false, false, true, Eq, names, typeNames), Names(target, true, false, false, true, Eq, names, typeNames);
    NamesLeaf(env, e, CEXPR_MAXDEPTH, if target then t.typ else s.typ);
    if target { NamesLeaf(env, x, CEXPR_MAXDEPTH, t.typ); } else { NamesWithoutField(env, x, CEXPR_MAXDEPTH); }
  }

  /** Role dominance in a decision is that of the policy's own role map. */
  lemma RoleDominatesRole(pol: Policy, s: Context, t: Context, perms: AV)
    requires 1 <= s.role <= |pol.roleDominates| && 1 <= t.role <= |pol.roleDominates|
    ensures Violated(pol, s, t, Constraint(perms, [Attr(Role, Dom)])) <==> t.role - 1 !in pol.roleDominates[s.role - 1]
  {
    RoleLeaf(Env(pol.roleDominates, s, t, None), CEXPR_MAXDEPTH);
  }

  /** The stack has five cells: six operands in a row always fail a decision, even those that are all true. */
  lemma FiveDeep(pol: Policy, s: Context, t: Context, perms: AV, k: nat)
    ensures Violated(pol, s, t, Constraint(perms, Nested(k))) <==> 5 <= k || s.user != t.user
  {
    DeepTree(k);
    NestedTruth(Env(pol.roleDominates, s, t, None), k);
    EvaluatesTree(Env(pol.roleDominates, s, t, None), NestedTree(k), CEXPR_MAXDEPTH);
  }

  /** u1 == u2 and (u1 == u2 and (...)), with k + 1 operands before the first operator. */
  function NestedTree(k: nat): Tree {
    if k == 0 then Leaf(Attr(User, Eq)) else Both(Leaf(Attr(User, Eq)), NestedTree(k - 1))
  }

  function Nested(k: nat): seq<Expr> {
    if k == 0 then [Attr(User, Eq)] else [Attr(User, Eq)] + Nested(k - 1) + [And]
  }

  lemma {:induction false} DeepTree(k: nat)
    ensures Postfix(NestedTree(k)) == Nested(k) && Need(NestedTree(k)) == k + 1
  {
    if k > 0 { DeepTree(k - 1); }
  }

  lemma {:induction false} NestedTruth(env: Env, k: nat)
    ensures LeavesOk(NestedTree(k), env.xcontext.Some?)
    ensures Truth(env, NestedTree(k)) == (env.scontext.user == env.tcontext.user)
  {
    if k > 0 { NestedTruth(env, k - 1); }
  }

  // ----- the decision in the fields of the policy -----

  /** What a rule that is not in the table says: nothing is allowed or audited, and every denial is. */
  lemma AbsentRule(m: map<RuleKey, AV>, k: RuleKey, p: Bit)
    requires k !in m
    ensures p in ValueAt(m, k) <==> k.kind.AuditDeny?
    ensures k in m[k := {p}] && ValueAt(m[k := {p}], k) == {p}
  {
  }

  /** A rule from the type of bit i to the type of bit j, for the class, allows p; or a conditional one does. */
  predicate Gives(pol: Policy, i: nat, j: nat, cls: nat, p: Bit) {
    var x, y, c := (i + 1) % 0x1_0000, (j + 1) % 0x1_0000, cls % 0x1_0000;
    || (RuleKey(x, y, c, Kind.Allowed) in pol.rules && p in pol.rules[RuleKey(x, y, c, Kind.Allowed)])
    || ((x, y, c) in pol.cond && p in pol.cond[(x, y, c)].allowed)
  }

  /** The constraint's expression does not come out true with the two contexts in this order, on five cells. */
  ghost predicate Fails(pol: Policy, s: Context, t: Context, con: Constraint) {
    Run(Env(pol.roleDominates, s, t, None), con.expr, [], 5) != Value(true)
  }

  /** Granted by a rule between attributes of source and target, and forbidden by no constraint and no change of role. */
  ghost predicate OwnPermission(pol: Policy, s: Context, t: Context, c: nat, p: Bit)
    requires 1 <= s.typ <= |pol.typeAttr| && 1 <= t.typ <= |pol.typeAttr| && 1 <= c <= |pol.classes|
  {
    && (exists i, j :: i in pol.typeAttr[s.typ - 1] && j in pol.typeAttr[t.typ - 1] && Gives(pol, i, j, c, p))
    && (forall con :: con in pol.classes[c - 1].constraints && Fails(pol, s, t, con) ==> p !in con.permissions)
    && (c == pol.processClass && s.role != t.role && p in pol.processTransPerms ==> (s.role, t.role) in pol.roleAllow)
  }

  lemma GrantedIsOwn(pol: Policy, s: Context, t: Context, c: nat, p: Bit)
    requires TypesOk(pol) && IsType(pol, s.typ) && IsType(pol, t.typ) && 1 <= c <= |pol.classes|
    ensures Granted(pol, s, t, c, p) <==> OwnPermission(pol, s, t, c, p)
  {
    forall i: nat, j: nat
      ensures PairGrants(pol, i, j, c, p) <==> Gives(pol, i, j, c, p)
    {
    }
    assert forall con :: Violated(pol, s, t, con) <==> Fails(pol, s, t, con);
  }

  /**
   The whole decision, in the fields of the policy: nothing for a class that is not there; else what source and target
   are given themselves, and with a bounded source only what its bound is given too, the target lowered if it is bounded.
   */
  lemma DecisionMeans(pol: Policy, s: Context, t: Context, c: nat, p: Bit)
    requires TypesOk(pol) && IsType(pol, s.typ) && IsType(pol, t.typ)
    ensures c == 0 || c > |pol.classes| ==> p !in Decide(pol, s, t, c)
    ensures 1 <= c <= |pol.classes| ==>
              var up, tup := pol.typeStruct[s.typ - 1].bounds, pol.typeStruct[t.typ - 1].bounds;
              && (up == 0 ==> (p in Decide(pol, s, t, c) <==> OwnPermission(pol, s, t, c, p)))
              && (up != 0 ==>
                    && IsType(pol, up) && (tup != 0 ==> IsType(pol, tup))
                    && (p in Decide(pol, s, t, c) <==>
                          && OwnPermission(pol, s, t, c, p)
                          && p in Decide(pol, s.(typ := up), if tup == 0 then t else t.(typ := tup), c)))
  {
    if 1 <= c <= |pol.classes| {
      GrantedIsOwn(pol, s, t, c, p);
      assert BoundOf(pol, t.typ) <= |pol.typeStruct|;
      if BoundOf(pol, s.typ) != 0 { RankDecreases(pol, s.typ); }
    }
  }

  /** What user space is told: unknown ids give nothing, class 0 all or nothing, and the source's type may be permissive. */
  lemma UserMeans(pol: Policy, sids: map<nat, Context>, allowUnknown: bool, ssid: nat, tsid: nat, c: nat, p: Bit)
    requires TypesOk(pol) && SidsOk(pol, sids)
    ensures var (allowed, permissive) := UserDecide(pol, sids, allowUnknown, ssid, tsid, c);
            && (permissive <==> ssid in sids && sids[ssid].typ in pol.permissive)
            && (ssid !in sids || tsid !in sids ==> p !in allowed)
            && (ssid in sids && tsid in sids ==>
                  (p in allowed <==> if c == 0 then allowUnknown else p in Decide(pol, sids[ssid], sids[tsid], c)))
  {
    AllOnesIsTop({p});
  }

  // ----- the audit vectors in the fields of the policy -----

  /** A rule of this kind for the two bits, in this order: what it holds, or what an absent one stands for. */
  predicate Holding(pol: Policy, i: nat, j: nat, cls: nat, kind: Kind, p: Bit) {
    var k := RuleKey((i + 1) % 0x1_0000, (j + 1) % 0x1_0000, cls % 0x1_0000, kind);
    if k in pol.rules then p in pol.rules[k] else kind.AuditDeny?
  }

  predicate GrantAudited(pol: Policy, i: nat, j: nat, cls: nat, p: Bit) {
    var k := ((i + 1) % 0x1_0000, (j + 1) % 0x1_0000, cls % 0x1_0000);
    Holding(pol, i, j, cls, AuditAllow, p) || (k in pol.cond && p in pol.cond[k].auditallow)
  }

  predicate DenialAudited(pol: Policy, i: nat, j: nat, cls: nat, p: Bit) {
    var k := ((i + 1) % 0x1_0000, (j + 1) % 0x1_0000, cls % 0x1_0000);
    Holding(pol, i, j, cls, AuditDeny, p) && (k in pol.cond ==> p in pol.cond[k].auditdeny)
  }

  /** A use is audited when some pair of attributes asks for it, a denial when no pair silences it. */
  lemma AuditMeans(pol: Policy, source: nat, target: nat, c: nat, p: Bit)
    requires TypesOk(pol) && IsType(pol, source) && IsType(pol, target)
    ensures var v, s, t := UnionAv(pol, c, Pairs(pol, source, target)), pol.typeAttr[source - 1], pol.typeAttr[target - 1];
            && (p in v.auditallow <==> exists i, j :: i in s && j in t && GrantAudited(pol, i, j, c, p))
            && (p in v.auditdeny <==> forall i, j :: i in s && j in t ==> DenialAudited(pol, i, j, c, p))
  {
    var v, s, t := UnionAv(pol, c, Pairs(pol, source, target)), pol.typeAttr[source - 1], pol.typeAttr[target - 1];
    forall i: nat, j: nat
      ensures p in PairAv(pol, i, j, c).auditallow <==> GrantAudited(pol, i, j, c, p)
      ensures p in PairAv(pol, i, j, c).auditdeny <==> DenialAudited(pol, i, j, c, p)
      ensures (i, j) in Pairs(pol, source, target) <==> i in s && j in t
    {
    }
    if i, j :| i in s && j in t && GrantAudited(pol, i, j, c, p) {
      assert (i, j) in Pairs(pol, source, target) && p in PairAv(pol, (i, j).0, (i, j).1, c).auditallow;
    }
    if p in v.auditallow {
      var q :| q in Pairs(pol, source, target) && p in PairAv(pol, q.0, q.1, c).auditallow;
      assert q.0 in s && q.1 in t && GrantAudited(pol, q.0, q.1, c, p);
    }
    if p in v.auditdeny {
      forall i, j | i in s && j in t
        ensures DenialAudited(pol, i, j, c, p)
      {
        assert (i, j) in Pairs(pol, source, target) && p in PairAv(pol, (i, j).0, (i, j).1, c).auditdeny;
      }
    }
    if forall i, j :: i in s && j in t ==> DenialAudited(pol, i, j, c, p) {
      forall q | q in Pairs(pol, source, target)
        ensures p in PairAv(pol, q.0, q.1, c).auditdeny
      {
        assert DenialAudited(pol, q.0, q.1, c, p);
      }
    }
  }
}
