/**
 The policy an access decision reads, and what the decision is: rules over attribute sets, minus
 constraint violations, minus forbidden role changes, cut down along the type bounds
 (kernel/non_gki/selinux_hide.c, `context_struct_compute_av` and `type_attribute_bounds_av`).
 */
module Policies {
  import opened AccessVectors
  import opened Options
  import opened RuleTables
  import opened Constraints

  /** `bounds` is the value of the bounding type; 0 when there is none. */
  datatype TypeDatum = TypeDatum(value: nat, primary: bool, attribute: bool, bounds: nat)

  datatype TypeEntry = TypeEntry(name: string, datum: TypeDatum)

  datatype Constraint = Constraint(permissions: AV, expr: seq<Expr>)

  /** Permission names lead to bits; `common` is the inherited permission table. */
  datatype ClassDatum = ClassDatum(name: string, perms: map<string, Bit>, common: map<string, Bit>,
                                   constraints: seq<Constraint>)

  /** What the conditional table adds for one key: `|=`, `|=` and `&=`. */
  datatype CondAv = CondAv(allowed: AV, auditallow: AV, auditdeny: AV)

  datatype Policy = Policy(
    types: seq<TypeEntry>,            // p_types, in some hash order; aliases included
    typeStruct: seq<TypeDatum>,       // type_val_to_struct
    typeAttr: seq<set<nat>>,          // type_attr_map_array: bits are values - 1
    typeName: seq<string>,            // sym_val_to_name[SYM_TYPES]
    classes: seq<ClassDatum>,         // class_val_to_struct
    classOrder: seq<nat>,             // the class values, in some hash order of p_classes
    roleDominates: seq<set<int>>,
    roleTypes: seq<set<nat>>,
    roleAllow: seq<(nat, nat)>,
    processClass: nat,
    processTransPerms: AV,
    permissive: set<nat>,
    rules: map<RuleKey, AV>,          // te_avtab, access-vector rules
    cond: map<(nat, nat, nat), CondAv>) // te_cond_avtab, as cond_compute_av reads it

  /** `CEXPR_MAXDEPTH` of the kernel's ss/constraint.h. */
  const CEXPR_MAXDEPTH: nat := 5

  function AvKey(source: nat, target: nat, cls: nat, kind: Kind): RuleKey {
    RuleKey(U16(source), U16(target), U16(cls), kind)
  }

  function CondOf(pol: Policy, source: nat, target: nat, cls: nat): CondAv {
    var k := (U16(source), U16(target), U16(cls));
    if k in pol.cond then pol.cond[k] else CondAv({}, {}, ALL_ONES)
  }

  // ----- type bounds -----

  function BoundOf(pol: Policy, t: nat): nat {
    if 1 <= t <= |pol.typeStruct| then pol.typeStruct[t - 1].bounds else 0
  }

  /** The k-th type up the bounds chain of t; 0 behind its end. */
  function BoundAt(pol: Policy, t: nat, k: nat): nat
    decreases k
  {
    if k == 0 then t else BoundAt(pol, BoundOf(pol, t), k - 1)
  }

  ghost predicate Acyclic(pol: Policy) {
    forall t: nat, k: nat :: t != 0 && k != 0 ==> BoundAt(pol, t, k) != t
  }

  /** Every type has an attribute set, bounds are types, and no type bounds itself. */
  ghost predicate TypesOk(pol: Policy) {
    && |pol.typeAttr| == |pol.typeStruct|
    && (forall t :: 1 <= t <= |pol.typeStruct| ==> BoundOf(pol, t) <= |pol.typeStruct|)
    && Acyclic(pol)
  }

  predicate IsType(pol: Policy, t: nat) {
    1 <= t <= |pol.typeStruct|
  }

  ghost function AllTypes(pol: Policy): set<nat> {
    set t: nat | 1 <= t <= |pol.typeStruct| && IsType(pol, t)
  }

  /** The length of the bounds chain of t, not counting types outside todo. */
  ghost function ChainLength(pol: Policy, t: nat, todo: set<nat>): nat
    decreases |todo|
  {
    if BoundOf(pol, t) == 0 || t !in todo then 0 else 1 + ChainLength(pol, BoundOf(pol, t), todo - {t})
  }

  ghost function Rank(pol: Policy, t: nat): nat {
    ChainLength(pol, t, AllTypes(pol))
  }

  lemma {:induction false} ChainLengthIgnores(pol: Policy, x: nat, t: nat, todo: set<nat>)
    requires forall k: nat :: BoundAt(pol, x, k) != t
    ensures ChainLength(pol, x, todo) == ChainLength(pol, x, todo - {t})
    decreases |todo|
  {
    assert BoundAt(pol, x, 0) == x;
    if BoundOf(pol, x) != 0 && x in todo {
      forall k: nat
        ensures BoundAt(pol, BoundOf(pol, x), k) != t
      {
        assert BoundAt(pol, x, k + 1) == BoundAt(pol, BoundOf(pol, x), k);
      }
      ChainLengthIgnores(pol, BoundOf(pol, x), t, todo - {x});
      assert todo - {t} - {x} == todo - {x} - {t};
    }
  }

  /** Going up one bound shortens the chain: this is why the mutual recursion ends. */
  lemma RankDecreases(pol: Policy, t: nat)
    requires TypesOk(pol) && IsType(pol, t) && BoundOf(pol, t) != 0
    ensures IsType(pol, BoundOf(pol, t)) && Rank(pol, t) == 1 + Rank(pol, BoundOf(pol, t))
  {
    forall k: nat
      ensures BoundAt(pol, BoundOf(pol, t), k) != t
    {
      assert BoundAt(pol, t, k + 1) == BoundAt(pol, BoundOf(pol, t), k);
    }
    ChainLengthIgnores(pol, BoundOf(pol, t), t, AllTypes(pol));
  }

  // ----- the decision -----

  /** The rule stage of the decision: some pair of attributes is granted the permission. */
  ghost predicate RuleGrants(pol: Policy, source: nat, target: nat, c: nat, p: Bit)
    requires TypesOk(pol) && IsType(pol, source) && IsType(pol, target)
  {
    exists i, j :: i in pol.typeAttr[source - 1] && j in pol.typeAttr[target - 1] && PairGrants(pol, i, j, c, p)
  }

  /** a and b are attribute bits, so the rule's types are a + 1 and b + 1. */
  ghost predicate PairGrants(pol: Policy, a: nat, b: nat, c: nat, p: Bit) {
    p in ValueAt(pol.rules, AvKey(a + 1, b + 1, c, Allowed)) || p in CondOf(pol, a + 1, b + 1, c).allowed
  }

  ghost predicate Violated(pol: Policy, s: Context, t: Context, con: Constraint) {
    !Holds(Run(Env(pol.roleDominates, s, t, None), con.expr, [], CEXPR_MAXDEPTH))
  }

  ghost predicate ConstraintDenies(pol: Policy, s: Context, t: Context, c: nat, p: Bit)
    requires 1 <= c <= |pol.classes|
  {
    exists con :: con in pol.classes[c - 1].constraints && p in con.permissions && Violated(pol, s, t, con)
  }

  predicate RoleDenies(pol: Policy, s: Context, t: Context, c: nat, p: Bit) {
    c == pol.processClass && p in pol.processTransPerms && s.role != t.role && (s.role, t.role) !in pol.roleAllow
  }

  /** Everything but the bounds: granted by a rule and forbidden by nothing. */
  ghost predicate Granted(pol: Policy, s: Context, t: Context, c: nat, p: Bit)
    requires TypesOk(pol) && IsType(pol, s.typ) && IsType(pol, t.typ) && 1 <= c <= |pol.classes|
  {
    RuleGrants(pol, s.typ, t.typ, c, p) && !ConstraintDenies(pol, s, t, c, p) && !RoleDenies(pol, s, t, c, p)
  }

  function LowerSource(pol: Policy, s: Context): Context {
    s.(typ := BoundOf(pol, s.typ))
  }

  /** The target is lowered only while it has a bound itself. */
  function LowerTarget(pol: Policy, t: Context): Context {
    if BoundOf(pol, t.typ) == 0 then t else t.(typ := BoundOf(pol, t.typ))
  }

  /** `avd->allowed` of the decision. */
  ghost function Decide(pol: Policy, s: Context, t: Context, c: nat): AV
    requires TypesOk(pol) && IsType(pol, s.typ) && IsType(pol, t.typ)
    decreases Rank(pol, s.typ)
  {
    if c == 0 || c > |pol.classes| then {}
    else
      var own := set p: Bit | p < 32 && Granted(pol, s, t, c, p);
      if BoundOf(pol, s.typ) == 0 then own
      else
        RankDecreases(pol, s.typ);
        own * Decide(pol, LowerSource(pol, s), LowerTarget(pol, t), c)
  }

  /** A table of security ids whose contexts have types of the policy. */
  ghost predicate SidsOk(pol: Policy, sids: map<nat, Context>) {
    forall sid :: sid in sids ==> IsType(pol, sids[sid].typ)
  }

  /** `ksu_security_compute_av_user`: what user space is told is allowed, and whether the domain is permissive. */
  ghost function UserDecide(pol: Policy, sids: map<nat, Context>, allowUnknown: bool, ssid: nat, tsid: nat, c: nat): (AV, bool)
    requires TypesOk(pol) && SidsOk(pol, sids)
  {
    var permissive := ssid in sids && sids[ssid].typ in pol.permissive;
    if ssid !in sids || tsid !in sids then ({}, permissive)
    else if c == 0 then (if allowUnknown then ALL_ONES else {}, permissive)
    else (Decide(pol, sids[ssid], sids[tsid], c), permissive)
  }

  // ----- what the bounds mean -----

  function SourceAt(pol: Policy, s: Context, k: nat): Context
    decreases k
  {
    if k == 0 then s else SourceAt(pol, LowerSource(pol, s), k - 1)
  }

  function TargetAt(pol: Policy, t: Context, k: nat): Context
    decreases k
  {
    if k == 0 then t else TargetAt(pol, LowerTarget(pol, t), k - 1)
  }

  /** The source k steps up the chain is the source with its k-th bound for a type. */
  lemma {:induction false} SourceAtIsBoundAt(pol: Policy, s: Context, k: nat)
    ensures SourceAt(pol, s, k) == s.(typ := BoundAt(pol, s.typ, k))
    decreases k
  {
    if k > 0 { SourceAtIsBoundAt(pol, LowerSource(pol, s), k - 1); }
  }

  lemma {:induction false} LevelsAreTypes(pol: Policy, s: Context, t: Context, k: nat)
    requires TypesOk(pol) && IsType(pol, s.typ) && IsType(pol, t.typ) && k <= Rank(pol, s.typ)
    ensures IsType(pol, SourceAt(pol, s, k).typ) && IsType(pol, TargetAt(pol, t, k).typ)
    ensures Rank(pol, SourceAt(pol, s, k).typ) == Rank(pol, s.typ) - k
    decreases k
  {
    if k > 0 {
      RankDecreases(pol, s.typ);
      LevelsAreTypes(pol, LowerSource(pol, s), LowerTarget(pol, t), k - 1);
    }
  }

  /** The rank of a type is the length of its whole chain: nothing bounds its last member. */
  lemma {:induction false} RankReachesTheEnd(pol: Policy, t: nat)
    requires TypesOk(pol) && IsType(pol, t)
    ensures IsType(pol, BoundAt(pol, t, Rank(pol, t))) && BoundOf(pol, BoundAt(pol, t, Rank(pol, t))) == 0
    ensures BoundOf(pol, t) == 0 ==> Rank(pol, t) == 0
    decreases Rank(pol, t)
  {
    if BoundOf(pol, t) != 0 {
      RankDecreases(pol, t);
      RankReachesTheEnd(pol, BoundOf(pol, t));
    }
  }

  /** The bounds chain has as many ancestors as the rank says, and none behind them. */
  lemma {:induction false} AncestorIff(pol: Policy, t: nat, k: nat)
    requires TypesOk(pol) && IsType(pol, t)
    ensures BoundAt(pol, t, k) != 0 <==> k <= Rank(pol, t)
    decreases k
  {
    if k > 0 {
      if BoundOf(pol, t) == 0 {
        RankReachesTheEnd(pol, t);
        NothingBehind(pol, k - 1);
      } else {
        RankDecreases(pol, t);
        AncestorIff(pol, BoundOf(pol, t), k - 1);
      }
    }
  }

  lemma {:induction false} NothingBehind(pol: Policy, k: nat)
    ensures BoundAt(pol, 0, k) == 0
    decreases k
  {
    if k > 0 { NothingBehind(pol, k - 1); }
  }

  /** The target k steps up: its k-th bound, or the last of its chain. */
  lemma {:induction false} TargetAtIsBoundAt(pol: Policy, t: Context, k: nat)
    requires TypesOk(pol) && IsType(pol, t.typ)
    ensures TargetAt(pol, t, k) == t.(typ := BoundAt(pol, t.typ, Min(k, Rank(pol, t.typ))))
    decreases k
  {
    if k > 0 {
      if BoundOf(pol, t.typ) == 0 {
        RankReachesTheEnd(pol, t.typ);
        TargetStays(pol, t, k);
      } else {
        RankDecreases(pol, t.typ);
        TargetAtIsBoundAt(pol, LowerTarget(pol, t), k - 1);
      }
    }
  }

  lemma {:induction false} TargetStays(pol: Policy, t: Context, k: nat)
    requires BoundOf(pol, t.typ) == 0
    ensures TargetAt(pol, t, k) == t && BoundAt(pol, t.typ, 0) == t.typ
    decreases k
  {
    if k > 0 { TargetStays(pol, t, k - 1); }
  }

  function Min(a: nat, b: nat): nat { if a < b then a else b }

  lemma {:induction false} LevelsContain(pol: Policy, s: Context, t: Context, c: nat, k: nat)
    requires TypesOk(pol) && IsType(pol, s.typ) && IsType(pol, t.typ) && k <= Rank(pol, s.typ)
    ensures IsType(pol, SourceAt(pol, s, k).typ) && IsType(pol, TargetAt(pol, t, k).typ)
    ensures Decide(pol, s, t, c) <= Decide(pol, SourceAt(pol, s, k), TargetAt(pol, t, k), c)
    decreases k
  {
    LevelsAreTypes(pol, s, t, k);
    if k > 0 {
      RankDecreases(pol, s.typ);
      LevelsContain(pol, LowerSource(pol, s), LowerTarget(pol, t), c, k - 1);
    }
  }

  /**
   The permissions of a type are contained in those of every ancestor along its whole bounds chain, towards the
   target's ancestor of the same step, or its last one.
   */
  lemma BoundsContain(pol: Policy, s: Context, t: Context, c: nat, k: nat)
    requires TypesOk(pol) && IsType(pol, s.typ) && IsType(pol, t.typ) && BoundAt(pol, s.typ, k) != 0
    ensures var s', t' := s.(typ := BoundAt(pol, s.typ, k)), t.(typ := BoundAt(pol, t.typ, Min(k, Rank(pol, t.typ))));
            IsType(pol, s'.typ) && IsType(pol, t'.typ) && Decide(pol, s, t, c) <= Decide(pol, s', t', c)
  {
    AncestorIff(pol, s.typ, k);
    LevelsContain(pol, s, t, c, k);
    SourceAtIsBoundAt(pol, s, k);
    TargetAtIsBoundAt(pol, t, k);
  }

  /** Exactly: a permission is allowed when it is granted at every level of the bounds chain. */
  lemma {:induction false} DecideIsEveryLevel(pol: Policy, s: Context, t: Context, c: nat, p: Bit)
    requires TypesOk(pol) && IsType(pol, s.typ) && IsType(pol, t.typ)
    ensures p in Decide(pol, s, t, c) <==>
            1 <= c <= |pol.classes| &&
            forall k: nat :: k <= Rank(pol, s.typ) ==> GrantedAt(pol, s, t, c, p, k)
    decreases Rank(pol, s.typ)
  {
    if 1 <= c <= |pol.classes| {
      assert GrantedAt(pol, s, t, c, p, 0) <==> Granted(pol, s, t, c, p);
      if BoundOf(pol, s.typ) != 0 {
        RankDecreases(pol, s.typ);
        var ls, lt := LowerSource(pol, s), LowerTarget(pol, t);
        DecideIsEveryLevel(pol, ls, lt, c, p);
        forall k: nat | k <= Rank(pol, ls.typ)
          ensures GrantedAt(pol, s, t, c, p, k + 1) <==> GrantedAt(pol, ls, lt, c, p, k)
        {
        }
        if forall k: nat :: k <= Rank(pol, ls.typ) ==> GrantedAt(pol, ls, lt, c, p, k) {
          forall k: nat | 0 < k <= Rank(pol, s.typ)
            ensures GrantedAt(pol, s, t, c, p, k)
          {
            assert GrantedAt(pol, ls, lt, c, p, k - 1);
          }
        }
      }
    }
  }

  ghost predicate GrantedAt(pol: Policy, s: Context, t: Context, c: nat, p: Bit, k: nat)
    requires TypesOk(pol) && 1 <= c <= |pol.classes|
  {
    && IsType(pol, SourceAt(pol, s, k).typ) && IsType(pol, TargetAt(pol, t, k).typ)
    && Granted(pol, SourceAt(pol, s, k), TargetAt(pol, t, k), c, p)
  }

  // ----- monotonicity -----

  /** The second policy is the first with rules that allow at least as much. */
  ghost predicate AllowsMore(pol: Policy, pol': Policy) {
    && pol' == pol.(rules := pol'.rules)
    && forall k: RuleKey :: k.kind.Allowed? ==> ValueAt(pol.rules, k) <= ValueAt(pol'.rules, k)
  }

  lemma {:induction false} SameBounds(pol: Policy, pol': Policy, t: nat, k: nat)
    requires pol'.typeStruct == pol.typeStruct
    ensures BoundAt(pol', t, k) == BoundAt(pol, t, k)
    decreases k
  {
    if k > 0 { SameBounds(pol, pol', BoundOf(pol, t), k - 1); }
  }

  lemma {:induction false} SameTypesOk(pol: Policy, pol': Policy)
    requires pol'.typeStruct == pol.typeStruct && pol'.typeAttr == pol.typeAttr
    ensures TypesOk(pol') == TypesOk(pol)
  {
    forall t: nat, k: nat
      ensures BoundAt(pol', t, k) == BoundAt(pol, t, k)
    {
      SameBounds(pol, pol', t, k);
    }
    assert forall t :: BoundOf(pol', t) == BoundOf(pol, t);
  }

  /** More allow rules never take a permission away, despite constraints, roles and recursive bounds. */
  lemma {:induction false} DecideIsMonotone(pol: Policy, pol': Policy, s: Context, t: Context, c: nat)
    requires TypesOk(pol) && AllowsMore(pol, pol') && IsType(pol, s.typ) && IsType(pol, t.typ)
    ensures TypesOk(pol') && Decide(pol, s, t, c) <= Decide(pol', s, t, c)
    decreases Rank(pol, s.typ)
  {
    SameTypesOk(pol, pol');
    if 1 <= c <= |pol.classes| {
      forall p: Bit | Granted(pol, s, t, c, p)
        ensures Granted(pol', s, t, c, p)
      {
        var i, j :| i in pol.typeAttr[s.typ - 1] && j in pol.typeAttr[t.typ - 1] && PairGrants(pol, i, j, c, p);
        assert PairGrants(pol', i, j, c, p);
        assert forall con :: Violated(pol', s, t, con) == Violated(pol, s, t, con);
      }
      if BoundOf(pol, s.typ) != 0 {
        RankDecreases(pol, s.typ);
        DecideIsMonotone(pol, pol', LowerSource(pol, s), LowerTarget(pol, t), c);
      }
    }
  }
}
