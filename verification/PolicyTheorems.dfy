/**
 What an edit of the policy does to every later access decision: the editor of
 kernel/non_gki/sepolicy.c joined to the decision of kernel/non_gki/selinux_hide.c.
 */
module PolicyTheorems {
  import opened AccessVectors
  import opened Options
  import opened RuleTables
  import opened Constraints
  import opened Policies
  import opened RuleEditor
  import opened TypeTables

  // ----- allow never takes away, deny never gives -----

  /** An allow edit of any key set, with any permission or all of them. */
  lemma AllowAllowsMore(pol: Policy, S: set<RuleKey>, perm: Option<Bit>)
    ensures AllowsMore(pol, pol.(rules := EditAll(pol.rules, S, perm, false)))
  {
    forall k: RuleKey | k.kind.Allowed?
      ensures ValueAt(pol.rules, k) <= ValueAt(EditAll(pol.rules, S, perm, false), k)
    {
      EditAllAt(pol.rules, S, perm, false, k);
      AllOnesIsTop(ValueAt(pol.rules, k));
    }
  }

  lemma DenyAllowsLess(pol: Policy, S: set<RuleKey>, perm: Option<Bit>)
    ensures AllowsMore(pol.(rules := EditAll(pol.rules, S, perm, true)), pol)
  {
    forall k: RuleKey | k.kind.Allowed?
      ensures ValueAt(EditAll(pol.rules, S, perm, true), k) <= ValueAt(pol.rules, k)
    {
      EditAllAt(pol.rules, S, perm, true, k);
    }
  }

  /** Audit edits do not touch a key that decisions read for `allowed`. */
  lemma AuditAllowsSame(pol: Policy, S: set<RuleKey>, perm: Option<Bit>, invert: bool)
    requires forall k :: k in S ==> !k.kind.Allowed?
    ensures AllowsMore(pol, pol.(rules := EditAll(pol.rules, S, perm, invert)))
    ensures AllowsMore(pol.(rules := EditAll(pol.rules, S, perm, invert)), pol)
  {
    forall k: RuleKey | k.kind.Allowed?
      ensures ValueAt(pol.rules, k) == ValueAt(EditAll(pol.rules, S, perm, invert), k)
    {
      EditAllAt(pol.rules, S, perm, invert, k);
    }
  }

  /** `ksu_allow` */
  function Allow(s: Option<string>, t: Option<string>, c: Option<string>, p: Option<string>): Command {
    Rule(Kind.Allowed, false, s, t, c, p)
  }

  /** `ksu_deny` */
  function Deny(s: Option<string>, t: Option<string>, c: Option<string>, p: Option<string>): Command {
    Rule(Kind.Allowed, true, s, t, c, p)
  }

  /** After ksu_allow with any wildcards, no source, target and class has lost a permission. */
  lemma AllowIsMonotone(place: Place, pol: Policy, s: Option<string>, t: Option<string>, c: Option<string>,
                        p: Option<string>, sc: Context, tc: Context, tclass: nat)
    requires TypesOk(pol) && IsType(pol, sc.typ) && IsType(pol, tc.typ)
    ensures var pol' := Apply(place, pol, Allow(s, t, c, p)).0;
            TypesOk(pol') && Decide(pol, sc, tc, tclass) <= Decide(pol', sc, tc, tclass)
  {
    var q := Resolve(pol, s, t, c, p, Kind.Allowed, false);
    if q.Some? {
      AllowAllowsMore(pol, q.value.Targets(), q.value.perm);
      DecideIsMonotone(pol, ApplyRule(pol, q.value), sc, tc, tclass);
    }
  }

  /** ksu_deny never adds one. */
  lemma DenyIsAntitone(place: Place, pol: Policy, s: Option<string>, t: Option<string>, c: Option<string>,
                       p: Option<string>, sc: Context, tc: Context, tclass: nat)
    requires TypesOk(pol) && IsType(pol, sc.typ) && IsType(pol, tc.typ)
    ensures var pol' := Apply(place, pol, Deny(s, t, c, p)).0;
            TypesOk(pol') && Decide(pol', sc, tc, tclass) <= Decide(pol, sc, tc, tclass)
  {
    var q := Resolve(pol, s, t, c, p, Kind.Allowed, true);
    if q.Some? {
      var pol' := ApplyRule(pol, q.value);
      DenyAllowsLess(pol, q.value.Targets(), q.value.perm);
      SameTypesOk(pol, pol');
      DecideIsMonotone(pol', pol, sc, tc, tclass);
    }
  }

  // ----- exactly which pairs an edit reaches -----

  /** The request names this pair of attribute bits, this class and this permission. */
  predicate Reaches(q: Request, i: nat, j: nat, c: nat, p: Bit) {
    && U16(i + 1) in TypeKeys(q.types, q.src, q.effect, q.invert)
    && U16(j + 1) in TypeKeys(q.types, q.tgt, q.effect, q.invert)
    && U16(c) in ClassKeys(q.classOrder, q.cls)
    && (q.perm.Some? ==> q.perm.value == p)
  }

  /** What an allow or deny request does to one pair. */
  lemma PairAfterEdit(pol: Policy, q: Request, i: nat, j: nat, c: nat, p: Bit)
    requires q.effect.Allowed?
    ensures PairGrants(ApplyRule(pol, q), i, j, c, p) <==>
            if Reaches(q, i, j, c, p)
            then !q.invert || p in CondOf(pol, i + 1, j + 1, c).allowed
            else PairGrants(pol, i, j, c, p)
  {
    var k := AvKey(i + 1, j + 1, c, Kind.Allowed);
    EditAllAt(pol.rules, q.Targets(), q.perm, q.invert, k);
    assert k in q.Targets() <==>
      U16(i + 1) in TypeKeys(q.types, q.src, q.effect, q.invert) &&
      U16(j + 1) in TypeKeys(q.types, q.tgt, q.effect, q.invert) && U16(c) in ClassKeys(q.classOrder, q.cls);
    AllOnesIsTop({p});
    assert p in ALL_ONES;
  }

  /** The rule stage after an allow: what it granted before, and the pairs of sets the request reaches. */
  lemma AllowIsExact(pol: Policy, q: Request, st: nat, tt: nat, c: nat, p: Bit)
    requires TypesOk(pol) && IsType(pol, st) && IsType(pol, tt) && q.effect.Allowed? && !q.invert
    ensures TypesOk(ApplyRule(pol, q))
    ensures RuleGrants(ApplyRule(pol, q), st, tt, c, p) <==>
            RuleGrants(pol, st, tt, c, p) ||
            exists i, j :: i in pol.typeAttr[st - 1] && j in pol.typeAttr[tt - 1] && Reaches(q, i, j, c, p)
  {
    var pol' := ApplyRule(pol, q);
    SameTypesOk(pol, pol');
    forall i: nat, j: nat
      ensures PairGrants(pol', i, j, c, p) <==> Reaches(q, i, j, c, p) || PairGrants(pol, i, j, c, p)
    {
      PairAfterEdit(pol, q, i, j, c, p);
    }
  }

  /** The rule stage after a deny: the pairs the request misses, and the conditional rules it cannot reach. */
  lemma DenyIsExact(pol: Policy, q: Request, st: nat, tt: nat, c: nat, p: Bit)
    requires TypesOk(pol) && IsType(pol, st) && IsType(pol, tt) && q.effect.Allowed? && q.invert
    ensures TypesOk(ApplyRule(pol, q))
    ensures RuleGrants(ApplyRule(pol, q), st, tt, c, p) <==>
            exists i, j :: i in pol.typeAttr[st - 1] && j in pol.typeAttr[tt - 1] && Survives(pol, q, i, j, c, p)
  {
    var pol' := ApplyRule(pol, q);
    SameTypesOk(pol, pol');
    forall i: nat, j: nat
      ensures PairGrants(pol', i, j, c, p) <==> Survives(pol, q, i, j, c, p)
    {
      PairAfterEdit(pol, q, i, j, c, p);
    }
  }

  ghost predicate Survives(pol: Policy, q: Request, i: nat, j: nat, c: nat, p: Bit) {
    p in CondOf(pol, i + 1, j + 1, c).allowed || (PairGrants(pol, i, j, c, p) && !Reaches(q, i, j, c, p))
  }

  // ----- ALL means all -----

  predicate HasAttribute(pol: Policy, t: nat)
    requires IsType(pol, t) && t <= |pol.typeAttr|
  {
    exists i :: i in pol.typeAttr[t - 1] && i < |pol.typeStruct| && pol.typeStruct[i].attribute
  }

  /** In an indexed policy with 16-bit values, a wildcard names exactly the types or attributes it should. */
  lemma WildcardIsExact(pol: Policy, effect: Kind, invert: bool, i: nat)
    requires Indexed(pol) && |pol.typeStruct| < 0x1_0000 && i < |pol.typeStruct|
    ensures U16(i + 1) in Wildcard(pol.types, effect, invert) <==> StripAv(effect, invert) || pol.typeStruct[i].attribute
  {
    assert ValueOk(pol, i);
    var e := TypeEntry(pol.typeName[i], pol.typeStruct[i]);
    assert e in pol.types && U16(e.datum.value) == i + 1;
    if U16(i + 1) in Wildcard(pol.types, effect, invert) {
      var d :| d in pol.types && InWildcard(d.datum, effect, invert) && U16(d.datum.value) == i + 1;
      assert EntryOk(pol, d);
    }
  }

  /** Allow with ALL source and target adds the permission for exactly the pairs whose sets each hold an attribute. */
  lemma AllowAllPairs(pol: Policy, q: Request, st: nat, tt: nat, c: nat, p: Bit)
    requires TypesOk(pol) && Indexed(pol) && |pol.typeStruct| < 0x1_0000 && IsType(pol, st) && IsType(pol, tt)
    requires q.types == pol.types && q.src.None? && q.tgt.None? && q.effect.Allowed? && !q.invert
    requires U16(c) in ClassKeys(q.classOrder, q.cls) && (q.perm.Some? ==> q.perm.value == p)
    ensures TypesOk(ApplyRule(pol, q))
    ensures RuleGrants(ApplyRule(pol, q), st, tt, c, p) <==>
            RuleGrants(pol, st, tt, c, p) || (HasAttribute(pol, st) && HasAttribute(pol, tt))
  {
    AllowIsExact(pol, q, st, tt, c, p);
    assert ValueOk(pol, st - 1) && ValueOk(pol, tt - 1);
    forall i: nat, j: nat | i < |pol.typeStruct| && j < |pol.typeStruct|
      ensures Reaches(q, i, j, c, p) <==> pol.typeStruct[i].attribute && pol.typeStruct[j].attribute
    {
      WildcardIsExact(pol, q.effect, q.invert, i);
      WildcardIsExact(pol, q.effect, q.invert, j);
    }
  }

  /** Deny with ALL source and target leaves only what a conditional rule grants. */
  lemma DenyAllPairs(pol: Policy, q: Request, st: nat, tt: nat, c: nat, p: Bit)
    requires TypesOk(pol) && Indexed(pol) && |pol.typeStruct| < 0x1_0000 && IsType(pol, st) && IsType(pol, tt)
    requires q.types == pol.types && q.src.None? && q.tgt.None? && q.effect.Allowed? && q.invert
    requires U16(c) in ClassKeys(q.classOrder, q.cls) && (q.perm.Some? ==> q.perm.value == p)
    ensures TypesOk(ApplyRule(pol, q))
    ensures RuleGrants(ApplyRule(pol, q), st, tt, c, p) <==>
            exists i, j :: i in pol.typeAttr[st - 1] && j in pol.typeAttr[tt - 1] && CondGrants(pol, i, j, c, p)
  {
    DenyIsExact(pol, q, st, tt, c, p);
    assert ValueOk(pol, st - 1) && ValueOk(pol, tt - 1);
    forall i: nat, j: nat | i in pol.typeAttr[st - 1] && j in pol.typeAttr[tt - 1]
      ensures Survives(pol, q, i, j, c, p) <==> CondGrants(pol, i, j, c, p)
    {
      WildcardIsExact(pol, q.effect, q.invert, i);
      WildcardIsExact(pol, q.effect, q.invert, j);
    }
  }

  /** The given class name, or ALL, covers class c, and the given permission name, or ALL, covers bit b of it. */
  predicate Covers(pol: Policy, cls: Option<string>, perm: Option<string>, c: nat, b: Bit) {
    && (if cls.Some? then FindClass(pol.classOrder, pol.classes, cls.value) == Some(c) else c in pol.classOrder)
    && (perm.Some? ==> cls.Some? && 1 <= c <= |pol.classes| && FindPerm(pol.classes[c - 1], perm.value) == Some(b))
  }

  lemma CoveredRequest(pol: Policy, cls: Option<string>, perm: Option<string>, c: nat, b: Bit, invert: bool) returns (q: Request)
    requires Covers(pol, cls, perm, c, b)
    ensures Resolve(pol, None, None, cls, perm, Kind.Allowed, invert) == Some(q)
    ensures q.types == pol.types && q.src.None? && q.tgt.None? && q.effect.Allowed? && q.invert == invert
    ensures U16(c) in ClassKeys(q.classOrder, q.cls) && (q.perm.Some? ==> q.perm.value == b)
  {
    q := Resolve(pol, None, None, cls, perm, Kind.Allowed, invert).value;
  }

  /** `ksu_allow` with ALL as source and target: who has a covered permission afterwards. */
  lemma AllowAllMeans(place: Place, pol: Policy, cls: Option<string>, perm: Option<string>, st: nat, tt: nat, c: nat, p: Bit)
    requires TypesOk(pol) && Indexed(pol) && |pol.typeStruct| < 0x1_0000 && IsType(pol, st) && IsType(pol, tt)
    requires Covers(pol, cls, perm, c, p)
    ensures var (pol', ok) := Apply(place, pol, Allow(None, None, cls, perm));
            && ok && TypesOk(pol')
            && (RuleGrants(pol', st, tt, c, p) <==>
                  RuleGrants(pol, st, tt, c, p) || (HasAttribute(pol, st) && HasAttribute(pol, tt)))
  {
    var q := CoveredRequest(pol, cls, perm, c, p, false);
    AllowAllPairs(pol, q, st, tt, c, p);
  }

  /** `ksu_deny` with ALL as source and target: only conditional rules still grant a covered permission. */
  lemma DenyAllMeans(place: Place, pol: Policy, cls: Option<string>, perm: Option<string>, st: nat, tt: nat, c: nat, p: Bit)
    requires TypesOk(pol) && Indexed(pol) && |pol.typeStruct| < 0x1_0000 && IsType(pol, st) && IsType(pol, tt)
    requires Covers(pol, cls, perm, c, p)
    ensures var (pol', ok) := Apply(place, pol, Deny(None, None, cls, perm));
            && ok && TypesOk(pol')
            && (RuleGrants(pol', st, tt, c, p) <==>
                  exists i, j :: i in pol.typeAttr[st - 1] && j in pol.typeAttr[tt - 1] && CondGrants(pol, i, j, c, p))
  {
    var q := CoveredRequest(pol, cls, perm, c, p, true);
    DenyAllPairs(pol, q, st, tt, c, p);
  }

  ghost predicate CondGrants(pol: Policy, i: nat, j: nat, c: nat, p: Bit) {
    p in CondOf(pol, i + 1, j + 1, c).allowed
  }

  // ----- new types -----

  /** The policy grown by one type without a bound; the old entries are untouched. */
  ghost predicate Grown(pol: Policy, pol': Policy) {
    && |pol.typeAttr| == |pol.typeStruct|
    && |pol'.typeStruct| == |pol'.typeAttr| == |pol.typeStruct| + 1
    && pol'.typeStruct[..|pol.typeStruct|] == pol.typeStruct
    && pol'.typeAttr[..|pol.typeStruct|] == pol.typeAttr
    && pol'.typeStruct[|pol.typeStruct|].bounds == 0
    && pol'.classes == pol.classes && pol'.rules == pol.rules && pol'.cond == pol.cond
    && pol'.roleDominates == pol.roleDominates && pol'.roleAllow == pol.roleAllow
    && pol'.processClass == pol.processClass && pol'.processTransPerms == pol.processTransPerms
  }

  lemma {:induction false} GrownBoundAt(pol: Policy, pol': Policy, t: nat, k: nat)
    requires Grown(pol, pol') && TypesOk(pol) && (t <= |pol.typeStruct| || k > 0)
    ensures BoundAt(pol', t, k) == BoundAt(pol, t, k)
    decreases k
  {
    if k > 0 {
      assert t <= |pol.typeStruct| ==> BoundOf(pol', t) == BoundOf(pol, t);
      GrownBoundAt(pol, pol', BoundOf(pol', t), k - 1);
    }
  }

  lemma GrownTypesOk(pol: Policy, pol': Policy)
    requires Grown(pol, pol') && TypesOk(pol)
    ensures TypesOk(pol')
    ensures forall t :: IsType(pol, t) ==> IsType(pol', t) && BoundOf(pol', t) == BoundOf(pol, t)
  {
    forall t: nat, k: nat | t != 0 && k != 0
      ensures BoundAt(pol', t, k) != t
    {
      GrownBoundAt(pol, pol', t, k);
    }
    forall t | IsType(pol, t)
      ensures BoundOf(pol', t) == BoundOf(pol, t)
    {
      assert pol'.typeStruct[..|pol.typeStruct|][t - 1] == pol.typeStruct[t - 1];
    }
  }

  /** Growing the type tables changes no decision between types that were there. */
  lemma {:induction false} GrownDecides(pol: Policy, pol': Policy, s: Context, t: Context, c: nat)
    requires Grown(pol, pol') && TypesOk(pol) && IsType(pol, s.typ) && IsType(pol, t.typ)
    ensures TypesOk(pol') && IsType(pol', s.typ) && IsType(pol', t.typ) && Decide(pol', s, t, c) == Decide(pol, s, t, c)
    decreases Rank(pol, s.typ)
  {
    GrownTypesOk(pol, pol');
    if 1 <= c <= |pol.classes| {
      forall p: Bit
        ensures Granted(pol', s, t, c, p) <==> Granted(pol, s, t, c, p)
      {
        GrownGrants(pol, pol', s, t, c, p);
      }
      if BoundOf(pol, s.typ) != 0 {
        RankDecreases(pol, s.typ);
        GrownDecides(pol, pol', LowerSource(pol, s), LowerTarget(pol, t), c);
      }
    }
  }

  lemma GrownGrants(pol: Policy, pol': Policy, s: Context, t: Context, c: nat, p: Bit)
    requires Grown(pol, pol') && TypesOk(pol) && TypesOk(pol') && 1 <= c <= |pol.classes|
    requires IsType(pol, s.typ) && IsType(pol, t.typ)
    ensures Granted(pol', s, t, c, p) <==> Granted(pol, s, t, c, p)
  {
    assert pol'.typeAttr[..|pol.typeStruct|][s.typ - 1] == pol.typeAttr[s.typ - 1];
    assert pol'.typeAttr[..|pol.typeStruct|][t.typ - 1] == pol.typeAttr[t.typ - 1];
    forall i: nat, j: nat
      ensures PairGrants(pol', i, j, c, p) <==> PairGrants(pol, i, j, c, p)
    {
    }
    assert forall con :: Violated(pol', s, t, con) == Violated(pol, s, t, con);
  }

  // ----- a type joining an attribute -----

  /** What the rules give the holders of one attribute bit. */
  /** The attribute bits of a type after type v joined attribute a. */
  function JoinedBits(pol: Policy, v: nat, a: nat, t: nat): set<nat>
    requires IsType(pol, t) && |pol.typeAttr| == |pol.typeStruct| && 1 <= a
  {
    pol.typeAttr[t - 1] + if t == v then {a - 1} else {}
  }

  lemma JoinedTypesOk(pol: Policy, v: nat, a: nat)
    requires TypesOk(pol) && IsType(pol, v) && 1 <= a
    ensures TypesOk(AddTypeAttributeRaw(pol, v, a))
  {
    var pol' := AddTypeAttributeRaw(pol, v, a);
    forall t: nat, k: nat
      ensures BoundAt(pol', t, k) == BoundAt(pol, t, k)
    {
      SameBounds(pol, pol', t, k);
    }
    assert forall t :: BoundOf(pol', t) == BoundOf(pol, t);
  }

  /** The rule stage after a join, for every source and target: v's pairs are those of its own bits and the attribute's. */
  lemma JoiningIsExact(pol: Policy, v: nat, a: nat, st: nat, tt: nat, c: nat, p: Bit)
    requires TypesOk(pol) && IsType(pol, v) && IsType(pol, st) && IsType(pol, tt) && 1 <= a
    ensures TypesOk(AddTypeAttributeRaw(pol, v, a))
    ensures RuleGrants(AddTypeAttributeRaw(pol, v, a), st, tt, c, p) <==>
            exists i, j :: i in JoinedBits(pol, v, a, st) && j in JoinedBits(pol, v, a, tt) && PairGrants(pol, i, j, c, p)
  {
    var pol' := AddTypeAttributeRaw(pol, v, a);
    JoinedTypesOk(pol, v, a);
    assert forall t :: IsType(pol, t) ==> pol'.typeAttr[t - 1] == JoinedBits(pol, v, a, t);
    assert forall i: nat, j: nat :: PairGrants(pol', i, j, c, p) == PairGrants(pol, i, j, c, p);
  }

  /** What one bit is granted towards a type, and what a type is granted towards one bit. */
  ghost predicate BitGrants(pol: Policy, b: nat, tt: nat, c: nat, p: Bit)
    requires TypesOk(pol) && IsType(pol, tt)
  {
    exists j :: j in pol.typeAttr[tt - 1] && PairGrants(pol, b, j, c, p)
  }

  ghost predicate GrantsBit(pol: Policy, st: nat, b: nat, c: nat, p: Bit)
    requires TypesOk(pol) && IsType(pol, st)
  {
    exists i :: i in pol.typeAttr[st - 1] && PairGrants(pol, i, b, c, p)
  }

  /** What a join adds: as source what the attribute is granted, as target what is granted towards it, and both at once. */
  lemma JoiningGains(pol: Policy, v: nat, a: nat, st: nat, tt: nat, c: nat, p: Bit)
    requires TypesOk(pol) && IsType(pol, v) && IsType(pol, st) && IsType(pol, tt) && 1 <= a
    ensures TypesOk(AddTypeAttributeRaw(pol, v, a))
    ensures RuleGrants(AddTypeAttributeRaw(pol, v, a), st, tt, c, p) <==>
            || RuleGrants(pol, st, tt, c, p)
            || (st == v && BitGrants(pol, a - 1, tt, c, p))
            || (tt == v && GrantsBit(pol, st, a - 1, c, p))
            || (st == tt == v && PairGrants(pol, a - 1, a - 1, c, p))
  {
    JoiningIsExact(pol, v, a, st, tt, c, p);
  }

  /** If no names-constraint lists the attribute, joining it takes no permission from any decision. */
  lemma {:induction false} JoiningTakesNothing(pol: Policy, v: nat, a: nat, s: Context, t: Context, c: nat)
    requires TypesOk(pol) && IsType(pol, v) && 1 <= a && IsType(pol, s.typ) && IsType(pol, t.typ)
    requires MarkClasses(pol.classes, pol.classOrder, v, a) == pol.classes
    ensures TypesOk(AddTypeAttributeRaw(pol, v, a)) && Decide(pol, s, t, c) <= Decide(AddTypeAttributeRaw(pol, v, a), s, t, c)
    decreases Rank(pol, s.typ)
  {
    var pol' := AddTypeAttributeRaw(pol, v, a);
    JoinedTypesOk(pol, v, a);
    if 1 <= c <= |pol.classes| {
      forall p: Bit | Granted(pol, s, t, c, p)
        ensures Granted(pol', s, t, c, p)
      {
        JoiningGains(pol, v, a, s.typ, t.typ, c, p);
        assert forall con :: Violated(pol', s, t, con) == Violated(pol, s, t, con);
      }
      if BoundOf(pol, s.typ) != 0 {
        RankDecreases(pol, s.typ);
        JoiningTakesNothing(pol, v, a, LowerSource(pol, s), LowerTarget(pol, t), c);
      }
    }
  }

  // ----- whole runs of commands -----

  function ApplyAll(place: Place, pol: Policy, cmds: seq<Command>): Policy {
    if cmds == [] then pol else Apply(place, ApplyAll(place, pol, cmds[..|cmds| - 1]), cmds[|cmds| - 1]).0
  }

  lemma CommandKeepsTypes(place: Place, pol: Policy, cmd: Command)
    requires Indexed(pol) && Complete(pol)
    ensures Indexed(Apply(place, pol, cmd).0) && Complete(Apply(place, pol, cmd).0)
  {
    match cmd
    case Rule(effect, invert, s, t, c, p) =>
      SameNames(pol, Apply(place, pol, cmd).0);
    case NewType(name, attr) =>
      AddTypeKeepsIndex(pol, place, name, false);
      AddTypeKeepsNames(pol, place, name, false);
      JoinKeepsTypes(AddType(pol, place, name, false), name, attr);
    case NewAttribute(name) =>
      AddTypeKeepsIndex(pol, place, name, true);
      AddTypeKeepsNames(pol, place, name, true);
    case TypeAttribute(name, attr) =>
      JoinKeepsTypes(pol, name, attr);
    case TypeState(name, permissive) =>
      SameNames(pol, Apply(place, pol, cmd).0);
  }

  lemma JoinKeepsTypes(pol: Policy, name: string, attr: string)
    requires Indexed(pol) && Complete(pol)
    ensures Indexed(AddTypeAttribute(pol, name, attr).0) && Complete(AddTypeAttribute(pol, name, attr).0)
  {
    FindTypeIn(pol.types, name);
    FindTypeIn(pol.types, attr);
    var t, a := FindType(pol.types, name), FindType(pol.types, attr);
    if AddTypeAttribute(pol, name, attr).1 {
      assert EntryOk(pol, TypeEntry(name, t.value)) && EntryOk(pol, TypeEntry(attr, a.value));
      AddTypeAttributeKeepsIndex(pol, t.value.value, a.value.value);
      AddTypeAttributeKeepsNames(pol, t.value.value, a.value.value);
    }
  }

  lemma SameNames(pol: Policy, pol': Policy)
    requires Indexed(pol) && Complete(pol)
    requires pol' == pol.(rules := pol'.rules, permissive := pol'.permissive)
    ensures Indexed(pol') && Complete(pol')
  {
    forall i | 0 <= i < |pol.typeStruct|
      ensures ValueOk(pol', i)
    {
      assert ValueOk(pol, i);
    }
    forall k | 0 <= k < |pol.classes|
      ensures Listed(pol', k) && ClassNamesOk(pol', pol'.classes[k])
    {
      assert Listed(pol, k);
      forall con, e | con in pol.classes[k].constraints && e in con.expr
        ensures NamesOk(pol', e)
      {
        assert NamesOk(pol, e);
        assert forall i: nat, a: nat :: HoldsAttribute(pol', i, a) == HoldsAttribute(pol, i, a);
      }
    }
  }

  /** The type tables stay a consistent index, and the names-constraints complete, under any commands. */
  lemma {:induction false} RunKeepsTypes(place: Place, pol: Policy, cmds: seq<Command>)
    requires Indexed(pol) && Complete(pol)
    ensures Indexed(ApplyAll(place, pol, cmds)) && Complete(ApplyAll(place, pol, cmds))
    decreases |cmds|
  {
    if cmds != [] {
      RunKeepsTypes(place, pol, cmds[..|cmds| - 1]);
      CommandKeepsTypes(place, ApplyAll(place, pol, cmds[..|cmds| - 1]), cmds[|cmds| - 1]);
    }
  }

  /** Decisions are defined after every command: bounds stay types, and no type comes to bound itself. */
  lemma CommandKeepsBounds(place: Place, pol: Policy, cmd: Command)
    requires TypesOk(pol)
    ensures TypesOk(Apply(place, pol, cmd).0)
  {
    match cmd
    case NewType(name, attr) =>
      AddTypeKeepsBounds(pol, place, name, false);
      JoinKeepsBounds(AddType(pol, place, name, false), name, attr);
    case NewAttribute(name) => AddTypeKeepsBounds(pol, place, name, true);
    case TypeAttribute(name, attr) => JoinKeepsBounds(pol, name, attr);
    case _ => SameTypesOk(pol, Apply(place, pol, cmd).0);
  }

  lemma AddTypeKeepsBounds(pol: Policy, place: Place, name: string, attribute: bool)
    requires TypesOk(pol)
    ensures TypesOk(AddType(pol, place, name, attribute))
  {
    if FindType(pol.types, name).None? {
      assert Grown(pol, AddType(pol, place, name, attribute));
      GrownTypesOk(pol, AddType(pol, place, name, attribute));
    }
  }

  lemma JoinKeepsBounds(pol: Policy, name: string, attr: string)
    requires TypesOk(pol)
    ensures TypesOk(AddTypeAttribute(pol, name, attr).0)
  {
    var t, a := FindType(pol.types, name), FindType(pol.types, attr);
    if AddTypeAttribute(pol, name, attr).1 {
      JoinedTypesOk(pol, t.value.value, a.value.value);
    }
  }

  lemma {:induction false} RunKeepsBounds(place: Place, pol: Policy, cmds: seq<Command>)
    requires TypesOk(pol)
    ensures TypesOk(ApplyAll(place, pol, cmds))
    decreases |cmds|
  {
    if cmds != [] {
      RunKeepsBounds(place, pol, cmds[..|cmds| - 1]);
      CommandKeepsBounds(place, ApplyAll(place, pol, cmds[..|cmds| - 1]), cmds[|cmds| - 1]);
    }
  }

  /** What survives: every old value keeps its datum and name, and no type loses an attribute. */
  ghost predicate Survived(pol: Policy, pol': Policy) {
    && |pol.typeStruct| <= |pol'.typeStruct| && |pol.typeName| <= |pol'.typeName| && |pol.typeAttr| <= |pol'.typeAttr|
    && pol'.typeStruct[..|pol.typeStruct|] == pol.typeStruct
    && pol'.typeName[..|pol.typeName|] == pol.typeName
    && (forall i :: 0 <= i < |pol.typeAttr| ==> pol.typeAttr[i] <= pol'.typeAttr[i])
  }

  lemma {:induction false} RunSurvives(place: Place, pol: Policy, cmds: seq<Command>)
    ensures Survived(pol, ApplyAll(place, pol, cmds))
    decreases |cmds|
  {
    if cmds != [] {
      var mid := ApplyAll(place, pol, cmds[..|cmds| - 1]);
      RunSurvives(place, pol, cmds[..|cmds| - 1]);
      CommandSurvives(place, mid, cmds[|cmds| - 1]);
      SurvivedTrans(pol, mid, ApplyAll(place, pol, cmds));
    }
  }

  lemma CommandSurvives(place: Place, pol: Policy, cmd: Command)
    ensures Survived(pol, Apply(place, pol, cmd).0)
  {
    match cmd
    case NewType(name, attr) =>
      var mid := AddType(pol, place, name, false);
      AddTypeSurvives(pol, place, name, false);
      JoinSurvives(mid, name, attr);
      SurvivedTrans(pol, mid, AddTypeAttribute(mid, name, attr).0);
    case NewAttribute(name) => AddTypeSurvives(pol, place, name, true);
    case TypeAttribute(name, attr) => JoinSurvives(pol, name, attr);
    case _ =>
  }

  lemma AddTypeSurvives(pol: Policy, place: Place, name: string, attribute: bool)
    ensures Survived(pol, AddType(pol, place, name, attribute))
  {
  }

  lemma JoinSurvives(pol: Policy, name: string, attr: string)
    ensures Survived(pol, AddTypeAttribute(pol, name, attr).0)
  {
  }

  lemma SurvivedTrans(a: Policy, b: Policy, c: Policy)
    requires Survived(a, b) && Survived(b, c)
    ensures Survived(a, c)
  {
    assert c.typeStruct[..|b.typeStruct|][..|a.typeStruct|] == c.typeStruct[..|a.typeStruct|];
    assert c.typeName[..|b.typeName|][..|a.typeName|] == c.typeName[..|a.typeName|];
  }

  /** Commands that only give: no deny, no change to an existing type's attributes. */
  predicate OnlyGives(cmd: Command) {
    || (cmd.Rule? && cmd.effect.IsAv() && !(cmd.effect.Allowed? && cmd.invert))
    || cmd.NewAttribute?
    || cmd.TypeState?
  }

  lemma RuleAllowsMore(place: Place, pol: Policy, cmd: Command)
    requires OnlyGives(cmd) && cmd.Rule?
    ensures AllowsMore(pol, Apply(place, pol, cmd).0)
  {
    var q := Resolve(pol, cmd.src, cmd.tgt, cmd.cls, cmd.perm, cmd.effect, cmd.invert);
    if q.Some? {
      if cmd.effect.Allowed? {
        AllowAllowsMore(pol, q.value.Targets(), q.value.perm);
      } else {
        AuditAllowsSame(pol, q.value.Targets(), q.value.perm, cmd.invert);
      }
    }
  }

  lemma GivingStep(place: Place, pol: Policy, cmd: Command, s: Context, t: Context, c: nat)
    requires OnlyGives(cmd) && TypesOk(pol) && IsType(pol, s.typ) && IsType(pol, t.typ)
    ensures var pol' := Apply(place, pol, cmd).0;
            TypesOk(pol') && IsType(pol', s.typ) && IsType(pol', t.typ) && Decide(pol, s, t, c) <= Decide(pol', s, t, c)
  {
    var pol' := Apply(place, pol, cmd).0;
    match cmd
    case Rule(_, _, _, _, _, _) =>
      RuleAllowsMore(place, pol, cmd);
      DecideIsMonotone(pol, pol', s, t, c);
    case NewAttribute(name) =>
      if FindType(pol.types, name).None? {
        assert Grown(pol, pol');
        GrownDecides(pol, pol', s, t, c);
      }
    case TypeState(name, permissive) =>
      StateDecides(pol, pol', s, t, c);
    case _ =>
  }

  /** The permissive map is not read by the decision itself. */
  lemma {:induction false} StateDecides(pol: Policy, pol': Policy, s: Context, t: Context, c: nat)
    requires TypesOk(pol) && pol' == pol.(permissive := pol'.permissive) && IsType(pol, s.typ) && IsType(pol, t.typ)
    ensures TypesOk(pol') && Decide(pol', s, t, c) == Decide(pol, s, t, c)
    decreases Rank(pol, s.typ)
  {
    SameTypesOk(pol, pol');
    if 1 <= c <= |pol.classes| {
      forall p: Bit
        ensures Granted(pol', s, t, c, p) <==> Granted(pol, s, t, c, p)
      {
        assert forall i: nat, j: nat :: PairGrants(pol', i, j, c, p) == PairGrants(pol, i, j, c, p);
        assert forall con :: Violated(pol', s, t, con) == Violated(pol, s, t, con);
      }
      if BoundOf(pol, s.typ) != 0 {
        RankDecreases(pol, s.typ);
        StateDecides(pol, pol', LowerSource(pol, s), LowerTarget(pol, t), c);
      }
    }
  }

  /** Over a whole run of giving commands no decision loses a permission. */
  lemma {:induction false} GivingRun(place: Place, pol: Policy, cmds: seq<Command>, s: Context, t: Context, c: nat)
    requires forall cmd :: cmd in cmds ==> OnlyGives(cmd)
    requires TypesOk(pol) && IsType(pol, s.typ) && IsType(pol, t.typ)
    ensures var pol' := ApplyAll(place, pol, cmds);
            TypesOk(pol') && IsType(pol', s.typ) && IsType(pol', t.typ) && Decide(pol, s, t, c) <= Decide(pol', s, t, c)
    decreases |cmds|
  {
    if cmds != [] {
      GivingRun(place, pol, cmds[..|cmds| - 1], s, t, c);
      GivingStep(place, ApplyAll(place, pol, cmds[..|cmds| - 1]), cmds[|cmds| - 1], s, t, c);
    }
  }

  /** A run of giving commands takes nothing from what user space is told is allowed. */
  lemma GivingRunForUsers(place: Place, pol: Policy, cmds: seq<Command>, sids: map<nat, Context>, allowUnknown: bool,
                          ssid: nat, tsid: nat, c: nat)
    requires forall cmd :: cmd in cmds ==> OnlyGives(cmd)
    requires TypesOk(pol) && SidsOk(pol, sids)
    ensures var pol' := ApplyAll(place, pol, cmds);
            && TypesOk(pol') && SidsOk(pol', sids)
            && UserDecide(pol, sids, allowUnknown, ssid, tsid, c).0 <= UserDecide(pol', sids, allowUnknown, ssid, tsid, c).0
  {
    var pol' := ApplyAll(place, pol, cmds);
    RunKeepsBounds(place, pol, cmds);
    RunSurvives(place, pol, cmds);
    if ssid in sids && tsid in sids {
      GivingRun(place, pol, cmds, sids[ssid], sids[tsid], c);
    }
  }

  /** `ksu_permissive` and `ksu_enforce` flip the flag of exactly the named type, and no permission. */
  lemma TypeStateIsExact(place: Place, pol: Policy, name: string, state: bool, sids: map<nat, Context>,
                         allowUnknown: bool, ssid: nat, tsid: nat, c: nat)
    requires TypesOk(pol) && SidsOk(pol, sids)
    ensures var (pol', ok) := Apply(place, pol, TypeState(Some(name), state));
            var t := FindType(pol.types, name);
            && ok == t.Some? && TypesOk(pol') && SidsOk(pol', sids)
            && UserDecide(pol', sids, allowUnknown, ssid, tsid, c) ==
               (UserDecide(pol, sids, allowUnknown, ssid, tsid, c).0,
                if ok && ssid in sids && sids[ssid].typ == t.value.value then state
                else UserDecide(pol, sids, allowUnknown, ssid, tsid, c).1)
  {
    var pol' := Apply(place, pol, TypeState(Some(name), state)).0;
    SameTypesOk(pol, pol');
    if ssid in sids && tsid in sids {
      StateDecides(pol, pol', sids[ssid], sids[tsid], c);
    }
  }
}
