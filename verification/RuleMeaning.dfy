/**
 What a rule command means, from its names to the stored values (kernel/non_gki/sepolicy.c:232-359): stated over the
 type and class tables and the rule map alone.
 */
module RuleMeaning {
  import opened AccessVectors
  import opened Options
  import opened RuleTables
  import opened Constraints
  import opened Policies
  import opened RuleEditor
  import opened TypeTables

  // ----- symbol tables -----

  /** With different names, a name is found exactly as its entry says. */
  lemma {:induction false} FindTypeIff(types: seq<TypeEntry>, name: string, d: TypeDatum)
    requires forall i, j :: 0 <= i < j < |types| ==> types[i].name != types[j].name
    ensures FindType(types, name) == Some(d) <==> TypeEntry(name, d) in types
  {
    if types != [] {
      var rest := types[1..];
      assert forall i :: 0 <= i < |rest| ==> rest[i] == types[i + 1];
      FindTypeIff(rest, name, d);
    }
  }

  predicate IsClass(classes: seq<ClassDatum>, k: nat, name: string) {
    1 <= k <= |classes| && classes[k - 1].name == name
  }

  /** A class is found if and only if a listed class has the name, and what is found is such a class. */
  lemma {:induction false} FindClassIff(order: seq<nat>, classes: seq<ClassDatum>, name: string)
    ensures FindClass(order, classes, name).Some? ==>
              FindClass(order, classes, name).value in order && IsClass(classes, FindClass(order, classes, name).value, name)
    ensures FindClass(order, classes, name).None? ==> forall i :: 0 <= i < |order| ==> !IsClass(classes, order[i], name)
  {
    if order != [] && !IsClass(classes, order[0], name) {
      FindClassIff(order[1..], classes, name);
      if FindClass(order, classes, name).None? {
        forall i | 0 <= i < |order|
          ensures !IsClass(classes, order[i], name)
        {
          assert i > 0 ==> order[i] == order[1..][i - 1];
        }
      }
    }
  }

  // ----- what the arguments name -----

  /** A type of the table that ALL stands for: an attribute, or any type when rules are taken away. */
  predicate IsAllType(pol: Policy, effect: Kind, invert: bool, h: nat) {
    exists e :: e in pol.types && h == e.datum.value % 0x1_0000 &&
                (e.datum.attribute || (effect.AuditDeny? && !invert) || (!effect.AuditDeny? && invert))
  }

  /** The key half h is one that the type argument stands for: the type of that name, or any type or attribute of ALL. */
  predicate NamesType(pol: Policy, name: Option<string>, effect: Kind, invert: bool, h: nat) {
    match name
    case Some(n) => FindType(pol.types, n).Some? && h == FindType(pol.types, n).value.value % 0x1_0000
    case None =>
      IsAllType(pol, effect, invert, h)
  }

  predicate NamesClass(pol: Policy, name: Option<string>, h: nat) {
    match name
    case Some(n) =>
      FindClass(pol.classOrder, pol.classes, n).Some? && h == FindClass(pol.classOrder, pol.classes, n).value % 0x1_0000
    case None => exists k :: k in pol.classOrder && h == k % 0x1_0000
  }

  predicate Known(pol: Policy, s: Option<string>, t: Option<string>, c: Option<string>) {
    && (s.Some? ==> FindType(pol.types, s.value).Some?)
    && (t.Some? ==> FindType(pol.types, t.value).Some?)
    && (c.Some? ==> FindClass(pol.classOrder, pol.classes, c.value).Some?)
  }

  /** The permission's bit: of the class itself, or of the common permissions it inherits. */
  predicate NamesBit(pol: Policy, c: Option<string>, p: string, b: Bit) {
    c.Some? &&
    var k := FindClass(pol.classOrder, pol.classes, c.value);
    && k.Some? && 1 <= k.value <= |pol.classes|
    && var cls := pol.classes[k.value - 1];
       if p in cls.perms then cls.perms[p] == b else p in cls.common && cls.common[p] == b
  }

  /** Every argument that is given must be known, and a permission needs a class that has it. */
  predicate Accepted(pol: Policy, s: Option<string>, t: Option<string>, c: Option<string>, p: Option<string>) {
    Known(pol, s, t, c) && (p.Some? ==> exists b: Bit :: NamesBit(pol, c, p.value, b))
  }

  /** The new value of a rule that is named. */
  ghost predicate Becomes(pol: Policy, c: Option<string>, p: Option<string>, invert: bool, before: AV, after: AV) {
    match p
    case None => after == if invert then {} else ALL_ONES
    case Some(n) => exists b: Bit :: NamesBit(pol, c, n, b) && after == if invert then before - {b} else before + {b}
  }

  /** The rules a command names. */
  predicate NamesKey(pol: Policy, s: Option<string>, t: Option<string>, c: Option<string>, effect: Kind, invert: bool, key: RuleKey) {
    && key.kind == effect && NamesType(pol, s, effect, invert, key.source) && NamesType(pol, t, effect, invert, key.target)
    && NamesClass(pol, c, key.cls)
  }

  lemma KnownBit(pol: Policy, c: string, p: string)
    requires FindClass(pol.classOrder, pol.classes, c).Some?
    ensures 1 <= FindClass(pol.classOrder, pol.classes, c).value <= |pol.classes|
    ensures var cls := pol.classes[FindClass(pol.classOrder, pol.classes, c).value - 1];
            forall b: Bit :: FindPerm(cls, p) == Some(b) <==> NamesBit(pol, Some(c), p, b)
  {
    FindClassIsValue(pol.classOrder, pol.classes, c);
  }

  lemma RefusedCommands(place: Place, pol: Policy, effect: Kind, invert: bool, s: Option<string>, t: Option<string>,
                        c: Option<string>, p: Option<string>)
    ensures Resolve(pol, s, t, c, p, effect, invert).Some? <==> Accepted(pol, s, t, c, p)
  {
    if c.Some? && FindClass(pol.classOrder, pol.classes, c.value).Some? && p.Some? {
      KnownBit(pol, c.value, p.value);
      var cls := pol.classes[FindClass(pol.classOrder, pol.classes, c.value).value - 1];
      if FindPerm(cls, p.value).Some? { assert NamesBit(pol, c, p.value, FindPerm(cls, p.value).value); }
    }
  }

  lemma ResolvedFields(pol: Policy, q: Request, effect: Kind, invert: bool, s: Option<string>, t: Option<string>,
                       c: Option<string>, p: Option<string>)
    requires Resolve(pol, s, t, c, p, effect, invert) == Some(q)
    ensures q.types == pol.types && q.classOrder == pol.classOrder && q.effect == effect && q.invert == invert
    ensures q.src == (if s.Some? then FindType(pol.types, s.value) else None) && (s.Some? ==> q.src.Some?)
    ensures q.tgt == (if t.Some? then FindType(pol.types, t.value) else None) && (t.Some? ==> q.tgt.Some?)
    ensures q.cls == (if c.Some? then FindClass(pol.classOrder, pol.classes, c.value) else None) && (c.Some? ==> q.cls.Some?)
  {
  }

  lemma NamedType(pol: Policy, name: Option<string>, d: Option<TypeDatum>, effect: Kind, invert: bool, h: nat)
    requires d == (if name.Some? then FindType(pol.types, name.value) else None) && (name.Some? ==> d.Some?)
    ensures h in TypeKeys(pol.types, d, effect, invert) <==> NamesType(pol, name, effect, invert, h)
  {
  }

  lemma NamedClass(pol: Policy, name: Option<string>, d: Option<nat>, h: nat)
    requires d == (if name.Some? then FindClass(pol.classOrder, pol.classes, name.value) else None) && (name.Some? ==> d.Some?)
    ensures h in ClassKeys(pol.classOrder, d) <==> NamesClass(pol, name, h)
  {
  }

  lemma TargetsAre(q: Request, key: RuleKey)
    ensures key in q.Targets() <==>
            && key.kind == q.effect && key.source in TypeKeys(q.types, q.src, q.effect, q.invert)
            && key.target in TypeKeys(q.types, q.tgt, q.effect, q.invert) && key.cls in ClassKeys(q.classOrder, q.cls)
  {
  }

  lemma NamedKeys(pol: Policy, q: Request, effect: Kind, invert: bool, s: Option<string>, t: Option<string>,
                  c: Option<string>, p: Option<string>, key: RuleKey)
    requires Resolve(pol, s, t, c, p, effect, invert) == Some(q)
    ensures key in q.Targets() <==> NamesKey(pol, s, t, c, effect, invert, key)
  {
    ResolvedFields(pol, q, effect, invert, s, t, c, p);
    TargetsAre(q, key);
    NamedType(pol, s, q.src, effect, invert, key.source);
    NamedType(pol, t, q.tgt, effect, invert, key.target);
    NamedClass(pol, c, q.cls, key.cls);
  }

  /**
   A rule command, for any names and any arguments left out: it succeeds exactly when what is given is known, and then
   gives every rule it names its new value, and leaves every other rule and the rest of the policy as they are.
   */
  lemma RuleCommandMeans(place: Place, pol: Policy, effect: Kind, invert: bool, s: Option<string>, t: Option<string>,
                         c: Option<string>, p: Option<string>, key: RuleKey)
    requires effect.IsAv()
    ensures var (pol', ok) := Apply(place, pol, Rule(effect, invert, s, t, c, p));
            && (ok <==> Accepted(pol, s, t, c, p))
            && (!ok ==> pol' == pol)
            && pol' == pol.(rules := pol'.rules)
            && (ok && NamesKey(pol, s, t, c, effect, invert, key) ==>
                  Becomes(pol, c, p, invert, ValueAt(pol.rules, key), ValueAt(pol'.rules, key)))
            && (!NamesKey(pol, s, t, c, effect, invert, key) ==> ValueAt(pol'.rules, key) == ValueAt(pol.rules, key))
  {
    RefusedCommands(place, pol, effect, invert, s, t, c, p);
    var r := Resolve(pol, s, t, c, p, effect, invert);
    if r.Some? {
      var q := r.value;
      NamedKeys(pol, q, effect, invert, s, t, c, p, key);
      EditAllAt(pol.rules, q.Targets(), q.perm, q.invert, key);
      if p.Some? {
        KnownBit(pol, c.value, p.value);
        assert NamesBit(pol, c, p.value, q.perm.value);
      }
    }
  }

  /** With all four names given: one rule, from the first named type to the second. */
  lemma NamedRuleMeans(place: Place, pol: Policy, effect: Kind, invert: bool, s: string, t: string, c: string, p: string,
                       u: TypeDatum, v: TypeDatum, k: nat, b: Bit, key: RuleKey)
    requires effect.IsAv() && FindType(pol.types, s) == Some(u) && FindType(pol.types, t) == Some(v)
    requires FindClass(pol.classOrder, pol.classes, c) == Some(k) && 1 <= k <= |pol.classes|
    requires FindPerm(pol.classes[k - 1], p) == Some(b)
    ensures var (pol', ok) := Apply(place, pol, Rule(effect, invert, Some(s), Some(t), Some(c), Some(p)));
            && ok && pol' == pol.(rules := pol'.rules)
            && ValueAt(pol'.rules, key) ==
               if key == RuleKey(u.value % 0x1_0000, v.value % 0x1_0000, k % 0x1_0000, effect)
               then (if invert then ValueAt(pol.rules, key) - {b} else ValueAt(pol.rules, key) + {b})
               else ValueAt(pol.rules, key)
  {
    RuleCommandMeans(place, pol, effect, invert, Some(s), Some(t), Some(c), Some(p), key);
    KnownBit(pol, c, p);
    assert NamesBit(pol, Some(c), p, b);
  }

  /** With the source left out: the rules from every such type to the named one. */
  lemma AllSourcesRuleMeans(place: Place, pol: Policy, effect: Kind, invert: bool, t: string, c: string, p: string,
                            v: TypeDatum, k: nat, b: Bit, key: RuleKey)
    requires effect.IsAv() && FindType(pol.types, t) == Some(v)
    requires FindClass(pol.classOrder, pol.classes, c) == Some(k) && 1 <= k <= |pol.classes|
    requires FindPerm(pol.classes[k - 1], p) == Some(b)
    ensures var (pol', ok) := Apply(place, pol, Rule(effect, invert, None, Some(t), Some(c), Some(p)));
            && ok && pol' == pol.(rules := pol'.rules)
            && ValueAt(pol'.rules, key) ==
               if && key.kind == effect && IsAllType(pol, effect, invert, key.source)
                  && key.target == v.value % 0x1_0000 && key.cls == k % 0x1_0000
               then (if invert then ValueAt(pol.rules, key) - {b} else ValueAt(pol.rules, key) + {b})
               else ValueAt(pol.rules, key)
  {
    RuleCommandMeans(place, pol, effect, invert, None, Some(t), Some(c), Some(p), key);
    KnownBit(pol, c, p);
    assert NamesBit(pol, Some(c), p, b);
  }

  /** With the target left out: the rules from the named type to every such type. */
  lemma AllTargetsRuleMeans(place: Place, pol: Policy, effect: Kind, invert: bool, s: string, c: string, p: string,
                            u: TypeDatum, k: nat, b: Bit, key: RuleKey)
    requires effect.IsAv() && FindType(pol.types, s) == Some(u)
    requires FindClass(pol.classOrder, pol.classes, c) == Some(k) && 1 <= k <= |pol.classes|
    requires FindPerm(pol.classes[k - 1], p) == Some(b)
    ensures var (pol', ok) := Apply(place, pol, Rule(effect, invert, Some(s), None, Some(c), Some(p)));
            && ok && pol' == pol.(rules := pol'.rules)
            && ValueAt(pol'.rules, key) ==
               if && key.kind == effect && key.source == u.value % 0x1_0000
                  && IsAllType(pol, effect, invert, key.target) && key.cls == k % 0x1_0000
               then (if invert then ValueAt(pol.rules, key) - {b} else ValueAt(pol.rules, key) + {b})
               else ValueAt(pol.rules, key)
  {
    RuleCommandMeans(place, pol, effect, invert, Some(s), None, Some(c), Some(p), key);
    KnownBit(pol, c, p);
    assert NamesBit(pol, Some(c), p, b);
  }

  /** Without a permission: all bits, or none. */
  lemma WholeRuleMeans(place: Place, pol: Policy, effect: Kind, invert: bool, s: string, t: string, c: string,
                       u: TypeDatum, v: TypeDatum, k: nat, key: RuleKey)
    requires effect.IsAv() && FindType(pol.types, s) == Some(u) && FindType(pol.types, t) == Some(v)
    requires FindClass(pol.classOrder, pol.classes, c) == Some(k)
    ensures var (pol', ok) := Apply(place, pol, Rule(effect, invert, Some(s), Some(t), Some(c), None));
            && ok && pol' == pol.(rules := pol'.rules)
            && (forall b: Bit :: b in ValueAt(pol'.rules, key) <==>
                  if key == RuleKey(u.value % 0x1_0000, v.value % 0x1_0000, k % 0x1_0000, effect) then !invert
                  else b in ValueAt(pol.rules, key))
  {
    RuleCommandMeans(place, pol, effect, invert, Some(s), Some(t), Some(c), None, key);
    forall b: Bit
      ensures b in ALL_ONES
    {
      AllOnesIsTop({b});
    }
  }

  /** Beside the rules, an edit changes the stored length alone: 16 bytes for each rule more or fewer. */
  lemma LengthMeans(a: Snapshot, b: Snapshot, S: set<RuleKey>, perm: Option<Bit>, invert: bool)
    requires Edited(a, b, S, perm, invert) && a.nel == |a.contents| && a.len >= 16 * a.nel
    ensures b.nel == |b.contents| && b.len - 16 * |b.contents| == a.len - 16 * |a.contents|
    ensures b.contents == EditAll(a.contents, S, perm, invert)
  {
  }

  // ----- the command that gives a type an attribute -----

  /** What joining type value v to attribute value a makes of one expression: a list of that attribute gains the type. */
  ghost predicate Marked(before: Expr, after: Expr, v: nat, a: nat) {
    if before.Names? && a - 1 in before.typeNames
    then after.Names? && after == before.(names := after.names) && after.names == before.names + {v - 1}
    else after == before
  }

  lemma {:induction false} MarkExprsAt(es: seq<Expr>, v: nat, a: nat, i: nat)
    requires i < |es|
    ensures |MarkExprs(es, v, a)| == |es| && Marked(es[i], MarkExprs(es, v, a)[i], v, a)
  {
    if i > 0 {
      MarkExprsAt(es[1..], v, a, i - 1);
    } else if |es| > 1 {
      MarkExprsAt(es[1..], v, a, 0);
    }
  }

  lemma {:induction false} MarkConstraintsAt(cs: seq<Constraint>, v: nat, a: nat, j: nat)
    requires j < |cs|
    ensures |MarkConstraints(cs, v, a)| == |cs|
    ensures MarkConstraints(cs, v, a)[j] == Constraint(cs[j].permissions, MarkExprs(cs[j].expr, v, a))
  {
    if j > 0 {
      MarkConstraintsAt(cs[1..], v, a, j - 1);
    } else if |cs| > 1 {
      MarkConstraintsAt(cs[1..], v, a, 0);
    }
  }

  /** An ordinary type may join an attribute, in this order of the arguments; every other pair of names is refused. */
  predicate CanJoin(pol: Policy, name: string, attr: string) {
    && FindType(pol.types, name).Some? && !FindType(pol.types, name).value.attribute
    && FindType(pol.types, attr).Some? && FindType(pol.types, attr).value.attribute
  }

  /** Joining gives one attribute set one bit and leaves every other set, and everything but the classes, as it is. */
  lemma JoinMeans(place: Place, pol: Policy, name: string, attr: string, x: nat)
    requires Indexed(pol)
    ensures var (pol', ok) := Apply(place, pol, TypeAttribute(name, attr));
            && (ok <==> CanJoin(pol, name, attr))
            && (!ok ==> pol' == pol)
            && pol' == pol.(typeAttr := pol'.typeAttr, classes := pol'.classes)
            && |pol'.typeAttr| == |pol.typeAttr| && |pol'.classes| == |pol.classes|
            && (ok && x < |pol.typeAttr| ==>
                  pol'.typeAttr[x] == if x + 1 == FindType(pol.types, name).value.value
                                      then pol.typeAttr[x] + {FindType(pol.types, attr).value.value - 1}
                                      else pol.typeAttr[x])
  {
    JoinAccepted(pol, name, attr);
    if CanJoin(pol, name, attr) {
      var v, a := FindType(pol.types, name).value.value, FindType(pol.types, attr).value.value;
      if pol.classes != [] { MarkClassesAt(pol.classes, pol.classOrder, v, a, 0); } else { MarkNoClasses(pol.classOrder, v, a); }
    }
  }

  lemma JoinAccepted(pol: Policy, name: string, attr: string)
    requires Indexed(pol)
    ensures CanJoin(pol, name, attr) ==>
              && 1 <= FindType(pol.types, name).value.value <= |pol.typeAttr|
              && 1 <= FindType(pol.types, attr).value.value
              && AddTypeAttribute(pol, name, attr) ==
                 (AddTypeAttributeRaw(pol, FindType(pol.types, name).value.value, FindType(pol.types, attr).value.value), true)
    ensures !CanJoin(pol, name, attr) ==> AddTypeAttribute(pol, name, attr) == (pol, false)
  {
    FindTypeIn(pol.types, name);
    FindTypeIn(pol.types, attr);
    if CanJoin(pol, name, attr) {
      assert EntryOk(pol, TypeEntry(name, FindType(pol.types, name).value));
      assert EntryOk(pol, TypeEntry(attr, FindType(pol.types, attr).value));
    }
  }

  /**
   In the classes, joining changes only names-constraints that list the attribute, and there it adds only the type: each
   expression i of each constraint j of each class k is either marked or as it was.
   */
  lemma JoinMarks(place: Place, pol: Policy, name: string, attr: string, k: nat, j: nat, i: nat)
    requires Indexed(pol) && CanJoin(pol, name, attr)
    requires k < |pol.classes| && j < |pol.classes[k].constraints| && i < |pol.classes[k].constraints[j].expr|
    ensures var pol' := Apply(place, pol, TypeAttribute(name, attr)).0;
            && |pol'.classes| == |pol.classes|
            && var was, now := pol.classes[k], pol'.classes[k];
               && now == was.(constraints := now.constraints) && |now.constraints| == |was.constraints|
               && now.constraints[j].permissions == was.constraints[j].permissions
               && |now.constraints[j].expr| == |was.constraints[j].expr|
               && var e, e' := was.constraints[j].expr[i], now.constraints[j].expr[i];
                  if k + 1 in pol.classOrder
                  then Marked(e, e', FindType(pol.types, name).value.value, FindType(pol.types, attr).value.value)
                  else e' == e
  {
    JoinAccepted(pol, name, attr);
    var v, a := FindType(pol.types, name).value.value, FindType(pol.types, attr).value.value;
    MarkClassesAt(pol.classes, pol.classOrder, v, a, k);
    MarkConstraintsAt(pol.classes[k].constraints, v, a, j);
    MarkExprsAt(pol.classes[k].constraints[j].expr, v, a, i);
  }

  // ----- the command that sets the state of types -----

  /** One named type, or with ALL every type and attribute of the table, becomes permissive or enforcing; no other does. */
  lemma StateMeans(place: Place, pol: Policy, name: Option<string>, permissive: bool, x: nat)
    ensures var (pol', ok) := Apply(place, pol, TypeState(name, permissive));
            var named := if name.Some? then FindType(pol.types, name.value).Some? && x == FindType(pol.types, name.value).value.value
                         else exists e :: e in pol.types && e.datum.value == x;
            && (ok <==> name.None? || FindType(pol.types, name.value).Some?)
            && pol' == pol.(permissive := pol'.permissive)
            && (x in pol'.permissive <==> if named then permissive else x in pol.permissive)
  {
  }
}
