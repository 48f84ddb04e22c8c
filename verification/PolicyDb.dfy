/** The policy under edit: `struct policydb` as kernel/non_gki/sepolicy.c changes it in place. */
module PolicyDbs {
  import opened AccessVectors
  import opened Options
  import opened RuleTables
  import opened Constraints
  import opened Policies
  import opened RuleEditor
  import opened TypeTables
  import opened PolicyTheorems

  /** `flex_array` growth: a bigger array, the old elements copied one by one, and the new one put last. */
  method Grow<T>(old_fa: seq<T>, x: T) returns (new_fa: seq<T>)
    ensures new_fa == old_fa + [x]
  {
    var fa := new T[|old_fa| + 1](_ => x);
    for j := 0 to |old_fa|
      invariant fa[..j] == old_fa[..j] && fa[|old_fa|] == x
    {
      fa[j] := old_fa[j];
    }
    new_fa := fa[..];
  }

  /** The expressions of one constraint, one by one. */
  method MarkExpressions(es: seq<Expr>, v: nat, a: nat) returns (r: seq<Expr>)
    ensures r == MarkExprs(es, v, a)
  {
    r := es;
    for i := 0 to |es|
      invariant |r| == |es| && r[i..] == es[i..] && r[..i] == MarkExprs(es[..i], v, a)
    {
      assert r[i] == es[i];
      if es[i].Names? && a - 1 in es[i].typeNames {
        r := r[i := es[i].(names := es[i].names + {v - 1})];
      }
      assert r[i] == MarkExpr(es[i], v, a) && r[i + 1..] == es[i + 1..];
      MarkExprsNext(es, i, v, a);
      assert r[..i + 1] == r[..i] + [MarkExpr(es[i], v, a)];
    }
    assert es[..|es|] == es;
  }

  lemma {:induction false} MarkExprsNext(es: seq<Expr>, i: nat, v: nat, a: nat)
    requires i < |es|
    ensures MarkExprs(es[..i + 1], v, a) == MarkExprs(es[..i], v, a) + [MarkExpr(es[i], v, a)]
    decreases i
  {
    assert es[..i + 1][1..] == es[1..][..i];
    if i > 0 {
      assert es[..i][1..] == es[1..][..i - 1];
      MarkExprsNext(es[1..], i - 1, v, a);
    }
  }

  lemma {:induction false} MarkConstraintsNext(cs: seq<Constraint>, i: nat, v: nat, a: nat)
    requires i < |cs|
    ensures MarkConstraints(cs[..i + 1], v, a) ==
            MarkConstraints(cs[..i], v, a) + [cs[i].(expr := MarkExprs(cs[i].expr, v, a))]
    decreases i
  {
    assert cs[..i + 1][1..] == cs[1..][..i];
    if i > 0 {
      assert cs[..i][1..] == cs[1..][..i - 1];
      MarkConstraintsNext(cs[1..], i - 1, v, a);
    }
  }

  /** The constraints of one class, one by one. */
  method MarkConstraintList(cs: seq<Constraint>, v: nat, a: nat) returns (r: seq<Constraint>)
    ensures r == MarkConstraints(cs, v, a)
  {
    r := cs;
    for i := 0 to |cs|
      invariant |r| == |cs| && r[i..] == cs[i..] && r[..i] == MarkConstraints(cs[..i], v, a)
    {
      var es := MarkExpressions(cs[i].expr, v, a);
      r := r[i := cs[i].(expr := es)];
      assert r[i + 1..] == cs[i + 1..];
      MarkConstraintsNext(cs, i, v, a);
      assert r[..i + 1] == r[..i] + [cs[i].(expr := es)];
    }
    assert cs[..|cs|] == cs;
  }

  lemma {:induction false} SetInAllNext(maps: seq<set<nat>>, i: nat, bit: nat)
    requires i < |maps|
    ensures SetInAll(maps[..i + 1], bit) == SetInAll(maps[..i], bit) + [maps[i] + {bit}]
    decreases i
  {
    assert maps[..i + 1][1..] == maps[1..][..i];
    if i > 0 {
      assert maps[..i][1..] == maps[1..][..i - 1];
      SetInAllNext(maps[1..], i - 1, bit);
    }
  }

  /** What a policy database keeps in place of the maps and values of a policy. */
  ghost function ViewOf(fixed: Policy, types: seq<TypeEntry>, typeStruct: seq<TypeDatum>, typeAttr: seq<set<nat>>,
                        typeName: seq<string>, classes: seq<ClassDatum>, roleTypes: seq<set<nat>>,
                        permissive: set<nat>, rules: map<RuleKey, AV>): Policy
  {
    fixed.(types := types, typeStruct := typeStruct, typeAttr := typeAttr, typeName := typeName, classes := classes,
           roleTypes := roleTypes, permissive := permissive, rules := rules)
  }

  /** Either the names resolve and all the rules they stand for are edited, or nothing is. */
  ghost predicate RuleApplied(q: Option<Request>, a: Snapshot, b: Snapshot, success: bool) {
    && success == q.Some?
    && (success ==> Edited(a, b, q.value.Targets(), q.value.perm, q.value.invert))
    && (!success ==> b == a)
  }

  class PolicyDb {
    const te_avtab: RuleTable
    const fixed: Policy               // class table, roles and conditional rules, which no edit changes
    const place: Place                // the hash function of p_types
    var len: nat                      // the length of the serialized policy
    var types: seq<TypeEntry>         // p_types, in hash order
    var nprim: nat                    // p_types.nprim
    var typeStruct: seq<TypeDatum>    // type_val_to_struct_array
    var typeAttr: seq<set<nat>>       // type_attr_map_array
    var typeName: seq<string>         // sym_val_to_name[SYM_TYPES]
    var classes: seq<ClassDatum>      // class_val_to_struct
    var roleTypes: seq<set<nat>>      // role_val_to_struct[i]->types
    var permissive: set<nat>          // permissive_map

    /** A policy with these rules; `ksu_dup_policydb` makes its copy like this. */
    constructor (te_avtab: RuleTable, len: nat, place: Place, pol: Policy)
      requires te_avtab.Valid() && te_avtab.contents == pol.rules && Indexed(pol)
      ensures this.te_avtab == te_avtab && this.len == len && this.place == place && Valid() && Counted() && View() == pol
    {
      this.te_avtab, this.len, this.place, fixed := te_avtab, len, place, pol;
      types, nprim, typeStruct, typeAttr := pol.types, |pol.typeStruct|, pol.typeStruct, pol.typeAttr;
      typeName, classes, roleTypes, permissive := pol.typeName, pol.classes, pol.roleTypes, pol.permissive;
    }

    /** A second database that reads the same, around a copy of the rule table. */
    constructor Copy(te_avtab: RuleTable, db: PolicyDb)
      requires te_avtab.Valid() && te_avtab.contents == db.te_avtab.contents
      ensures this.te_avtab == te_avtab && this.len == db.len && this.place == db.place && Valid() && View() == db.View()
      ensures Counted() == db.Counted()
    {
      this.te_avtab, fixed, place, len := te_avtab, db.fixed, db.place, db.len;
      types, nprim, typeStruct, typeAttr := db.types, db.nprim, db.typeStruct, db.typeAttr;
      typeName, classes, roleTypes, permissive := db.typeName, db.classes, db.roleTypes, db.permissive;
    }

    ghost function View(): Policy
      reads this, te_avtab
    {
      ViewOf(fixed, types, typeStruct, typeAttr, typeName, classes, roleTypes, permissive, te_avtab.contents)
    }

    ghost function Rules(): Table
      reads te_avtab
    {
      te_avtab.State()
    }

    ghost predicate Valid()
      reads te_avtab
    {
      te_avtab.Valid()
    }

    /** The counter of primary types is the size of the arrays. */
    ghost predicate Counted()
      reads this
    {
      nprim == |typeStruct|
    }

    ghost function Now(): Snapshot
      requires Valid()
      reads this`len, te_avtab
    {
      SnapshotOf(Rules(), len)
    }

    /** `get_avtab_node` for an access-vector key: the key's node, made with its default value if missing. */
    method GetAvtabNode(k: RuleKey) returns (node: Ptr, ghost at: nat)
      requires Valid() && k.kind.IsAv()
      modifies this`len, te_avtab
      ensures Valid() && NodeEnsured(old(Now()), Now(), k)
      ensures NodeOf(te_avtab.hash, Rules(), k, ValueAt(old(te_avtab.contents), k), node, at)
    {
      node, at := te_avtab.FindRule(k);
      if node == 0 {
        ghost var t := Rules();
        node, at := te_avtab.Insert(k, Bits(DefaultAv(k.kind)));
        InsertTouches(te_avtab.hash, t, at, node, k, DefaultAv(k.kind), len);
        len := len + ENTRY_SIZE;
      }
    }

    /** The node's bits are overwritten in place. */
    method StoreBits(node: Ptr, v: AV, ghost k: RuleKey, ghost w: AV, ghost at: nat)
      requires Valid() && NodeOf(te_avtab.hash, Rules(), k, w, node, at) && k.kind.IsAv()
      modifies te_avtab
      ensures Valid() && NodeStored(old(Now()), Now(), k, v)
      ensures NodeOf(te_avtab.hash, Rules(), k, v, node, at)
    {
      StoreTouches(te_avtab.hash, Rules(), k, w, node, at, v, len);
      te_avtab.Store(node, v, te_avtab.Slot(k), at);
    }

    /** `remove_avtab_node` for a linked access-vector node. */
    method RemoveAvtabNode(node: Ptr, ghost k: RuleKey, ghost v: AV, ghost at: nat) returns (found: bool)
      requires Valid() && NodeOf(te_avtab.hash, Rules(), k, v, node, at) && k.kind.IsAv()
      modifies this`len, te_avtab
      ensures found && Valid() && NodeRemoved(old(Now()), Now(), k)
    {
      ghost var t, before, was := Rules(), Now(), len;
      ghost var i, p;
      found, i, p := te_avtab.Remove(node);
      assert te_avtab.chains[te_avtab.Slot(k)] in te_avtab.chains;
      if found {
        if len >= ENTRY_SIZE {
          len := len - ENTRY_SIZE;
        }
        ghost var after := Now();
        assert NodeRemoved(before, after, k) by {
          RemoveTouches(te_avtab.hash, t, k, node, i, p, was);
        }
      }
    }

    /** Edit a node that exists, and drop it when it is left with its default value. */
    method EditNode(node: Ptr, perm: Option<Bit>, invert: bool, ghost k: RuleKey, ghost w: AV, ghost at: nat)
      returns (success: bool)
      requires Valid() && NodeOf(te_avtab.hash, Rules(), k, w, node, at) && k.kind.IsAv()
      modifies this`len, te_avtab
      ensures success && Valid() && NodeEdited(old(Now()), Now(), k, NewBits(w, perm, invert))
    {
      ghost var a := Now();
      var v := NewBits(te_avtab.mem[node].datum.av, perm, invert);
      StoreBits(node, v, k, w, at);
      ghost var s := Now();
      success := true;
      if v == DefaultAv(te_avtab.mem[node].key.kind) {
        success := RemoveAvtabNode(node, k, v, at);
      }
      StoredThenRemoved(a, s, Now(), k, v);
    }

    /** The innermost step of `add_rule_raw`: edit the rule of one key. */
    method EditRule(k: RuleKey, perm: Option<Bit>, invert: bool) returns (success: bool)
      requires Valid() && k.kind.IsAv()
      modifies this`len, te_avtab
      ensures success && Valid() && RuleEdited(old(Now()), Now(), k, perm, invert)
    {
      ghost var a := Now();
      var node;
      ghost var at;
      if invert && k.kind != AuditDeny {
        node, at := te_avtab.FindRule(k);
        if node == 0 {
          AbsentIsEdited(a, k, perm);
          return true;
        }
      } else {
        node, at := GetAvtabNode(k);
      }
      ghost var s := Now();
      success := EditNode(node, perm, invert, k, ValueAt(a.contents, k), at);
      EnsuredThenEdited(a, s, Now(), k, perm, invert);
    }

    /**
     `add_rule_raw`: a missing source, target or class is expanded in a loop that calls back for every
     member of its wildcard; with all three given, the one rule is edited.
     */
    method AddRuleRaw(q: Request) returns (success: bool)
      requires Valid() && q.effect.IsAv()
      modifies this`len, te_avtab
      ensures success && Valid() && Edited(old(Now()), Now(), q.Targets(), q.perm, q.invert)
      decreases q.src.None?, q.tgt.None?, q.cls.None?
    {
      if q.src.None? || q.tgt.None? || q.cls.None? {
        success := Expand(q);
      } else {
        var key := RuleKey(U16(q.src.value.value), U16(q.tgt.value.value), U16(q.cls.value), q.effect);
        OneKey(key.source, key.target, key.cls, q.effect);
        success := EditRule(key, q.perm, q.invert);
      }
    }

    /** The loop over all types, or all classes, that stands for a missing argument. */
    method Expand(q: Request) returns (success: bool)
      requires Valid() && q.effect.IsAv() && (q.src.None? || q.tgt.None? || q.cls.None?)
      modifies this`len, te_avtab
      ensures success && Valid() && Edited(old(Now()), Now(), q.Targets(), q.perm, q.invert)
      decreases q.src.None?, q.tgt.None?, q.cls.None?, 1
    {
      success := true;
      ghost var a, done := Now(), q.After(0);
      LoopStarts(q, a);
      var n := q.Turns();
      for i := 0 to n
        invariant success && Valid() && done == q.After(i) && Edited(a, Now(), done, q.perm, q.invert)
      {
        var ok := ExpandOne(q, i, a, done);
        done := q.After(i + 1);
        success := success && ok;
      }
      LoopEnds(q);
    }

    /** One turn of a wildcard loop; `a` is what was there when the loop began. */
    method ExpandOne(q: Request, i: nat, ghost a: Snapshot, ghost done: set<RuleKey>) returns (success: bool)
      requires Valid() && q.effect.IsAv() && (q.src.None? || q.tgt.None? || q.cls.None?)
      requires i < q.Turns() && done == q.After(i) && Edited(a, Now(), done, q.perm, q.invert)
      modifies this`len, te_avtab
      ensures success && Valid() && Edited(a, Now(), q.After(i + 1), q.perm, q.invert)
      decreases q.src.None?, q.tgt.None?, q.cls.None?, 0
    {
      success := true;
      ghost var b := Now();
      if TurnTaken(q, i) {
        success := AddRuleRaw(Turn(q, i));
      }
      ghost var c := Now();
      LoopTurns(q, a, b, c, i);
    }

    /** `add_rule`: names are looked up, then the rules of all that they stand for are edited. */
    method AddRule(s: Option<string>, t: Option<string>, c: Option<string>, p: Option<string>, effect: Kind, invert: bool)
      returns (success: bool)
      requires Valid() && effect.IsAv()
      modifies this`len, te_avtab
      ensures Valid()
      ensures RuleApplied(Resolve(old(View()), s, t, c, p, effect, invert), old(Now()), Now(), success)
      ensures View() == Apply(place, old(View()), Rule(effect, invert, s, t, c, p)).0
    {
      var q := ResolveNames(s, t, c, p, effect, invert);
      if q.None? {
        return false;
      }
      success := AddRuleRaw(q.value);
    }

    method ResolveNames(s: Option<string>, t: Option<string>, c: Option<string>, p: Option<string>, effect: Kind, invert: bool)
      returns (q: Option<Request>)
      ensures q == Resolve(View(), s, t, c, p, effect, invert)
    {
      ghost var pol := View();
      assert pol.types == types && pol.classOrder == fixed.classOrder && pol.classes == classes;
      var src, tgt, cls, perm := None, None, None, None;
      if s.Some? {
        src := FindType(types, s.value);
        if src.None? { return None; }
      }
      if t.Some? {
        tgt := FindType(types, t.value);
        if tgt.None? { return None; }
      }
      if c.Some? {
        cls := FindClass(fixed.classOrder, classes, c.value);
        if cls.None? { return None; }
      }
      if p.Some? {
        if c.None? { return None; }
        FindClassIsValue(fixed.classOrder, classes, c.value);
        perm := FindPerm(classes[cls.value - 1], p.value);
        if perm.None? { return None; }
      }
      q := Some(Request(types, fixed.classOrder, src, tgt, cls, perm, effect, invert));
    }

    /** `add_type` on a kernel whose arrays are flex arrays. */
    method NewTypeDatum(name: string, attribute: bool) returns (success: bool)
      requires Counted()
      modifies this`types, this`nprim, this`typeStruct, this`typeAttr, this`typeName, this`roleTypes
      ensures success && Counted() && View() == AddType(old(View()), place, name, attribute)
    {
      if FindType(types, name).Some? {
        return true;
      }
      ghost var was := View();
      nprim := nprim + 1;
      var value := nprim;
      var datum := TypeDatum(value, true, attribute, 0);
      types := Paste(types, place(types, name) % (|types| + 1), TypeEntry(name, datum));
      GrowArrays(datum, name);
      SetInRoles(value - 1);
      success := true;
      assert View() == Added(was, place, name, datum);
    }

    /** The three arrays that are indexed by type values. */
    method GrowArrays(datum: TypeDatum, name: string)
      requires datum.value > 0
      modifies this`typeAttr, this`typeStruct, this`typeName
      ensures typeAttr == old(typeAttr) + [{datum.value - 1}] && typeStruct == old(typeStruct) + [datum]
      ensures typeName == old(typeName) + [name]
    {
      typeAttr := Grow(typeAttr, {datum.value - 1});
      typeStruct := Grow(typeStruct, datum);
      typeName := Grow(typeName, name);
    }

    method SetInRoles(bit: nat)
      modifies this`roleTypes
      ensures roleTypes == SetInAll(old(roleTypes), bit)
    {
      ghost var was := roleTypes;
      for i := 0 to |roleTypes|
        invariant |roleTypes| == |was| && roleTypes[i..] == was[i..] && roleTypes[..i] == SetInAll(was[..i], bit)
      {
        roleTypes := roleTypes[i := roleTypes[i] + {bit}];
        SetInAllNext(was, i, bit);
        assert roleTypes[..i + 1] == roleTypes[..i] + [was[i] + {bit}];
      }
      assert was[..|was|] == was;
    }

    /** `add_typeattribute_raw` */
    method AddAttributeRaw(v: nat, a: nat)
      requires 1 <= v <= |typeAttr| && 1 <= a
      modifies this`typeAttr, this`classes
      ensures View() == AddTypeAttributeRaw(old(View()), v, a)
    {
      ghost var was, before := classes, View();
      typeAttr := typeAttr[v - 1 := typeAttr[v - 1] + {a - 1}];
      var order := fixed.classOrder;
      for i := 0 to |order|
        invariant classes == MarkClasses(was, order[..i], v, a)
        invariant typeAttr == before.typeAttr[v - 1 := before.typeAttr[v - 1] + {a - 1}]
      {
        assert order[..i + 1][..i] == order[..i];
        if 1 <= order[i] <= |classes| {
          var k := order[i] - 1;
          var cs := MarkConstraintList(classes[k].constraints, v, a);
          classes := classes[k := classes[k].(constraints := cs)];
        }
      }
      assert order[..|order|] == order && classes == MarkClasses(was, order, v, a);
    }

    /** `add_typeattribute` */
    method AddAttribute(name: string, attr: string) returns (success: bool)
      requires Indexed(View())
      modifies this`typeAttr, this`classes
      ensures success == AddTypeAttribute(old(View()), name, attr).1
      ensures View() == AddTypeAttribute(old(View()), name, attr).0
    {
      var type_d := FindType(types, name);
      if type_d.None? || type_d.value.attribute {
        return false;
      }
      var attr_d := FindType(types, attr);
      if attr_d.None? || !attr_d.value.attribute {
        return false;
      }
      assert EntryOk(View(), TypeEntry(name, type_d.value)) && EntryOk(View(), TypeEntry(attr, attr_d.value)) by {
        FindTypeIn(types, name);
        FindTypeIn(types, attr);
      }
      AddAttributeRaw(type_d.value.value, attr_d.value.value);
      success := true;
    }

    /** `set_type_state` */
    method SetState(name: Option<string>, permissive_: bool) returns (success: bool)
      modifies this`permissive
      ensures success == SetTypeState(old(View()), name, permissive_).1
      ensures View() == SetTypeState(old(View()), name, permissive_).0
    {
      if name.None? {
        ghost var was := permissive;
        for i := 0 to |types|
          invariant permissive == SetStates(was, types[..i], permissive_)
        {
          assert types[..i + 1] == types[..i] + [types[i]];
          SetBit(types[i].datum.value, permissive_);
        }
        assert types[..|types|] == types;
        return true;
      }
      var t := FindType(types, name.value);
      if t.None? {
        return false;
      }
      SetBit(t.value.value, permissive_);
      success := true;
    }

    /** `ebitmap_set_bit` of the permissive map. */
    method SetBit(bit: nat, value: bool)
      modifies this`permissive
      ensures permissive == if value then old(permissive) + {bit} else old(permissive) - {bit}
    {
      permissive := if value then permissive + {bit} else permissive - {bit};
    }

    /** `ksu_type` */
    method NewJoinedType(name: string, attr: string) returns (success: bool)
      requires Counted() && Indexed(View())
      modifies this`types, this`nprim, this`typeStruct, this`typeAttr, this`typeName, this`roleTypes, this`classes
      ensures Counted() && success == Apply(place, old(View()), NewType(name, attr)).1
      ensures View() == Apply(place, old(View()), NewType(name, attr)).0
    {
      AddTypeKeepsIndex(View(), place, name, false);
      success := NewTypeDatum(name, false);
      if success {
        success := AddAttribute(name, attr);
      }
    }

    /** One command of the editor's interface (`ksu_allow`, `ksu_type` and so on). */
    method Perform(cmd: Command) returns (success: bool)
      requires Valid() && Counted() && Indexed(View()) && Complete(View()) && (cmd.Rule? ==> cmd.effect.IsAv())
      modifies this, te_avtab
      ensures Valid() && Counted() && Indexed(View()) && Complete(View())
      ensures View() == Apply(place, old(View()), cmd).0 && success == Apply(place, old(View()), cmd).1
    {
      ghost var was := View();
      match cmd {
        case Rule(effect, invert, s, t, c, p) =>
          success := AddRule(s, t, c, p, effect, invert);
        case NewType(name, attr) =>
          success := NewJoinedType(name, attr);
        case NewAttribute(name) =>
          success := NewTypeDatum(name, true);
        case TypeAttribute(name, attr) =>
          success := AddAttribute(name, attr);
        case TypeState(name, state) =>
          success := SetState(name, state);
      }
      CommandKeepsTypes(place, was, cmd);
    }

    /**
     Allow, then deny, of a permission the rule did not have: the table and the length are what they were if and only if
     the rule was not stored empty.
     */
    method AllowThenDeny(k: RuleKey, perm: Bit)
      requires Valid() && k.kind.Allowed? && perm !in ValueAt(te_avtab.contents, k)
      modifies this`len, te_avtab
      ensures Valid() && (Now() == old(Now()) <==> !EmptyRule(old(te_avtab.contents), k))
      ensures EmptyRule(old(te_avtab.contents), k) ==> te_avtab.contents == old(te_avtab.contents) - {k}
    {
      ghost var a := Now();
      var _ := EditRule(k, Some(perm), false);
      ghost var b := Now();
      var _ := EditRule(k, Some(perm), true);
      AllowThenDenyRestores(te_avtab.hash, a, b, Now(), k, perm);
    }
  }

  /** The permissive map after a walk over some types. */
  function SetStates(permissive: set<nat>, types: seq<TypeEntry>, value: bool): set<nat> {
    var all := set e | e in types :: e.datum.value;
    if value then permissive + all else permissive - all
  }
}
