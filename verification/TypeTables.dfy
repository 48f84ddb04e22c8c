/**
 Names, types and attributes of the policy under edit (kernel/non_gki/sepolicy.c:232-281, 700-1016):
 what each command does to the policy, as a function, and what every command keeps.
 */
module TypeTables {
  import opened AccessVectors
  import opened Options
  import opened RuleTables
  import opened Constraints
  import opened Policies
  import opened RuleEditor

  // ----- symbol lookup -----

  function FindType(types: seq<TypeEntry>, name: string): Option<TypeDatum> {
    if types == [] then None
    else if types[0].name == name then Some(types[0].datum)
    else FindType(types[1..], name)
  }

  /** The value of the class with this name. */
  function FindClass(order: seq<nat>, classes: seq<ClassDatum>, name: string): Option<nat> {
    if order == [] then None
    else if 1 <= order[0] <= |classes| && classes[order[0] - 1].name == name then Some(order[0])
    else FindClass(order[1..], classes, name)
  }

  lemma {:induction false} FindClassIsValue(order: seq<nat>, classes: seq<ClassDatum>, name: string)
    ensures var r := FindClass(order, classes, name); r.Some? ==> 1 <= r.value <= |classes|
  {
    if order != [] { FindClassIsValue(order[1..], classes, name); }
  }

  /** A permission of the class itself, or of the common it inherits. */
  function FindPerm(cls: ClassDatum, name: string): Option<Bit> {
    if name in cls.perms then Some(cls.perms[name])
    else if name in cls.common then Some(cls.common[name])
    else None
  }

  lemma {:induction false} FindTypeIn(types: seq<TypeEntry>, name: string)
    ensures var r := FindType(types, name); r.Some? ==> TypeEntry(name, r.value) in types
    ensures FindType(types, name).None? ==> forall e :: e in types ==> e.name != name
  {
    if types != [] { FindTypeIn(types[1..], name); }
  }

  /** `add_rule`: look up the given names; a missing name is a wildcard, an unknown one an error. */
  function Resolve(pol: Policy, s: Option<string>, t: Option<string>, c: Option<string>, p: Option<string>,
                   effect: Kind, invert: bool): Option<Request>
  {
    var src := if s.Some? then FindType(pol.types, s.value) else None;
    var tgt := if t.Some? then FindType(pol.types, t.value) else None;
    var cls := if c.Some? then FindClass(pol.classOrder, pol.classes, c.value) else None;
    if (s.Some? && src.None?) || (t.Some? && tgt.None?) || (c.Some? && cls.None?) then None
    else if p.None? then Some(Request(pol.types, pol.classOrder, src, tgt, cls, None, effect, invert))
    else if c.None? then None
    else
      FindClassIsValue(pol.classOrder, pol.classes, c.value);
      var perm := FindPerm(pol.classes[cls.value - 1], p.value);
      if perm.None? then None
      else Some(Request(pol.types, pol.classOrder, src, tgt, cls, perm, effect, invert))
  }

  // ----- the commands -----

  /** The commands of the editor that this model covers; None stands for ALL. */
  datatype Command =
    | Rule(effect: Kind, invert: bool, src: Option<string>, tgt: Option<string>, cls: Option<string>, perm: Option<string>)
    | NewType(name: string, attr: string)
    | NewAttribute(name: string)
    | TypeAttribute(name: string, attr: string)
    | TypeState(type_: Option<string>, permissive: bool)

  /** Where the hash table of types puts a new name. */
  type Place = (seq<TypeEntry>, string) -> nat

  function AddType(pol: Policy, place: Place, name: string, attribute: bool): Policy {
    if FindType(pol.types, name).Some? then pol
    else Added(pol, place, name, TypeDatum(|pol.typeStruct| + 1, true, attribute, 0))
  }

  /** The policy with a new type: in the table, in all arrays, and in every role. */
  function Added(pol: Policy, place: Place, name: string, datum: TypeDatum): Policy
    requires datum.value > 0
  {
    pol.(types := Paste(pol.types, place(pol.types, name) % (|pol.types| + 1), TypeEntry(name, datum)),
         typeStruct := pol.typeStruct + [datum],
         typeAttr := pol.typeAttr + [{datum.value - 1}],
         typeName := pol.typeName + [name],
         roleTypes := SetInAll(pol.roleTypes, datum.value - 1))
  }

  function SetInAll(maps: seq<set<nat>>, bit: nat): seq<set<nat>> {
    if maps == [] then [] else [maps[0] + {bit}] + SetInAll(maps[1..], bit)
  }

  /** Give the constraint names that stand for an attribute one more type. */
  function MarkExpr(e: Expr, v: nat, a: nat): Expr {
    if e.Names? && a - 1 in e.typeNames then e.(names := e.names + {v - 1}) else e
  }

  function MarkExprs(es: seq<Expr>, v: nat, a: nat): seq<Expr> {
    if es == [] then [] else [MarkExpr(es[0], v, a)] + MarkExprs(es[1..], v, a)
  }

  function MarkConstraints(cs: seq<Constraint>, v: nat, a: nat): seq<Constraint> {
    if cs == [] then [] else [cs[0].(expr := MarkExprs(cs[0].expr, v, a))] + MarkConstraints(cs[1..], v, a)
  }

  /** The classes with every class of the hash table marked. */
  function MarkClasses(classes: seq<ClassDatum>, order: seq<nat>, v: nat, a: nat): seq<ClassDatum>
    decreases |order|
  {
    if order == [] then classes
    else
      var i := order[|order| - 1];
      var before := MarkClasses(classes, order[..|order| - 1], v, a);
      if 1 <= i <= |before|
      then before[i - 1 := before[i - 1].(constraints := MarkConstraints(before[i - 1].constraints, v, a))]
      else before
  }

  /** `add_typeattribute_raw` for a type and an attribute value. */
  function AddTypeAttributeRaw(pol: Policy, v: nat, a: nat): Policy
    requires 1 <= v <= |pol.typeAttr| && 1 <= a
  {
    pol.(typeAttr := pol.typeAttr[v - 1 := pol.typeAttr[v - 1] + {a - 1}],
         classes := MarkClasses(pol.classes, pol.classOrder, v, a))
  }

  function AddTypeAttribute(pol: Policy, name: string, attr: string): (Policy, bool) {
    var t, a := FindType(pol.types, name), FindType(pol.types, attr);
    if t.None? || t.value.attribute || a.None? || !a.value.attribute then (pol, false)
    else if 1 <= t.value.value <= |pol.typeAttr| && 1 <= a.value.value
    then (AddTypeAttributeRaw(pol, t.value.value, a.value.value), true)
    else (pol, false)
  }

  /** `set_type_state`; the permissive map is indexed by the value itself. */
  function SetTypeState(pol: Policy, name: Option<string>, permissive: bool): (Policy, bool) {
    if name.None? then
      var all := set e | e in pol.types :: e.datum.value;
      (pol.(permissive := if permissive then pol.permissive + all else pol.permissive - all), true)
    else
      var t := FindType(pol.types, name.value);
      if t.None? then (pol, false)
      else (pol.(permissive := if permissive then pol.permissive + {t.value.value} else pol.permissive - {t.value.value}), true)
  }

  function ApplyRule(pol: Policy, q: Request): Policy {
    pol.(rules := EditAll(pol.rules, q.Targets(), q.perm, q.invert))
  }

  /** One command: the policy after it, and whether it reports success. */
  function Apply(place: Place, pol: Policy, cmd: Command): (Policy, bool) {
    match cmd
    case Rule(effect, invert, s, t, c, p) =>
      var q := Resolve(pol, s, t, c, p, effect, invert);
      if q.None? then (pol, false) else (ApplyRule(pol, q.value), true)
    case NewType(name, attr) => AddTypeAttribute(AddType(pol, place, name, false), name, attr)
    case NewAttribute(name) => (AddType(pol, place, name, true), true)
    case TypeAttribute(name, attr) => AddTypeAttribute(pol, name, attr)
    case TypeState(name, permissive) => SetTypeState(pol, name, permissive)
  }

  // ----- the type index -----

  /** A table entry agrees with the arrays: its value is in range, and a primary entry is what they hold. */
  predicate EntryOk(pol: Policy, e: TypeEntry)
    requires |pol.typeName| == |pol.typeStruct|
  {
    && 1 <= e.datum.value <= |pol.typeStruct|
    && (e.datum.attribute ==> e.datum.primary)
    && (e.datum.primary ==>
          (pol.typeStruct[e.datum.value - 1] == e.datum && pol.typeName[e.datum.value - 1] == e.name))
  }

  /** For the value i + 1, datum, name, table entry and attribute set agree; the type is in its own set. */
  ghost predicate ValueOk(pol: Policy, i: nat)
    requires i < |pol.typeStruct| == |pol.typeAttr| == |pol.typeName|
  {
    && pol.typeStruct[i].value == i + 1 && pol.typeStruct[i].primary
    && TypeEntry(pol.typeName[i], pol.typeStruct[i]) in pol.types
    && i in pol.typeAttr[i]
    && (forall b :: b in pol.typeAttr[i] ==> b < |pol.typeStruct|)
  }

  ghost predicate Indexed(pol: Policy) {
    && |pol.typeStruct| == |pol.typeAttr| == |pol.typeName|
    && (forall e :: e in pol.types ==> EntryOk(pol, e))
    && (forall i :: 0 <= i < |pol.typeStruct| ==> ValueOk(pol, i))
    && (forall i, j :: 0 <= i < j < |pol.types| ==> pol.types[i].name != pol.types[j].name)
  }

  /** An ordinary type (bit i) that holds an attribute (bit a). */
  predicate HoldsAttribute(pol: Policy, i: nat, a: nat) {
    && i < |pol.typeStruct| && !pol.typeStruct[i].attribute && i < |pol.typeAttr| && a in pol.typeAttr[i]
    && a < |pol.typeStruct| && pol.typeStruct[a].attribute
  }

  /** A names-constraint lists every ordinary type that holds one of its attributes. */
  ghost predicate NamesOk(pol: Policy, e: Expr) {
    e.Names? ==> forall i: nat, a: nat :: HoldsAttribute(pol, i, a) && a in e.typeNames ==> i in e.names
  }

  ghost predicate ClassNamesOk(pol: Policy, cls: ClassDatum) {
    forall con, e :: con in cls.constraints && e in con.expr ==> NamesOk(pol, e)
  }

  /** All classes are in the class table, and all their names-constraints are complete. */
  ghost predicate Complete(pol: Policy) {
    && (forall v :: v in pol.classOrder ==> 1 <= v <= |pol.classes|)
    && (forall k :: 0 <= k < |pol.classes| ==> Listed(pol, k) && ClassNamesOk(pol, pol.classes[k]))
  }

  predicate Listed(pol: Policy, k: nat) {
    k + 1 in pol.classOrder
  }

  // ----- what a new type keeps -----

  lemma PasteIn<T>(s: seq<T>, p: nat, x: T)
    requires p <= |s|
    ensures forall y :: y in Paste(s, p, x) <==> y == x || y in s
  {
    forall y | y in s
      ensures y in Paste(s, p, x)
    {
      var j :| 0 <= j < |s| && s[j] == y;
      PasteAt(s, p, x, if j < p then j else j + 1);
    }
    PasteAt(s, p, x, p);
  }

  lemma AddTypeKeepsIndex(pol: Policy, place: Place, name: string, attribute: bool)
    requires Indexed(pol)
    ensures Indexed(AddType(pol, place, name, attribute))
  {
    if FindType(pol.types, name).None? {
      var pol' := AddType(pol, place, name, attribute);
      var p, n := place(pol.types, name) % (|pol.types| + 1), |pol.typeStruct|;
      var e := TypeEntry(name, pol'.typeStruct[n]);
      PasteIn(pol.types, p, e);
      FindTypeIn(pol.types, name);
      NewTypeValues(pol, pol', e);
      PasteKeepsNames(pol.types, p, e);
    }
  }

  lemma NewTypeValues(pol: Policy, pol': Policy, e: TypeEntry)
    requires Indexed(pol) && e.datum == TypeDatum(|pol.typeStruct| + 1, true, e.datum.attribute, 0)
    requires pol'.typeStruct == pol.typeStruct + [e.datum] && pol'.typeName == pol.typeName + [e.name]
    requires pol'.typeAttr == pol.typeAttr + [{|pol.typeStruct|}]
    requires forall d :: d in pol'.types <==> d == e || d in pol.types
    ensures forall d :: d in pol'.types ==> EntryOk(pol', d)
    ensures forall i :: 0 <= i < |pol'.typeStruct| ==> ValueOk(pol', i)
  {
    forall d | d in pol'.types
      ensures EntryOk(pol', d)
    {
      if d in pol.types { assert EntryOk(pol, d); }
    }
    forall i | 0 <= i < |pol'.typeStruct|
      ensures ValueOk(pol', i)
    {
      if i < |pol.typeStruct| { assert ValueOk(pol, i); }
    }
  }

  lemma PasteKeepsNames(types: seq<TypeEntry>, p: nat, e: TypeEntry)
    requires p <= |types| && forall d :: d in types ==> d.name != e.name
    requires forall i, j :: 0 <= i < j < |types| ==> types[i].name != types[j].name
    ensures var after := Paste(types, p, e);
            forall i, j :: 0 <= i < j < |after| ==> after[i].name != after[j].name
  {
    var after := Paste(types, p, e);
    forall i, j | 0 <= i < j < |after|
      ensures after[i].name != after[j].name
    {
      PasteAt(types, p, e, i);
      PasteAt(types, p, e, j);
    }
  }

  lemma AddTypeKeepsNames(pol: Policy, place: Place, name: string, attribute: bool)
    requires Indexed(pol) && Complete(pol)
    ensures Complete(AddType(pol, place, name, attribute))
  {
    var pol' := AddType(pol, place, name, attribute);
    forall i: nat, a: nat | HoldsAttribute(pol', i, a)
      ensures HoldsAttribute(pol, i, a)
    {
      if i < |pol.typeStruct| { assert ValueOk(pol, i); }
    }
    forall k | 0 <= k < |pol.classes|
      ensures Listed(pol', k) && ClassNamesOk(pol', pol.classes[k])
    {
      assert Listed(pol, k);
      forall con, e | con in pol.classes[k].constraints && e in con.expr
        ensures NamesOk(pol', e)
      {
        assert NamesOk(pol, e);
      }
    }
  }

  lemma {:induction false} FindPasted(types: seq<TypeEntry>, p: nat, e: TypeEntry, name: string)
    requires p <= |types| && FindType(types, e.name).None?
    ensures FindType(Paste(types, p, e), name) == if name == e.name then Some(e.datum) else FindType(types, name)
  {
    if p == 0 {
      assert Paste(types, p, e)[1..] == types;
    } else {
      assert Paste(types, p, e)[1..] == Paste(types[1..], p - 1, e);
      FindPasted(types[1..], p - 1, e, name);
    }
  }

  lemma {:induction false} SetInAllAt(maps: seq<set<nat>>, bit: nat, i: nat)
    requires i < |maps|
    ensures |SetInAll(maps, bit)| == |maps| && SetInAll(maps, bit)[i] == maps[i] + {bit}
  {
    if i > 0 {
      SetInAllAt(maps[1..], bit, i - 1);
    } else if |maps| > 1 {
      SetInAllAt(maps[1..], bit, 0);
    }
  }

  /** A new type is found by its name, with the next value; all other names are found as before; every role has it. */
  lemma AddedIsFound(pol: Policy, place: Place, name: string, attribute: bool, other: string, role: nat)
    ensures var pol' := AddType(pol, place, name, attribute);
            var was := FindType(pol.types, name);
            && FindType(pol'.types, name) ==
               (if was.Some? then was else Some(TypeDatum(|pol.typeStruct| + 1, true, attribute, 0)))
            && (other != name ==> FindType(pol'.types, other) == FindType(pol.types, other))
            && |pol'.roleTypes| == |pol.roleTypes|
            && (role < |pol.roleTypes| ==>
                  pol'.roleTypes[role] == pol.roleTypes[role] + if was.Some? then {} else {|pol.typeStruct|})
  {
    if FindType(pol.types, name).None? {
      var p, e := place(pol.types, name) % (|pol.types| + 1), TypeEntry(name, TypeDatum(|pol.typeStruct| + 1, true, attribute, 0));
      FindPasted(pol.types, p, e, name);
      FindPasted(pol.types, p, e, other);
      if pol.roleTypes != [] { SetInAllAt(pol.roleTypes, |pol.typeStruct|, if role < |pol.roleTypes| then role else 0); }
    }
  }

  // ----- what a new attribute of a type keeps -----

  lemma {:induction false} MarkExprsIn(es: seq<Expr>, v: nat, a: nat, e': Expr)
    requires e' in MarkExprs(es, v, a)
    ensures exists e :: e in es && e' == MarkExpr(e, v, a)
  {
    if e' == MarkExpr(es[0], v, a) {
      assert es[0] in es;
    } else {
      MarkExprsIn(es[1..], v, a, e');
      var e :| e in es[1..] && e' == MarkExpr(e, v, a);
      assert e in es;
    }
  }

  lemma {:induction false} MarkConstraintsIn(cs: seq<Constraint>, v: nat, a: nat, c': Constraint)
    requires c' in MarkConstraints(cs, v, a)
    ensures exists c :: c in cs && c' == c.(expr := MarkExprs(c.expr, v, a))
  {
    if c' == cs[0].(expr := MarkExprs(cs[0].expr, v, a)) {
      assert cs[0] in cs;
    } else {
      MarkConstraintsIn(cs[1..], v, a, c');
      var c :| c in cs[1..] && c' == c.(expr := MarkExprs(c.expr, v, a));
      assert c in cs;
    }
  }

  /** Marking twice is marking once, so it does not matter how often the table lists a class. */
  lemma {:induction false} MarkExprsTwice(es: seq<Expr>, v: nat, a: nat)
    ensures MarkExprs(MarkExprs(es, v, a), v, a) == MarkExprs(es, v, a)
  {
    if es != [] { MarkExprsTwice(es[1..], v, a); }
  }

  lemma {:induction false} MarkConstraintsTwice(cs: seq<Constraint>, v: nat, a: nat)
    ensures MarkConstraints(MarkConstraints(cs, v, a), v, a) == MarkConstraints(cs, v, a)
  {
    if cs != [] {
      MarkExprsTwice(cs[0].expr, v, a);
      MarkConstraintsTwice(cs[1..], v, a);
    }
  }

  function MarkClass(c: ClassDatum, v: nat, a: nat): ClassDatum {
    c.(constraints := MarkConstraints(c.constraints, v, a))
  }

  /** The walk over the class table marks exactly the classes it lists. */
  lemma {:induction false} MarkClassesAt(classes: seq<ClassDatum>, order: seq<nat>, v: nat, a: nat, k: nat)
    requires k < |classes|
    ensures |MarkClasses(classes, order, v, a)| == |classes|
    ensures MarkClasses(classes, order, v, a)[k] == if k + 1 in order then MarkClass(classes[k], v, a) else classes[k]
    decreases |order|
  {
    if order != [] {
      var rest := order[..|order| - 1];
      assert order == rest + [order[|order| - 1]];
      MarkClassesAt(classes, rest, v, a, k);
      MarkConstraintsTwice(classes[k].constraints, v, a);
    }
  }

  lemma AddTypeAttributeKeepsIndex(pol: Policy, v: nat, a: nat)
    requires Indexed(pol) && 1 <= v <= |pol.typeStruct| && 1 <= a <= |pol.typeStruct|
    ensures Indexed(AddTypeAttributeRaw(pol, v, a))
  {
    var pol' := AddTypeAttributeRaw(pol, v, a);
    forall i | 0 <= i < |pol.typeStruct|
      ensures ValueOk(pol', i)
    {
      assert ValueOk(pol, i);
    }
  }

  lemma MarkKeepsNamesOk(pol: Policy, v: nat, a: nat, e: Expr)
    requires 1 <= v <= |pol.typeStruct| == |pol.typeAttr| && 1 <= a && NamesOk(pol, e)
    ensures NamesOk(AddTypeAttributeRaw(pol, v, a), MarkExpr(e, v, a))
  {
    var pol' := AddTypeAttributeRaw(pol, v, a);
    forall i: nat, b: nat | HoldsAttribute(pol', i, b) && !(i == v - 1 && b == a - 1)
      ensures HoldsAttribute(pol, i, b)
    {
    }
  }

  lemma AddTypeAttributeKeepsNames(pol: Policy, v: nat, a: nat)
    requires Complete(pol) && 1 <= v <= |pol.typeStruct| == |pol.typeAttr| && 1 <= a
    ensures Complete(AddTypeAttributeRaw(pol, v, a))
  {
    var pol' := AddTypeAttributeRaw(pol, v, a);
    if |pol.classes| > 0 { MarkClassesAt(pol.classes, pol.classOrder, v, a, 0); } else { MarkNoClasses(pol.classOrder, v, a); }
    forall k | 0 <= k < |pol.classes|
      ensures Listed(pol', k) && ClassNamesOk(pol', pol'.classes[k])
    {
      assert Listed(pol, k);
      MarkClassesAt(pol.classes, pol.classOrder, v, a, k);
      forall con', e' | con' in pol'.classes[k].constraints && e' in con'.expr
        ensures NamesOk(pol', e')
      {
        MarkConstraintsIn(pol.classes[k].constraints, v, a, con');
        var con :| con in pol.classes[k].constraints && con' == con.(expr := MarkExprs(con.expr, v, a));
        MarkExprsIn(con.expr, v, a, e');
        var e :| e in con.expr && e' == MarkExpr(e, v, a);
        MarkKeepsNamesOk(pol, v, a, e);
      }
    }
  }

  lemma {:induction false} MarkNoClasses(order: seq<nat>, v: nat, a: nat)
    ensures MarkClasses([], order, v, a) == []
    decreases |order|
  {
    if order != [] { MarkNoClasses(order[..|order| - 1], v, a); }
  }
}
