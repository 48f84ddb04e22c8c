/**
 The constraint language of the policy: postfix expression lists, and the evaluator that runs
 them on a stack of fixed depth (kernel/non_gki/selinux_hide.c, `constraint_expr_eval`).
 */
module Constraints {
  import opened Options

  datatype Level = Level(sens: nat, cats: set<nat>)

  /** A security context; user, role and type are 1-based values. */
  datatype Context = Context(user: nat, role: nat, typ: nat, low: Level, high: Level)

  predicate LevelDominates(a: Level, b: Level) {
    b.sens <= a.sens && b.cats <= a.cats
  }

  datatype AttrKind = User | Role | Type | L1L2 | L1H2 | H1L2 | H1H2 | L1H1 | L2H2 | UnknownAttr
  datatype RelOp = Eq | Neq | Dom | DomBy | Incomp | UnknownOp

  /** One element of an expression list. `names` and `typeNames` are bitmaps of value - 1. */
  datatype Expr =
    | Not
    | And
    | Or
    | Attr(attr: AttrKind, op: RelOp)
    | Names(target: bool, xtarget: bool, user: bool, role: bool, typ: bool, op: RelOp,
            names: set<int>, typeNames: set<int>)
    | UnknownExpr
  {
    predicate IsLeaf() { Attr? || Names? }
  }

  /** `roles[v - 1]` is the dominates bitmap of role v. */
  datatype Env = Env(roles: seq<set<int>>, scontext: Context, tcontext: Context, xcontext: Option<Context>)

  predicate RoleDominates(roles: seq<set<int>>, a: nat, b: nat) {
    1 <= a <= |roles| && b - 1 in roles[a - 1]
  }

  /** The operators an attribute comparison knows; every other one ends in `BUG()`. */
  predicate LeafOk(e: Expr, hasX: bool) {
    match e
    case Attr(User, op) => op.Eq? || op.Neq?
    case Attr(Type, op) => op.Eq? || op.Neq?
    case Attr(UnknownAttr, _) => false
    case Attr(_, op) => !op.UnknownOp?
    case Names(target, xtarget, user, role, typ, op, _, _) =>
      (op.Eq? || op.Neq?) && (user || role || typ) && (target || !xtarget || hasX)
    case _ => false
  }

  function Compare(op: RelOp, v1: nat, v2: nat): bool {
    if op.Eq? then v1 == v2 else v1 != v2
  }

  function CompareLevels(op: RelOp, l1: Level, l2: Level): bool {
    match op
    case Eq => l1 == l2
    case Neq => l1 != l2
    case Dom => LevelDominates(l1, l2)
    case DomBy => LevelDominates(l2, l1)
    case _ => !LevelDominates(l1, l2) && !LevelDominates(l2, l1)
  }

  function NamedContext(env: Env, e: Expr): Context
    requires e.Names? && LeafOk(e, env.xcontext.Some?)
  {
    if e.target then env.tcontext else if e.xtarget then env.xcontext.value else env.scontext
  }

  /** The truth value an operand list element pushes. */
  function LeafValue(env: Env, e: Expr): bool
    requires LeafOk(e, env.xcontext.Some?)
  {
    var s, t := env.scontext, env.tcontext;
    match e
    case Attr(User, op) => Compare(op, s.user, t.user)
    case Attr(Type, op) => Compare(op, s.typ, t.typ)
    case Attr(Role, Dom) => RoleDominates(env.roles, s.role, t.role)
    case Attr(Role, DomBy) => RoleDominates(env.roles, t.role, s.role)
    case Attr(Role, Incomp) =>
      !RoleDominates(env.roles, s.role, t.role) && !RoleDominates(env.roles, t.role, s.role)
    case Attr(Role, op) => Compare(op, s.role, t.role)
    case Attr(L1L2, op) => CompareLevels(op, s.low, t.low)
    case Attr(L1H2, op) => CompareLevels(op, s.low, t.high)
    case Attr(H1L2, op) => CompareLevels(op, s.high, t.low)
    case Attr(H1H2, op) => CompareLevels(op, s.high, t.high)
    case Attr(L1H1, op) => CompareLevels(op, s.low, s.high)
    case Attr(L2H2, op) => CompareLevels(op, t.low, t.high)
    case Names(_, _, user, role, _, op, names, _) =>
      var c := NamedContext(env, e);
      var v := if user then c.user else if role then c.role else c.typ;
      if op.Eq? then v - 1 in names else v - 1 !in names
  }

  /** How one evaluation ends: a value, the stack-full exit (which returns 0), or a `BUG`. */
  datatype Outcome = Value(v: bool) | StackFull | Bug

  /** What the C function hands its caller (a `BUG()` that continues also returns 0). */
  predicate Holds(o: Outcome) {
    o.Value? && o.v
  }

  /** One list element's effect on the stack, whose top is its last cell. */
  datatype StepResult = Next(s: seq<bool>) | Done(o: Outcome)

  function Step(env: Env, e: Expr, s: seq<bool>, max: nat): (r: StepResult)
    requires |s| <= max
    ensures r.Next? ==> |r.s| <= max
  {
    var n := |s|;
    match e
    case Not => if n < 1 then Done(Bug) else Next(s[..n - 1] + [!s[n - 1]])
    case And => if n < 2 then Done(Bug) else Next(s[..n - 2] + [s[n - 2] && s[n - 1]])
    case Or => if n < 2 then Done(Bug) else Next(s[..n - 2] + [s[n - 2] || s[n - 1]])
    case UnknownExpr => Done(Bug)
    case _ =>
      if n == max then Done(StackFull)
      else if !LeafOk(e, env.xcontext.Some?) then Done(Bug)
      else Next(s + [LeafValue(env, e)])
  }

  /** The evaluator on values. */
  function Run(env: Env, e: seq<Expr>, s: seq<bool>, max: nat): Outcome
    requires |s| <= max
  {
    if e == [] then
      if |s| == 1 then Value(s[0]) else Bug
    else
      var r := Step(env, e[0], s, max);
      if r.Done? then r.o else Run(env, e[1..], r.s, max)
  }

  /** One turn of the evaluation loop on the array `s` with top index `sp`. */
  method EvalStep(env: Env, e: Expr, s: array<bool>, sp: int) returns (sp': int, stop: Option<Outcome>)
    requires -1 <= sp < s.Length
    modifies s
    ensures stop.Some? ==> Step(env, e, old(s[..sp + 1]), s.Length) == Done(stop.value)
    ensures stop.None? ==> -1 <= sp' < s.Length && Step(env, e, old(s[..sp + 1]), s.Length) == Next(s[..sp' + 1])
  {
    sp', stop := sp, None;
    ghost var st := s[..sp + 1];
    if e.Not? {
      if sp < 0 { stop := Some(Bug); return; }
      s[sp] := !s[sp];
      assert s[..sp + 1] == st[..sp] + [!st[sp]];
    } else if e.And? {
      if sp < 1 { stop := Some(Bug); return; }
      sp' := sp - 1;
      s[sp'] := s[sp'] && s[sp' + 1];
      assert s[..sp' + 1] == st[..sp - 1] + [st[sp - 1] && st[sp]];
    } else if e.Or? {
      if sp < 1 { stop := Some(Bug); return; }
      sp' := sp - 1;
      s[sp'] := s[sp'] || s[sp' + 1];
      assert s[..sp' + 1] == st[..sp - 1] + [st[sp - 1] || st[sp]];
    } else if e.UnknownExpr? {
      stop := Some(Bug);
    } else {
      if sp == s.Length - 1 { stop := Some(StackFull); return; }
      if !LeafOk(e, env.xcontext.Some?) { stop := Some(Bug); return; }
      sp' := sp + 1;
      s[sp'] := LeafValue(env, e);
      assert s[..sp' + 1] == st + [LeafValue(env, e)];
    }
  }

  /** `constraint_expr_eval`: the array `s` is the fixed stack and `sp` its top index. */
  method ConstraintExprEval(env: Env, cexpr: seq<Expr>, max: nat) returns (r: Outcome)
    requires 0 < max
    ensures r == Run(env, cexpr, [], max)
  {
    var s := new bool[max];
    var sp := -1;
    var k := 0;
    assert cexpr[0..] == cexpr && s[..0] == [];
    while k < |cexpr|
      invariant 0 <= k <= |cexpr| && -1 <= sp < max
      invariant Run(env, cexpr, [], max) == Run(env, cexpr[k..], s[..sp + 1], max)
    {
      assert cexpr[k..][0] == cexpr[k] && cexpr[k..][1..] == cexpr[k + 1..];
      var stop;
      sp, stop := EvalStep(env, cexpr[k], s, sp);
      if stop.Some? {
        return stop.value;
      }
      k := k + 1;
    }
    assert cexpr[k..] == [];
    if sp != 0 { return Bug; }
    return Value(s[0]);
  }

  // ----- the expression trees such a list encodes -----

  datatype Tree = Leaf(e: Expr) | Neg(t: Tree) | Both(l: Tree, r: Tree) | Either(l: Tree, r: Tree)

  predicate IsExpression(t: Tree) {
    match t
    case Leaf(e) => e.IsLeaf()
    case Neg(a) => IsExpression(a)
    case Both(a, b) => IsExpression(a) && IsExpression(b)
    case Either(a, b) => IsExpression(a) && IsExpression(b)
  }

  predicate LeavesOk(t: Tree, hasX: bool) {
    match t
    case Leaf(e) => LeafOk(e, hasX)
    case Neg(a) => LeavesOk(a, hasX)
    case Both(a, b) => LeavesOk(a, hasX) && LeavesOk(b, hasX)
    case Either(a, b) => LeavesOk(a, hasX) && LeavesOk(b, hasX)
  }

  /** The postfix list of a tree. */
  function Postfix(t: Tree): seq<Expr> {
    match t
    case Leaf(e) => [e]
    case Neg(a) => Postfix(a) + [Not]
    case Both(a, b) => Postfix(a) + Postfix(b) + [And]
    case Either(a, b) => Postfix(a) + Postfix(b) + [Or]
  }

  function Truth(env: Env, t: Tree): bool
    requires LeavesOk(t, env.xcontext.Some?)
  {
    match t
    case Leaf(e) => LeafValue(env, e)
    case Neg(a) => !Truth(env, a)
    case Both(a, b) => Truth(env, a) && Truth(env, b)
    case Either(a, b) => Truth(env, a) || Truth(env, b)
  }

  /** The number of stack cells an evaluation of the tree needs. */
  function Need(t: Tree): (n: nat)
    ensures 1 <= n
  {
    match t
    case Leaf(_) => 1
    case Neg(a) => Need(a)
    case Both(a, b) => Max(Need(a), 1 + Need(b))
    case Either(a, b) => Max(Need(a), 1 + Need(b))
  }

  function Max(a: nat, b: nat): nat { if a < b then b else a }

  /** Running a tree's list either pushes the tree's truth value or fills the stack. */
  lemma {:induction false} RunTree(env: Env, t: Tree, rest: seq<Expr>, s: seq<bool>, max: nat)
    requires |s| <= max && LeavesOk(t, env.xcontext.Some?)
    ensures Run(env, Postfix(t) + rest, s, max) ==
            if |s| + Need(t) <= max then Run(env, rest, s + [Truth(env, t)], max) else StackFull
    decreases t, 1
  {
    match t
    case Leaf(e) =>
      assert ([e] + rest)[1..] == rest;
    case Neg(a) =>
      Assoc(Postfix(a), [Not], rest);
      RunTree(env, a, [Not] + rest, s, max);
      if |s| + Need(a) <= max {
        RunNot(env, rest, s, Truth(env, a), max);
      }
    case Both(a, b) =>
      RunBoth(env, t, a, b, And, rest, s, max);
    case Either(a, b) =>
      RunBoth(env, t, a, b, Or, rest, s, max);
  }

  lemma {:induction false} RunBoth(env: Env, t: Tree, a: Tree, b: Tree, op: Expr, rest: seq<Expr>, s: seq<bool>, max: nat)
    requires |s| <= max && ((op == And && t == Both(a, b)) || (op == Or && t == Either(a, b)))
    requires LeavesOk(a, env.xcontext.Some?) && LeavesOk(b, env.xcontext.Some?)
    ensures Run(env, Postfix(a) + Postfix(b) + [op] + rest, s, max) ==
            if |s| + Need(a) <= max && |s| + 1 + Need(b) <= max
            then Run(env, rest, s + [Truth2(op, Truth(env, a), Truth(env, b))], max) else StackFull
    decreases t, 0
  {
    Assoc(Postfix(a) + Postfix(b), [op], rest);
    Assoc(Postfix(a), Postfix(b), [op] + rest);
    RunTree(env, a, Postfix(b) + ([op] + rest), s, max);
    if |s| + Need(a) <= max {
      RunTree(env, b, [op] + rest, s + [Truth(env, a)], max);
      if |s| + 1 + Need(b) <= max {
        RunBinary(env, op, rest, s, Truth(env, a), Truth(env, b), max);
      }
    }
  }

  function Truth2(op: Expr, v: bool, w: bool): bool {
    if op == And then v && w else v || w
  }

  lemma Assoc<T>(x: seq<T>, y: seq<T>, z: seq<T>)
    ensures (x + y) + z == x + (y + z)
  {
  }

  lemma RunNot(env: Env, rest: seq<Expr>, s: seq<bool>, v: bool, max: nat)
    requires |s| < max
    ensures Run(env, [Not] + rest, s + [v], max) == Run(env, rest, s + [!v], max)
  {
    assert ([Not] + rest)[1..] == rest && (s + [v])[..|s|] == s;
  }

  lemma RunBinary(env: Env, op: Expr, rest: seq<Expr>, s: seq<bool>, v: bool, w: bool, max: nat)
    requires |s| + 1 < max && (op == And || op == Or)
    ensures Run(env, [op] + rest, s + [v] + [w], max) == Run(env, rest, s + [Truth2(op, v, w)], max)
  {
    assert ([op] + rest)[1..] == rest && (s + [v] + [w])[..|s|] == s;
  }

  /** The tree stack after the list element e, when e can be read at all. */
  function ReadStep(e: Expr, s: seq<Tree>): Option<seq<Tree>> {
    if e.IsLeaf() then Some(s + [Leaf(e)])
    else if e.Not? && |s| >= 1 then Some(s[..|s| - 1] + [Neg(s[|s| - 1])])
    else if e.And? && |s| >= 2 then Some(s[..|s| - 2] + [Both(s[|s| - 2], s[|s| - 1])])
    else if e.Or? && |s| >= 2 then Some(s[..|s| - 2] + [Either(s[|s| - 2], s[|s| - 1])])
    else None
  }

  /** The same machine run on trees instead of truth values: it reads the tree back from a list. */
  function ReadTree(e: seq<Expr>, s: seq<Tree>): Option<Tree> {
    if e == [] then
      if |s| == 1 then Some(s[0]) else None
    else if ReadStep(e[0], s).None? then None
    else ReadTree(e[1..], ReadStep(e[0], s).value)
  }

  function PostfixAll(s: seq<Tree>): seq<Expr> {
    if s == [] then [] else PostfixAll(s[..|s| - 1]) + Postfix(s[|s| - 1])
  }

  lemma PostfixAllSnoc(s: seq<Tree>, t: Tree)
    ensures PostfixAll(s + [t]) == PostfixAll(s) + Postfix(t)
  {
    assert (s + [t])[..|s|] == s;
  }

  /** One reduction of the tree stack consumes one operator and keeps the list read so far. */
  lemma NegKeepsPostfix(s: seq<Tree>, a: Tree)
    ensures PostfixAll(s + [Neg(a)]) == PostfixAll(s + [a]) + [Not]
  {
    PostfixAllSnoc(s, a);
    PostfixAllSnoc(s, Neg(a));
    assert PostfixAll(s) + (Postfix(a) + [Not]) == PostfixAll(s) + Postfix(a) + [Not];
  }

  lemma Regroup<T>(p: seq<T>, x: seq<T>, y: seq<T>, op: T)
    ensures p + (x + y + [op]) == p + x + y + [op]
  {
  }

  lemma BinaryKeepsPostfix(s: seq<Tree>, a: Tree, b: Tree, op: Expr, t: Tree)
    requires (op == And && t == Both(a, b)) || (op == Or && t == Either(a, b))
    ensures PostfixAll(s + [t]) == PostfixAll(s + [a] + [b]) + [op]
  {
    PostfixAllSnoc(s, t);
    PostfixAllSnoc(s, a);
    PostfixAllSnoc(s + [a], b);
    Regroup(PostfixAll(s), Postfix(a), Postfix(b), op);
  }

  lemma ReadStepKeepsExpressions(e: Expr, s: seq<Tree>)
    requires forall t | t in s :: IsExpression(t)
    requires ReadStep(e, s).Some?
    ensures forall t | t in ReadStep(e, s).value :: IsExpression(t)
  {
  }

  lemma {:induction false} ReadStepSound(e: Expr, s: seq<Tree>)
    requires ReadStep(e, s).Some?
    ensures PostfixAll(ReadStep(e, s).value) == PostfixAll(s) + [e]
  {
    if e.IsLeaf() {
      PostfixAllSnoc(s, Leaf(e));
    } else if e.Not? {
      var a := s[|s| - 1];
      NegKeepsPostfix(s[..|s| - 1], a);
      assert s[..|s| - 1] + [a] == s;
    } else {
      var a, b, r := s[|s| - 2], s[|s| - 1], ReadStep(e, s).value;
      BinaryKeepsPostfix(s[..|s| - 2], a, b, e, r[|r| - 1]);
      assert s[..|s| - 2] + [a] + [b] == s;
    }
  }

  lemma {:induction false} ReadTreeSound(e: seq<Expr>, s: seq<Tree>)
    requires forall t | t in s :: IsExpression(t)
    ensures var r := ReadTree(e, s);
            r.Some? ==> IsExpression(r.value) && Postfix(r.value) == PostfixAll(s) + e
    decreases |e|
  {
    if e == [] {
      if |s| == 1 { PostfixAllSnoc([], s[0]); }
    } else if ReadStep(e[0], s).Some? {
      ReadStepSound(e[0], s);
      ReadStepKeepsExpressions(e[0], s);
      assert e == [e[0]] + e[1..];
      ReadTreeSound(e[1..], ReadStep(e[0], s).value);
    }
  }

  /** Whatever the value machine can do with a list element, the tree machine can do too. */
  lemma StepIsMirrored(env: Env, e: Expr, s: seq<bool>, st: seq<Tree>, max: nat)
    requires |s| <= max && |st| == |s| && Step(env, e, s, max).Next?
    requires forall t | t in st :: LeavesOk(t, env.xcontext.Some?)
    ensures ReadStep(e, st).Some? && |ReadStep(e, st).value| == |Step(env, e, s, max).s|
    ensures forall t | t in ReadStep(e, st).value :: LeavesOk(t, env.xcontext.Some?)
  {
  }

  /** A run that ends with a value is a run over the list of some tree, all of whose leaves are known. */
  lemma {:induction false} ValueHasTree(env: Env, e: seq<Expr>, s: seq<bool>, st: seq<Tree>, max: nat)
    requires |s| <= max && |st| == |s|
    requires forall t | t in st :: LeavesOk(t, env.xcontext.Some?)
    requires Run(env, e, s, max).Value?
    ensures ReadTree(e, st).Some? && LeavesOk(ReadTree(e, st).value, env.xcontext.Some?)
    decreases |e|
  {
    if e != [] {
      StepIsMirrored(env, e[0], s, st, max);
      ValueHasTree(env, e[1..], Step(env, e[0], s, max).s, ReadStep(e[0], st).value, max);
    }
  }

  lemma {:induction false} LeavesOkIsExpression(t: Tree, hasX: bool)
    requires LeavesOk(t, hasX)
    ensures IsExpression(t)
  {
    match t
    case Leaf(_) =>
    case Neg(a) => LeavesOkIsExpression(a, hasX);
    case Both(a, b) => LeavesOkIsExpression(a, hasX); LeavesOkIsExpression(b, hasX);
    case Either(a, b) => LeavesOkIsExpression(a, hasX); LeavesOkIsExpression(b, hasX);
  }

  /** On the list of a tree with known leaves: the tree's truth value if it fits the stack, else 0. */
  lemma EvaluatesTree(env: Env, t: Tree, max: nat)
    requires LeavesOk(t, env.xcontext.Some?)
    ensures Run(env, Postfix(t), [], max) == if Need(t) <= max then Value(Truth(env, t)) else StackFull
    ensures Holds(Run(env, Postfix(t), [], max)) <==> Need(t) <= max && Truth(env, t)
  {
    assert Postfix(t) + [] == Postfix(t);
    assert [] + [Truth(env, t)] == [Truth(env, t)];
    RunTree(env, t, [], [], max);
  }

  /** Exactly the lists of fitting trees with known leaves evaluate to a value, and to that tree's value. */
  lemma EvaluationIsExact(env: Env, e: seq<Expr>, max: nat, v: bool)
    ensures Run(env, e, [], max) == Value(v) <==>
            exists t :: Postfix(t) == e && LeavesOk(t, env.xcontext.Some?) && Need(t) <= max && Truth(env, t) == v
  {
    if Run(env, e, [], max) == Value(v) {
      ValueHasTree(env, e, [], [], max);
      ReadTreeSound(e, []);
      var t := ReadTree(e, []).value;
      assert PostfixAll([]) + e == e;
      EvaluatesTree(env, t, max);
    }
    if t :| Postfix(t) == e && LeavesOk(t, env.xcontext.Some?) && Need(t) <= max && Truth(env, t) == v {
      EvaluatesTree(env, t, max);
    }
  }

  lemma {:induction false} ReadTreeComplete(t: Tree, rest: seq<Expr>, s: seq<Tree>)
    requires IsExpression(t)
    ensures ReadTree(Postfix(t) + rest, s) == ReadTree(rest, s + [t])
    decreases t, 1
  {
    match t
    case Leaf(e) =>
      ReadOne(e, rest, s, s + [t]);
    case Neg(a) =>
      Assoc(Postfix(a), [Not], rest);
      ReadTreeComplete(a, [Not] + rest, s);
      assert (s + [a])[..|s|] == s;
      ReadOne(Not, rest, s + [a], s + [t]);
    case Both(a, b) =>
      ReadBoth(a, b, And, t, rest, s);
    case Either(a, b) =>
      ReadBoth(a, b, Or, t, rest, s);
  }

  lemma ReadOne(e: Expr, rest: seq<Expr>, s: seq<Tree>, s': seq<Tree>)
    requires ReadStep(e, s) == Some(s')
    ensures ReadTree([e] + rest, s) == ReadTree(rest, s')
  {
    assert ([e] + rest)[1..] == rest;
  }

  lemma {:induction false} ReadBoth(a: Tree, b: Tree, op: Expr, t: Tree, rest: seq<Expr>, s: seq<Tree>)
    requires IsExpression(a) && IsExpression(b)
    requires (op == And && t == Both(a, b)) || (op == Or && t == Either(a, b))
    ensures ReadTree(Postfix(a) + Postfix(b) + [op] + rest, s) == ReadTree(rest, s + [t])
    decreases t, 0
  {
    Assoc(Postfix(a) + Postfix(b), [op], rest);
    Assoc(Postfix(a), Postfix(b), [op] + rest);
    ReadTreeComplete(a, Postfix(b) + ([op] + rest), s);
    ReadTreeComplete(b, [op] + rest, s + [a]);
    JoinTrees(s, a, b, op, t);
    ReadOne(op, rest, s + [a] + [b], s + [t]);
  }

  lemma JoinTrees(s: seq<Tree>, a: Tree, b: Tree, op: Expr, t: Tree)
    requires (op == And && t == Both(a, b)) || (op == Or && t == Either(a, b))
    ensures ReadStep(op, s + [a] + [b]) == Some(s + [t])
  {
    assert (s + [a] + [b])[..|s|] == s;
  }

  /** Trees with known leaves that have the same list are one tree: the one that EvaluationIsExact speaks of. */
  lemma EncodedTreeIsUnique(t: Tree, u: Tree, hasX: bool)
    requires LeavesOk(t, hasX) && LeavesOk(u, hasX) && Postfix(t) == Postfix(u)
    ensures t == u
  {
    LeavesOkIsExpression(t, hasX);
    LeavesOkIsExpression(u, hasX);
    PostfixIsInjective(t, u);
  }

  /** A list encodes at most one tree, so "the tree it encodes" is well defined. */
  lemma PostfixIsInjective(t: Tree, u: Tree)
    requires IsExpression(t) && IsExpression(u) && Postfix(t) == Postfix(u)
    ensures t == u
  {
    ReadTreeComplete(t, [], []);
    ReadTreeComplete(u, [], []);
    assert Postfix(t) + [] == Postfix(t) && [] + [t] == [t];
    assert Postfix(u) + [] == Postfix(u) && [] + [u] == [u];
  }
}
