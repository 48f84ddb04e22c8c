/**
 Applying a batch of policy commands (kernel/non_gki/rules.c:446-777): all of it runs on a private copy,
 which replaces the active policy only if the batch is well-formed to its last byte.
 */
module PolicyBatch {
  import opened AccessVectors
  import opened Bytes
  import opened Options
  import opened RuleTables
  import opened Policies
  import opened RuleEditor
  import opened TypeTables
  import C = Constraints
  import opened PolicyTheorems
  import opened PolicyDbs
  import opened BatchCodec

  // ----- what a command means -----

  /** A call of the editor. Edits are modelled; the others change parts of the policy outside this model. */
  datatype Op =
    | Edit(command: Command)
    | ExtendedRule(effect: nat, src: Arg, tgt: Arg, cls: Arg, range: Arg)
    | TypeRule(effect: nat, src: Arg, tgt: Arg, cls: Arg, default_: Arg)
    | FileTransition(src: Arg, tgt: Arg, cls: Arg, default_: Arg, name: Arg)
    | Genfscon(name: Arg, path: Arg, context: Arg)

  const TRANSITION: nat := 0x10
  const MEMBER: nat := 0x20
  const CHANGE: nat := 0x40

  function Text(s: seq<Byte>): string {
    seq(|s|, i requires 0 <= i < |s| => s[i] as char)
  }

  function NameOf(a: Arg): Option<string> {
    if a.None? then None else Some(Text(a.value))
  }

  /** `apply_one_sepolicy_cmd` up to its call: None for an unknown subcommand, or ALL where a name is required. */
  function Meaning(c: Cmd): Option<Op>
    requires ExpectedArgc(c.cmd) == Some(|c.args|)
  {
    var a := c.args;
    if c.cmd == CMD_NORMAL_PERM then NormalPerm(c.subcmd, NameOf(a[0]), NameOf(a[1]), NameOf(a[2]), NameOf(a[3]))
    else if c.cmd == CMD_XPERM then
      if a[3].None? || a[4].None? || c.subcmd == 0 || c.subcmd > 3 then None
      else Some(ExtendedRule(c.subcmd, a[0], a[1], a[2], a[4]))
    else if c.cmd == CMD_TYPE_STATE then
      if a[0].None? || c.subcmd == 0 || c.subcmd > 2 then None else Some(Edit(TypeState(NameOf(a[0]), c.subcmd == 1)))
    else if c.cmd == CMD_TYPE || c.cmd == CMD_TYPE_ATTR then
      if a[0].None? || a[1].None? then None
      else if c.cmd == CMD_TYPE then Some(Edit(NewType(Text(a[0].value), Text(a[1].value))))
      else Some(Edit(TypeAttribute(Text(a[0].value), Text(a[1].value))))
    else if c.cmd == CMD_ATTR then
      if a[0].None? then None else Some(Edit(NewAttribute(Text(a[0].value))))
    else if c.cmd == CMD_TYPE_TRANSITION then
      if a[0].None? || a[1].None? || a[2].None? || a[3].None? then None
      else if a[4].Some? then Some(FileTransition(a[0], a[1], a[2], a[3], a[4]))
      else Some(TypeRule(TRANSITION, a[0], a[1], a[2], a[3]))
    else if c.cmd == CMD_TYPE_CHANGE then
      if a[0].None? || a[1].None? || a[2].None? || a[3].None? || c.subcmd == 0 || c.subcmd > 2 then None
      else Some(TypeRule(if c.subcmd == 1 then CHANGE else MEMBER, a[0], a[1], a[2], a[3]))
    else
      if a[0].None? || a[1].None? || a[2].None? then None else Some(Genfscon(a[0], a[1], a[2]))
  }

  function NormalPerm(subcmd: nat, s: Option<string>, t: Option<string>, c: Option<string>, p: Option<string>): Option<Op> {
    if subcmd == 1 then Some(Edit(Rule(Kind.Allowed, false, s, t, c, p)))
    else if subcmd == 2 then Some(Edit(Rule(Kind.Allowed, true, s, t, c, p)))
    else if subcmd == 3 then Some(Edit(Rule(AuditAllow, false, s, t, c, p)))
    else if subcmd == 4 then Some(Edit(Rule(AuditDeny, true, s, t, c, p)))
    else None
  }

  /** Where a command takes ALL. */
  predicate MayBeAll(cmd: nat, i: nat) {
    cmd == CMD_NORMAL_PERM || (cmd == CMD_XPERM && i < 3) || (cmd == CMD_TYPE_TRANSITION && i == 4)
  }

  /** The subcommands of a command; 0 stands for "not looked at". */
  function Subcommands(cmd: nat): nat {
    if cmd == CMD_NORMAL_PERM then 4
    else if cmd == CMD_XPERM then 3
    else if cmd == CMD_TYPE_STATE || cmd == CMD_TYPE_CHANGE then 2
    else 0
  }

  /** A command reaches the editor if and only if its subcommand is known and ALL stands only where it may. */
  lemma MeaningIsDefined(c: Cmd)
    requires ExpectedArgc(c.cmd) == Some(|c.args|)
    ensures Meaning(c).Some? <==>
            && (Subcommands(c.cmd) > 0 ==> 1 <= c.subcmd <= Subcommands(c.cmd))
            && (forall i :: 0 <= i < |c.args| && c.args[i].None? ==> MayBeAll(c.cmd, i))
  {
    var n := |c.args|;
    assert n >= 1 && (n > 1 ==> c.args[1] == c.args[1]) && (n > 2 ==> c.args[2] == c.args[2]);
    assert (n > 3 ==> c.args[3] == c.args[3]) && (n > 4 ==> c.args[4] == c.args[4]);
  }

  // ----- the fold -----

  /**
   A policy database: the policy, and the calls that changed the parts outside this model, in order. Those
   parts are a function of what they were and of these calls, so the list stands for them.
   */
  datatype Db = Db(policy: Policy, others: seq<Op>)

  /** Where new type names go, and whether the n-th call outside the model succeeds. */
  datatype World = World(place: Place, succeeds: nat -> bool)

  function Perform(w: World, db: Db, op: Op): (Db, bool) {
    match op
    case Edit(command) => (db.(policy := Apply(w.place, db.policy, command).0), Apply(w.place, db.policy, command).1)
    case Genfscon(_, _, _) => (db, false)
    case _ => (db.(others := db.others + [op]), w.succeeds(|db.others|))
  }

  /** One command: the database after it, and whether it counts as a success. */
  function ApplyCmd(w: World, db: Db, c: Cmd): (Db, bool)
    requires ExpectedArgc(c.cmd) == Some(|c.args|)
  {
    var op := Meaning(c);
    if op.None? then (db, false) else Perform(w, db, op.value)
  }

  /** The in-order fold of all commands; a failed one does not stop the rest. */
  function Fold(w: World, db: Db, cmds: seq<Cmd>): (Db, nat)
    requires CmdsOk(cmds)
    decreases |cmds|
  {
    if cmds == [] then (db, 0)
    else
      var (db', success) := ApplyCmd(w, db, cmds[0]);
      var (end, count) := Fold(w, db', cmds[1..]);
      (end, count + if success then 1 else 0)
  }

  lemma {:induction false} FoldSnoc(w: World, db: Db, cmds: seq<Cmd>, n: nat)
    requires CmdsOk(cmds) && n < |cmds|
    ensures CmdsOk(cmds[..n]) && CmdsOk(cmds[..n + 1]) && CmdOk(cmds[n])
    ensures var (mid, count) := Fold(w, db, cmds[..n]);
            var (end, success) := ApplyCmd(w, mid, cmds[n]);
            Fold(w, db, cmds[..n + 1]) == (end, count + if success then 1 else 0)
    decreases n
  {
    assert cmds[..n + 1][1..] == cmds[1..][..n];
    if n > 0 {
      assert cmds[..n][1..] == cmds[1..][..n - 1];
      FoldSnoc(w, ApplyCmd(w, db, cmds[0]).0, cmds[1..], n - 1);
    } else {
      assert cmds[..1][1..] == [] && cmds[..0] == [];
    }
  }

  /** The n-th command succeeds on the database it meets, the one its predecessors left. */
  ghost predicate Succeeds(w: World, db: Db, cmds: seq<Cmd>, n: nat)
    requires CmdsOk(cmds)
  {
    n < |cmds| && (FoldSnoc(w, db, cmds, n); ApplyCmd(w, Fold(w, db, cmds[..n]).0, cmds[n]).1)
  }

  ghost function Successes(w: World, db: Db, cmds: seq<Cmd>, n: nat): set<nat>
    requires CmdsOk(cmds)
  {
    set i: nat | i < n && Succeeds(w, db, cmds, i)
  }

  /** The count of a fold is the number of commands that succeeded on the database they met. */
  lemma FoldCounts(w: World, db: Db, cmds: seq<Cmd>)
    requires CmdsOk(cmds)
    ensures Fold(w, db, cmds).1 == |Successes(w, db, cmds, |cmds|)|
  {
    assert cmds[..|cmds|] == cmds;
    PrefixCounts(w, db, cmds, |cmds|);
  }

  lemma SuccessesNext(w: World, db: Db, cmds: seq<Cmd>, n: nat)
    requires CmdsOk(cmds)
    ensures Successes(w, db, cmds, n + 1) == Successes(w, db, cmds, n) + if Succeeds(w, db, cmds, n) then {n} else {}
    ensures n !in Successes(w, db, cmds, n)
  {
  }

  lemma CountNext(w: World, db: Db, cmds: seq<Cmd>, n: nat)
    requires CmdsOk(cmds) && n < |cmds|
    ensures CmdsOk(cmds[..n]) && CmdsOk(cmds[..n + 1])
    ensures Fold(w, db, cmds[..n + 1]).1 == Fold(w, db, cmds[..n]).1 + if Succeeds(w, db, cmds, n) then 1 else 0
  {
    FoldSnoc(w, db, cmds, n);
  }

  lemma {:induction false} PrefixCounts(w: World, db: Db, cmds: seq<Cmd>, n: nat)
    requires CmdsOk(cmds) && n <= |cmds|
    ensures CmdsOk(cmds[..n]) && Fold(w, db, cmds[..n]).1 == |Successes(w, db, cmds, n)|
    decreases n
  {
    if n > 0 {
      PrefixCounts(w, db, cmds, n - 1);
      CountNext(w, db, cmds, n - 1);
      SuccessesNext(w, db, cmds, n - 1);
    } else {
      assert cmds[..0] == [] && Successes(w, db, cmds, 0) == {};
    }
  }

  /** What parsing and folding a batch gives; None when it is malformed. */
  ghost function Outcome(w: World, db: Db, s: seq<Byte>): Option<(Db, nat)> {
    if Parse(s).None? then None
    else
      ParseThenEncode(s);
      Some(Fold(w, db, Parse(s).value))
  }

  /** The loop has come to db with count successes, and s is left: together the outcome of the whole. */
  ghost predicate Progress(w: World, start: Db, whole: seq<Byte>, db: Db, count: nat, s: seq<Byte>) {
    Outcome(w, start, whole) == Later(count, Outcome(w, db, s))
  }

  ghost function Later(count: nat, r: Option<(Db, nat)>): Option<(Db, nat)> {
    if r.None? then None else Some((r.value.0, count + r.value.1))
  }

  lemma OutcomeStep(w: World, db: Db, s: seq<Byte>)
    requires s != [] && ParseCmd(s).Some?
    ensures CmdOk(ParseCmd(s).value.0)
    ensures var (c, rest) := ParseCmd(s).value;
            var (db', success) := ApplyCmd(w, db, c);
            Outcome(w, db, s) == Later(if success then 1 else 0, Outcome(w, db', rest))
  {
    CmdExact(s);
    var (c, rest) := ParseCmd(s).value;
    if Parse(rest).Some? {
      var cmds := Parse(rest).value;
      assert Parse(s).value == [c] + cmds && ([c] + cmds)[1..] == cmds;
    }
  }

  lemma ProgressStep(w: World, start: Db, whole: seq<Byte>, db: Db, count: nat, s: seq<Byte>)
    requires Progress(w, start, whole, db, count, s) && s != [] && ParseCmd(s).Some?
    ensures CmdOk(ParseCmd(s).value.0)
    ensures var (c, rest) := ParseCmd(s).value;
            var (db', success) := ApplyCmd(w, db, c);
            Progress(w, start, whole, db', count + if success then 1 else 0, rest)
  {
    OutcomeStep(w, db, s);
  }

  /** A malformed command anywhere makes the outcome None. */
  lemma ProgressFails(w: World, start: Db, whole: seq<Byte>, db: Db, count: nat, s: seq<Byte>)
    requires Progress(w, start, whole, db, count, s) && s != [] && ParseCmd(s).None?
    ensures Parse(whole).None?
  {
  }

  lemma ProgressStarts(w: World, start: Db, whole: seq<Byte>)
    ensures Progress(w, start, whole, start, 0, whole)
  {
  }

  lemma ProgressEnds(w: World, start: Db, whole: seq<Byte>, db: Db, count: nat)
    requires Progress(w, start, whole, db, count, [])
    ensures Outcome(w, start, whole) == Some((db, count))
  {
  }

  const MAX_BATCH_SIZE: nat := 8 * 1024 * 1024
  const E2BIG: int := 7
  const EFAULT: int := 14

  /** The active policy and the return value of a whole batch. */
  ghost function BatchResult(w: World, db: Db, data: Option<seq<Byte>>, fault: bool, dupError: int): (Db, int) {
    if data.None? || |data.value| == 0 then (db, -EINVAL)
    else if |data.value| > MAX_BATCH_SIZE then (db, -E2BIG)
    else if fault then (db, -EFAULT)
    else if dupError < 0 then (db, dupError)
    else
      var r := Outcome(w, db, data.value);
      if r.None? then (db, -EINVAL) else r.value
  }

  /** A batch that is malformed at any position has no effect, though its first commands ran on the copy. */
  lemma BatchIsAtomic(w: World, db: Db, cmds: seq<Cmd>, bad: seq<Byte>)
    requires CmdsOk(cmds) && bad != [] && ParseCmd(bad).None?
    requires |Encode(cmds) + bad| <= MAX_BATCH_SIZE
    ensures BatchResult(w, db, Some(Encode(cmds) + bad), false, 0) == (db, -EINVAL)
  {
    BadTailFails(cmds, bad);
  }

  lemma {:induction false} BadTailFails(cmds: seq<Cmd>, bad: seq<Byte>)
    requires CmdsOk(cmds) && bad != [] && ParseCmd(bad).None?
    ensures Encode(cmds) + bad != [] && Parse(Encode(cmds) + bad).None?
  {
    if cmds == [] {
      assert Encode(cmds) + bad == bad;
    } else {
      Regroup(EncodeCmd(cmds[0]), Encode(cmds[1..]), bad);
      CmdBack(cmds[0], Encode(cmds[1..]) + bad);
      BadTailFails(cmds[1..], bad);
    }
  }

  /** A well-formed batch has the effect of its commands in order, and returns how many succeeded. */
  lemma BatchIsFold(w: World, db: Db, cmds: seq<Cmd>)
    requires CmdsOk(cmds) && 0 < |Encode(cmds)| <= MAX_BATCH_SIZE
    ensures BatchResult(w, db, Some(Encode(cmds)), false, 0) == Fold(w, db, cmds)
  {
    EncodeThenParse(cmds);
  }

  /** What a normal-permission command does to the rules of one pair, by its subcommand: allow, deny, or nothing. */
  lemma NormalPermMeans(w: World, db: Db, c: Cmd, i: nat, j: nat, cls: nat, p: Bit)
    requires CmdOk(c) && c.cmd == CMD_NORMAL_PERM && 1 <= c.subcmd <= 4
    ensures var pol, pol', a := db.policy, ApplyCmd(w, db, c).0.policy, c.args;
            var q := Resolve(pol, NameOf(a[0]), NameOf(a[1]), NameOf(a[2]), NameOf(a[3]), Kind.Allowed, c.subcmd == 2);
            var reached := q.Some? && Reaches(q.value, i, j, cls, p);
            && (c.subcmd == 1 ==> (PairGrants(pol', i, j, cls, p) <==> PairGrants(pol, i, j, cls, p) || reached))
            && (c.subcmd == 2 ==> (PairGrants(pol', i, j, cls, p) <==>
                  if reached then p in CondOf(pol, i + 1, j + 1, cls).allowed else PairGrants(pol, i, j, cls, p)))
            && (c.subcmd >= 3 ==> (PairGrants(pol', i, j, cls, p) <==> PairGrants(pol, i, j, cls, p)))
  {
    var pol, a := db.policy, c.args;
    if c.subcmd <= 2 {
      var q := Resolve(pol, NameOf(a[0]), NameOf(a[1]), NameOf(a[2]), NameOf(a[3]), Kind.Allowed, c.subcmd == 2);
      if q.Some? { PairAfterEdit(pol, q.value, i, j, cls, p); }
    } else {
      AuditMeansNothing(w, db, c, i, j, cls, p);
    }
  }

  lemma AuditMeansNothing(w: World, db: Db, c: Cmd, i: nat, j: nat, cls: nat, p: Bit)
    requires CmdOk(c) && c.cmd == CMD_NORMAL_PERM && 3 <= c.subcmd <= 4
    ensures PairGrants(ApplyCmd(w, db, c).0.policy, i, j, cls, p) <==> PairGrants(db.policy, i, j, cls, p)
  {
    var kind := if c.subcmd == 3 then AuditAllow else AuditDeny;
    var a := c.args;
    var q := Resolve(db.policy, NameOf(a[0]), NameOf(a[1]), NameOf(a[2]), NameOf(a[3]), kind, c.subcmd == 4);
    if q.Some? {
      EditAllAt(db.policy.rules, q.value.Targets(), q.value.perm, q.value.invert, AvKey(i + 1, j + 1, cls, Kind.Allowed));
    }
  }

  /** Commands after which no access decision has lost a permission. */
  predicate GivingCmd(c: Cmd)
    requires ExpectedArgc(c.cmd) == Some(|c.args|)
  {
    var op := Meaning(c);
    op.Some? && op.value.Edit? ==> OnlyGives(op.value.command)
  }

  predicate GivingCmds(cmds: seq<Cmd>)
    requires CmdsOk(cmds)
  {
    cmds != [] ==> GivingCmd(cmds[0]) && GivingCmds(cmds[1..])
  }

  /** From the bytes of a batch to access decisions: without deny and attribute commands, nothing is lost. */
  lemma {:induction false} GivingBatch(w: World, db: Db, cmds: seq<Cmd>, s: C.Context, t: C.Context, c: nat)
    requires CmdsOk(cmds) && GivingCmds(cmds)
    requires TypesOk(db.policy) && IsType(db.policy, s.typ) && IsType(db.policy, t.typ)
    ensures var pol' := Fold(w, db, cmds).0.policy;
            TypesOk(pol') && IsType(pol', s.typ) && IsType(pol', t.typ) && Decide(db.policy, s, t, c) <= Decide(pol', s, t, c)
    decreases |cmds|
  {
    if cmds != [] {
      var op := Meaning(cmds[0]);
      if op.Some? && op.value.Edit? {
        GivingStep(w.place, db.policy, op.value.command, s, t, c);
      }
      GivingBatch(w, ApplyCmd(w, db, cmds[0]).0, cmds[1..], s, t, c);
    }
  }

  // ----- the database in place -----

  /** A `struct policydb` and the world it is edited in. */
  class Database {
    const policydb: PolicyDb
    const w: World
    var others: seq<Op>

    constructor (policydb: PolicyDb, w: World, others: seq<Op>)
      requires policydb.Valid() && policydb.Counted() && policydb.place == w.place
      ensures this.policydb == policydb && this.w == w && this.others == others
    {
      this.policydb, this.w, this.others := policydb, w, others;
    }

    ghost predicate Valid()
      reads this, policydb, policydb.te_avtab
    {
      && policydb.Valid() && policydb.Counted() && policydb.place == w.place
      && Indexed(policydb.View()) && Complete(policydb.View())
    }

    ghost function View(): Db
      reads this, policydb, policydb.te_avtab
    {
      Db(policydb.View(), others)
    }

    /** `apply_one_sepolicy_cmd` */
    method ApplyOne(c: Cmd) returns (ret: int)
      requires Valid() && CmdOk(c)
      modifies this, policydb, policydb.te_avtab
      ensures Valid() && View() == ApplyCmd(w, old(View()), c).0
      ensures ret == if ApplyCmd(w, old(View()), c).1 then 0 else -EINVAL
    {
      var op := Meaning(c);
      if op.None? {
        return -EINVAL;
      }
      var success := false;
      match op.value {
        case Edit(command) => success := policydb.Perform(command);
        case Genfscon(_, _, _) =>
        case _ =>
          success := w.succeeds(|others|);
          others := others + [op.value];
      }
      ret := if success then 0 else -EINVAL;
    }
  }

  /** The kernel's view of its policy. */
  class SelinuxState {
    var active: Database

    constructor (active: Database)
      ensures this.active == active
    {
      this.active := active;
    }

    /** `ksu_dup_policydb`, by its contract: a private copy that reads the same. */
    method Duplicate() returns (db: Database)
      requires active.Valid()
      ensures fresh(db) && fresh(db.policydb) && fresh(db.policydb.te_avtab)
      ensures db.Valid() && db.View() == active.View() && db.w == active.w
    {
      var table := new RuleTable.Copy(active.policydb.te_avtab);
      var policydb := new PolicyDb.Copy(table, active.policydb);
      db := new Database(policydb, active.w, active.others);
    }

    /** Read one whole command. */
    method ReadCmd(cursor: Cursor) returns (ret: int, c: Cmd)
      requires cursor.Valid()
      modifies cursor
      ensures cursor.Valid() && cursor.cur >= old(cursor.cur) && ret == if ParseCmd(old(cursor.Rest())).Some? then 0 else -EINVAL
      ensures ret == 0 ==> (c, cursor.Rest()) == ParseCmd(old(cursor.Rest())).value && CmdOk(c)
    {
      ghost var was := cursor.Rest();
      c := Cmd(0, 0, []);
      var cmd, subcmd;
      ret, cmd, subcmd := cursor.ReadCmdHeader();
      if ret < 0 {
        return;
      }
      var argc := ExpectedArgc(cmd);
      if argc.None? {
        return -EINVAL, c;
      }
      var args;
      ret, args := cursor.ReadArgs(argc.value);
      if ret < 0 {
        return;
      }
      c := Cmd(cmd, subcmd, args);
      CmdExact(was);
    }

    /** One turn of the command loop: `ret` is negative when the command is malformed. */
    method RunOne(cursor: Cursor, db: Database, count: nat, ghost start: Db) returns (ret: int, count': nat)
      requires db.Valid() && cursor.Valid() && cursor.Rest() != []
      requires Progress(db.w, start, cursor.payload, db.View(), count, cursor.Rest())
      modifies cursor, db, db.policydb, db.policydb.te_avtab
      ensures db.Valid() && cursor.Valid() && cursor.cur >= old(cursor.cur)
      ensures ret < 0 ==> ret == -EINVAL && Parse(cursor.payload).None?
      ensures ret >= 0 ==> cursor.cur > old(cursor.cur)
      ensures ret >= 0 ==> Progress(db.w, start, cursor.payload, db.View(), count', cursor.Rest())
    {
      ghost var rest, before := cursor.Rest(), db.View();
      count' := count;
      var c;
      ret, c := ReadCmd(cursor);
      if ret < 0 {
        ProgressFails(db.w, start, cursor.payload, before, count, rest);
        return;
      }
      ProgressStep(db.w, start, cursor.payload, before, count, rest);
      var applied := db.ApplyOne(c);
      if applied >= 0 {
        count' := count' + 1;
      }
    }

    /** The command loop of `handle_sepolicy`, on the private copy. */
    method RunBatch(payload: seq<Byte>, db: Database) returns (ret: int)
      requires db.Valid()
      modifies db, db.policydb, db.policydb.te_avtab
      ensures db.Valid()
      ensures Outcome(db.w, old(db.View()), payload) == if ret < 0 then None else Some((db.View(), ret))
      ensures ret < 0 ==> ret == -EINVAL
    {
      var cursor := new Cursor(payload);
      ghost var start := db.View();
      ProgressStarts(db.w, start, payload);
      var count := 0;
      while cursor.cur < |payload|
        invariant cursor.Valid() && cursor.payload == payload && db.Valid() && fresh(cursor)
        invariant Progress(db.w, start, payload, db.View(), count, cursor.Rest())
        decreases |payload| - cursor.cur
      {
        ret, count := RunOne(cursor, db, count, start);
        if ret < 0 {
          return;
        }
      }
      ProgressEnds(db.w, start, payload, db.View(), count);
      ret := count;
    }

    /**
     `handle_sepolicy`: `data` is the user's payload, `fault` a failed copy of it, `dupError` a failed duplication.
     The active policy changes only when the result is not negative.
     */
    method HandleSepolicy(data: Option<seq<Byte>>, fault: bool, dupError: int) returns (ret: int)
      requires active.Valid() && dupError <= 0
      modifies this
      ensures active.Valid()
      ensures ret < 0 ==> active == old(active)
      ensures ret >= 0 ==> fresh(active)
      ensures (active.View(), ret) == BatchResult(old(active).w, old(active.View()), data, fault, dupError)
    {
      if data.None? || |data.value| == 0 {
        return -EINVAL;
      }
      if |data.value| > MAX_BATCH_SIZE {
        return -E2BIG;
      }
      if fault {
        return -EFAULT;
      }
      if dupError < 0 {
        return dupError;
      }
      ret := Install(data.value);
    }

    /** Run the batch on a private copy. */
    method RunOnCopy(payload: seq<Byte>) returns (ret: int, db: Database)
      requires active.Valid()
      ensures fresh(db) && db.Valid()
      ensures ret < 0 ==> ret == -EINVAL
      ensures Outcome(active.w, active.View(), payload) == if ret < 0 then None else Some((db.View(), ret))
    {
      db := Duplicate();
      ret := RunBatch(payload, db);
    }

    /** Duplicate, run, and replace the active policy if the batch was well-formed. */
    method Install(payload: seq<Byte>) returns (ret: int)
      requires active.Valid()
      modifies this
      ensures active.Valid()
      ensures ret < 0 ==> active == old(active) && ret == -EINVAL
      ensures ret >= 0 ==> fresh(active)
      ensures Outcome(old(active).w, old(active.View()), payload) == if ret < 0 then None else Some((active.View(), ret))
    {
      var db;
      ret, db := RunOnCopy(payload);
      if ret >= 0 {
        active := db;
      }
    }
  }
}
