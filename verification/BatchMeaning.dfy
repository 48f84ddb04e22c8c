/**
 What each command of a batch does, from its numbers and the bytes of its arguments to the policy
 (kernel/non_gki/rules.c:353-603, kernel/include/uapi/selinux.h:12-35).
 */
module BatchMeaning {
  import opened AccessVectors
  import opened Bytes
  import opened Options
  import opened RuleTables
  import opened Constraints
  import opened Policies
  import opened RuleEditor
  import opened TypeTables
  import opened RuleMeaning
  import opened BatchCodec
  import opened PolicyBatch

  // ----- the bytes of a command -----

  /** The number of arguments of each command. */
  lemma ArgumentCounts(cmd: nat)
    ensures ExpectedArgc(cmd) ==
            if 1 <= cmd <= 9 then Some(if cmd in {3, 6} then 1 else if cmd in {4, 5} then 2
                                       else if cmd == 9 then 3 else if cmd in {1, 8} then 4 else 5)
            else None
  {
  }

  /** An argument's bytes: its length, its characters and a NUL; ALL has length 0. */
  lemma ArgumentBytes(a: Arg)
    requires ArgOk(a)
    ensures var b, n := EncodeArg(a), if a.Some? then |a.value| else 0;
            |b| == n + 5 && Word4(b, 0) == n && b[n + 4] == 0 && (a.Some? ==> n > 0 && b[4..n + 4] == a.value)
  {
    var b, n := EncodeArg(a), if a.Some? then |a.value| else 0;
    Widths();
    assert b[0..4] == Le(n, 4);
    Written(b, 0, n, 4);
  }

  /** A command's bytes: its two numbers, and its arguments. */
  lemma CommandBytes(c: Cmd)
    requires CmdOk(c)
    ensures var b := EncodeCmd(c); |b| >= 8 && Word4(b, 0) == c.cmd && Word4(b, 4) == c.subcmd && b[8..] == EncodeArgs(c.args)
  {
    var b := EncodeCmd(c);
    assert b[0..4] == Le(c.cmd, 4) && b[4..8] == Le(c.subcmd, 4);
    Written(b, 0, c.cmd, 4);
    Written(b, 4, c.subcmd, 4);
  }

  // ----- what the commands do -----

  /** The name that an argument's bytes spell; nothing for ALL. */
  predicate IsName(a: Arg, n: Option<string>) {
    && (a.None? <==> n.None?)
    && (a.Some? ==> |n.value| == |a.value| && forall i :: 0 <= i < |a.value| ==> n.value[i] as int == a.value[i])
  }

  lemma NameIsText(a: Arg, n: Option<string>)
    requires IsName(a, n)
    ensures n == NameOf(a)
  {
    if a.Some? { assert n.value == Text(a.value); }
  }

  /**
   Command 1 writes access rules: subcommand 1 allows, 2 takes away, 3 audits uses, and 4 no longer audits denials. Its
   arguments are source, target, class and permission, in this order; other subcommands do nothing.
   */
  lemma PermissionCommand(w: World, db: Db, c: Cmd, s: Option<string>, t: Option<string>, cls: Option<string>,
                          p: Option<string>, key: RuleKey)
    requires CmdOk(c) && c.cmd == 1
    requires IsName(c.args[0], s) && IsName(c.args[1], t) && IsName(c.args[2], cls) && IsName(c.args[3], p)
    ensures var (db', ok) := ApplyCmd(w, db, c);
            var pol, pol' := db.policy, db'.policy;
            var kind := if c.subcmd == 3 then AuditAllow else if c.subcmd == 4 then AuditDeny else Kind.Allowed;
            var invert := c.subcmd == 2 || c.subcmd == 4;
            && db' == db.(policy := pol.(rules := pol'.rules))
            && (ok <==> 1 <= c.subcmd <= 4 && Accepted(pol, s, t, cls, p))
            && (!ok ==> pol' == pol)
            && (ok && NamesKey(pol, s, t, cls, kind, invert, key) ==>
                  Becomes(pol, cls, p, invert, ValueAt(pol.rules, key), ValueAt(pol'.rules, key)))
            && (!NamesKey(pol, s, t, cls, kind, invert, key) ==> ValueAt(pol'.rules, key) == ValueAt(pol.rules, key))
  {
    NameIsText(c.args[0], s);
    NameIsText(c.args[1], t);
    NameIsText(c.args[2], cls);
    NameIsText(c.args[3], p);
    if 1 <= c.subcmd <= 4 {
      var kind := if c.subcmd == 3 then AuditAllow else if c.subcmd == 4 then AuditDeny else Kind.Allowed;
      RuleCommandMeans(w.place, db.policy, kind, c.subcmd == 2 || c.subcmd == 4, s, t, cls, p, key);
    }
  }

  /** Command 3 makes the named type permissive with subcommand 1, and enforcing with subcommand 2. */
  lemma StateCommand(w: World, db: Db, c: Cmd, name: string)
    requires CmdOk(c) && c.cmd == 3 && IsName(c.args[0], Some(name))
    ensures var (db', ok) := ApplyCmd(w, db, c);
            var pol, t := db.policy, FindType(db.policy.types, name);
            && (ok <==> 1 <= c.subcmd <= 2 && t.Some?)
            && (!ok ==> db' == db)
            && (ok && c.subcmd == 1 ==> db' == db.(policy := pol.(permissive := pol.permissive + {t.value.value})))
            && (ok && c.subcmd == 2 ==> db' == db.(policy := pol.(permissive := pol.permissive - {t.value.value})))
  {
    NameIsText(c.args[0], Some(name));
  }

  /** Command 4 with a new name and an attribute: the next value is an ordinary type of that name and with that attribute. */
  lemma TypeCommand(w: World, db: Db, c: Cmd, name: string, attr: string, other: string)
    requires CmdOk(c) && c.cmd == 4 && IsName(c.args[0], Some(name)) && IsName(c.args[1], Some(attr)) && Indexed(db.policy)
    requires FindType(db.policy.types, name).None?
    requires FindType(db.policy.types, attr).Some? && FindType(db.policy.types, attr).value.attribute
    ensures var (db', ok) := ApplyCmd(w, db, c);
            var pol, pol', n, a := db.policy, db'.policy, |db.policy.typeStruct|, FindType(db.policy.types, attr).value.value;
            && ok && db'.others == db.others
            && pol'.typeStruct == pol.typeStruct + [TypeDatum(n + 1, true, false, 0)]
            && pol'.typeName == pol.typeName + [name]
            && pol'.typeAttr == pol.typeAttr + [{n, a - 1}]
            && FindType(pol'.types, other) == if other == name then Some(TypeDatum(n + 1, true, false, 0)) else FindType(pol.types, other)
  {
    NameIsText(c.args[0], Some(name));
    NameIsText(c.args[1], Some(attr));
    var added := AddType(db.policy, w.place, name, false);
    AddTypeKeepsIndex(db.policy, w.place, name, false);
    AddedIsFound(db.policy, w.place, name, false, attr, 0);
    AddedIsFound(db.policy, w.place, name, false, other, 0);
    JoinAccepted(added, name, attr);
    JoinedLast(db.policy.typeAttr, |db.policy.typeStruct|, FindType(db.policy.types, attr).value.value - 1);
  }

  lemma JoinedLast(attrs: seq<set<nat>>, n: nat, a: nat)
    requires |attrs| == n
    ensures (attrs + [{n}])[n := (attrs + [{n}])[n] + {a}] == attrs + [{n, a}]
  {
    assert (attrs + [{n}])[n] == {n} && {n} + {a} == {n, a};
  }

  /** Command 6 with a new name: the next value is an attribute of that name. */
  lemma AttributeCommand(w: World, db: Db, c: Cmd, name: string, other: string)
    requires CmdOk(c) && c.cmd == 6 && IsName(c.args[0], Some(name))
    ensures var (db', ok) := ApplyCmd(w, db, c);
            var pol, pol', n := db.policy, db'.policy, |db.policy.typeStruct|;
            && ok && db'.others == db.others
            && (FindType(pol.types, name).Some? ==> db' == db)
            && (FindType(pol.types, name).None? ==>
                  && pol'.typeStruct == pol.typeStruct + [TypeDatum(n + 1, true, true, 0)]
                  && pol'.typeName == pol.typeName + [name] && pol'.typeAttr == pol.typeAttr + [{n}]
                  && FindType(pol'.types, other) ==
                     if other == name then Some(TypeDatum(n + 1, true, true, 0)) else FindType(pol.types, other))
  {
    NameIsText(c.args[0], Some(name));
    AddedIsFound(db.policy, w.place, name, true, other, 0);
  }

  /** Command 5 joins the type of its first argument to the attribute of its second; what that means is JoinMeans. */
  lemma JoinCommand(w: World, db: Db, c: Cmd, name: string, attr: string, x: nat)
    requires CmdOk(c) && c.cmd == 5 && IsName(c.args[0], Some(name)) && IsName(c.args[1], Some(attr)) && Indexed(db.policy)
    ensures var (db', ok) := ApplyCmd(w, db, c);
            var pol, pol' := db.policy, db'.policy;
            && (ok <==> CanJoin(pol, name, attr))
            && db' == db.(policy := pol.(typeAttr := pol'.typeAttr, classes := pol'.classes))
            && (ok && x < |pol.typeAttr| ==>
                  |pol'.typeAttr| == |pol.typeAttr| &&
                  pol'.typeAttr[x] == if x + 1 == FindType(pol.types, name).value.value
                                      then pol.typeAttr[x] + {FindType(pol.types, attr).value.value - 1}
                                      else pol.typeAttr[x])
  {
    NameIsText(c.args[0], Some(name));
    NameIsText(c.args[1], Some(attr));
    JoinMeans(w.place, db.policy, name, attr, x);
  }

  /** The argument at i stands for ALL. */
  predicate IsAll(c: Cmd, i: nat)
    requires i < |c.args|
  {
    c.args[i].None?
  }

  /**
   The commands outside this model reach the editor with these calls: extended permissions by subcommand, transitions with
   and without a file name (AVTAB_TRANSITION is 0x10), change (0x40) and member (0x20) rules; contexts always fail.
   */
  lemma OutsideCommands(c: Cmd)
    requires CmdOk(c)
    ensures var a, call := c.args, Meaning(c);
            && (c.cmd == 2 ==> call == if 1 <= c.subcmd <= 3 && !IsAll(c, 3) && !IsAll(c, 4)
                                       then Some(ExtendedRule(c.subcmd, a[0], a[1], a[2], a[4])) else None)
            && (c.cmd == 7 ==> call == if IsAll(c, 0) || IsAll(c, 1) || IsAll(c, 2) || IsAll(c, 3) then None
                                       else if IsAll(c, 4) then Some(TypeRule(0x10, a[0], a[1], a[2], a[3]))
                                       else Some(FileTransition(a[0], a[1], a[2], a[3], a[4])))
            && (c.cmd == 8 ==> call == if IsAll(c, 0) || IsAll(c, 1) || IsAll(c, 2) || IsAll(c, 3) then None
                                       else if c.subcmd == 1 then Some(TypeRule(0x40, a[0], a[1], a[2], a[3]))
                                       else if c.subcmd == 2 then Some(TypeRule(0x20, a[0], a[1], a[2], a[3]))
                                       else None)
            && (c.cmd == 9 ==> call == if IsAll(c, 0) || IsAll(c, 1) || IsAll(c, 2) then None
                                       else Some(Genfscon(a[0], a[1], a[2])))
  {
  }

  /** A call outside the model is noted and takes its own result, and leaves the policy of this model alone. */
  lemma OutsideIsNoted(w: World, db: Db, c: Cmd)
    requires CmdOk(c) && c.cmd in {2, 7, 8, 9}
    ensures var (db', ok) := ApplyCmd(w, db, c);
            && db'.policy == db.policy
            && (Meaning(c).None? || c.cmd == 9 ==> db' == db && !ok)
            && (Meaning(c).Some? && c.cmd != 9 ==> db'.others == db.others + [Meaning(c).value] && ok == w.succeeds(|db.others|))
  {
  }

  /** The errors of a batch as a whole: no data, more than 8 MiB, a fault, a failed copy, and a malformed command. */
  lemma BatchErrors(w: World, db: Db, data: Option<seq<Byte>>, fault: bool, dupError: int)
    ensures var (db', ret) := BatchResult(w, db, data, fault, dupError);
            && (data.None? || data.value == [] ==> (db', ret) == (db, -22))
            && (data.Some? && |data.value| > 8388608 ==> (db', ret) == (db, -7))
            && (data.Some? && 0 < |data.value| <= 8388608 ==>
                  && (fault ==> (db', ret) == (db, -14))
                  && (!fault && dupError < 0 ==> (db', ret) == (db, dupError))
                  && (!fault && dupError >= 0 && Parse(data.value).None? ==> (db', ret) == (db, -22))
                  && (!fault && dupError >= 0 && Parse(data.value).Some? ==> ret >= 0))
  {
  }
}
