/**
 The wire format of a policy batch (kernel/non_gki/rules.c:353-444): commands of a header and a fixed
 number of length-prefixed, NUL-terminated arguments. Parsing and encoding are inverse to each other.
 */
module BatchCodec {
  import opened Bytes
  import opened Options

  /** An argument; None is ALL, a null pointer in the kernel and length 0 on the wire. */
  type Arg = Option<seq<Byte>>

  datatype Cmd = Cmd(cmd: nat, subcmd: nat, args: seq<Arg>)

  const CMD_NORMAL_PERM: nat := 1
  const CMD_XPERM: nat := 2
  const CMD_TYPE_STATE: nat := 3
  const CMD_TYPE: nat := 4
  const CMD_TYPE_ATTR: nat := 5
  const CMD_ATTR: nat := 6
  const CMD_TYPE_TRANSITION: nat := 7
  const CMD_TYPE_CHANGE: nat := 8
  const CMD_GENFSCON: nat := 9

  const HEADER_SIZE: nat := 8
  const EINVAL: int := 22

  /** `sepol_expected_argc` */
  function ExpectedArgc(cmd: nat): Option<nat> {
    if cmd == CMD_NORMAL_PERM || cmd == CMD_TYPE_CHANGE then Some(4)
    else if cmd == CMD_XPERM || cmd == CMD_TYPE_TRANSITION then Some(5)
    else if cmd == CMD_TYPE_STATE || cmd == CMD_ATTR then Some(1)
    else if cmd == CMD_TYPE || cmd == CMD_TYPE_ATTR then Some(2)
    else if cmd == CMD_GENFSCON then Some(3)
    else None
  }

  // ----- encoding -----

  /** What can be written: ALL, or a string that is not empty, holds no NUL and has a 32-bit length. */
  predicate ArgOk(a: Arg) {
    a.Some? ==> a.value != [] && 0 !in a.value && |a.value| < Pow256(4)
  }

  predicate ArgsOk(args: seq<Arg>) {
    args != [] ==> ArgOk(args[0]) && ArgsOk(args[1..])
  }

  predicate CmdOk(c: Cmd) {
    c.cmd < Pow256(4) && c.subcmd < Pow256(4) && ExpectedArgc(c.cmd) == Some(|c.args|) && ArgsOk(c.args)
  }

  predicate CmdsOk(cmds: seq<Cmd>) {
    cmds != [] ==> CmdOk(cmds[0]) && CmdsOk(cmds[1..])
  }

  function EncodeArg(a: Arg): seq<Byte> {
    var s := if a.Some? then a.value else [];
    Le(|s|, 4) + s + [0]
  }

  function EncodeArgs(args: seq<Arg>): seq<Byte> {
    if args == [] then [] else EncodeArg(args[0]) + EncodeArgs(args[1..])
  }

  function EncodeCmd(c: Cmd): seq<Byte> {
    Le(c.cmd, 4) + Le(c.subcmd, 4) + EncodeArgs(c.args)
  }

  function Encode(cmds: seq<Cmd>): seq<Byte> {
    if cmds == [] then [] else EncodeCmd(cmds[0]) + Encode(cmds[1..])
  }

  // ----- parsing -----

  /** `sepol_read_string`: the argument and what is left. */
  function ParseArg(s: seq<Byte>): (r: Option<(Arg, seq<Byte>)>)
    ensures r.Some? ==> |r.value.1| < |s|
  {
    if |s| < 4 then None
    else
      var len, rest := UnLe(s[..4]), s[4..];
      if len >= |rest| || 0 in rest[..len] || rest[len] != 0 then None
      else Some((if len == 0 then None else Some(rest[..len]), rest[len + 1..]))
  }

  function ParseArgs(n: nat, s: seq<Byte>): (r: Option<(seq<Arg>, seq<Byte>)>)
    ensures r.Some? ==> |r.value.1| <= |s| && |r.value.0| == n
  {
    if n == 0 then Some(([], s))
    else
      var a := ParseArg(s);
      if a.None? then None
      else
        var rest := ParseArgs(n - 1, a.value.1);
        if rest.None? then None else Some(([a.value.0] + rest.value.0, rest.value.1))
  }

  function ParseCmd(s: seq<Byte>): (r: Option<(Cmd, seq<Byte>)>)
    ensures r.Some? ==> |r.value.1| < |s|
  {
    if |s| < HEADER_SIZE then None
    else
      var cmd, subcmd := UnLe(s[..4]), UnLe(s[4..8]);
      var argc := ExpectedArgc(cmd);
      if argc.None? then None
      else
        var args := ParseArgs(argc.value, s[8..]);
        if args.None? then None else Some((Cmd(cmd, subcmd, args.value.0), args.value.1))
  }

  /** The whole batch; None when any header or argument is malformed. */
  function Parse(s: seq<Byte>): Option<seq<Cmd>>
    decreases |s|
  {
    if s == [] then Some([])
    else
      var c := ParseCmd(s);
      if c.None? then None
      else
        var rest := Parse(c.value.1);
        if rest.None? then None else Some([c.value.0] + rest.value)
  }

  // ----- parsing the encoding -----

  lemma ArgBack(a: Arg, rest: seq<Byte>)
    requires ArgOk(a)
    ensures ParseArg(EncodeArg(a) + rest) == Some((a, rest))
  {
    var str := if a.Some? then a.value else [];
    var s := EncodeArg(a) + rest;
    LeThenUnLe(|str|, 4);
    assert s[..4] == Le(|str|, 4);
    assert s[4..] == str + [0] + rest;
    assert s[4..][..|str|] == str && s[4..][|str|] == 0 && s[4..][|str| + 1..] == rest;
  }

  lemma Regroup(a: seq<Byte>, b: seq<Byte>, c: seq<Byte>)
    ensures (a + b) + c == a + (b + c)
  {
  }

  /** One argument read, then the others. */
  lemma ParseArgsStep(n: nat, s: seq<Byte>, a: Arg, more: seq<Byte>, args: seq<Arg>, rest: seq<Byte>)
    requires n > 0 && ParseArg(s) == Some((a, more)) && ParseArgs(n - 1, more) == Some((args, rest))
    ensures ParseArgs(n, s) == Some(([a] + args, rest))
  {
  }

  lemma {:induction false} ArgsBack(args: seq<Arg>, rest: seq<Byte>)
    requires ArgsOk(args)
    ensures ParseArgs(|args|, EncodeArgs(args) + rest) == Some((args, rest))
  {
    if args == [] {
      assert EncodeArgs(args) + rest == rest;
    } else {
      var s, more := EncodeArgs(args) + rest, EncodeArgs(args[1..]) + rest;
      assert s == EncodeArg(args[0]) + more by { Regroup(EncodeArg(args[0]), EncodeArgs(args[1..]), rest); }
      ArgBack(args[0], more);
      ArgsBack(args[1..], rest);
      ParseArgsStep(|args|, s, args[0], more, args[1..], rest);
      assert [args[0]] + args[1..] == args;
    }
  }

  lemma CmdBack(c: Cmd, rest: seq<Byte>)
    requires CmdOk(c)
    ensures ParseCmd(EncodeCmd(c) + rest) == Some((c, rest))
  {
    var s := EncodeCmd(c) + rest;
    LeThenUnLe(c.cmd, 4);
    LeThenUnLe(c.subcmd, 4);
    assert s[..4] == Le(c.cmd, 4) && s[4..8] == Le(c.subcmd, 4) && s[8..] == EncodeArgs(c.args) + rest;
    ArgsBack(c.args, rest);
  }

  /** Parsing the encoding of any command list returns that list. */
  lemma {:induction false} EncodeThenParse(cmds: seq<Cmd>)
    requires CmdsOk(cmds)
    ensures Parse(Encode(cmds)) == Some(cmds)
  {
    if cmds != [] {
      CmdBack(cmds[0], Encode(cmds[1..]));
      EncodeThenParse(cmds[1..]);
      assert [cmds[0]] + cmds[1..] == cmds;
    }
  }

  // ----- encoding what was parsed -----

  lemma ArgExact(s: seq<Byte>)
    requires ParseArg(s).Some?
    ensures var (a, rest) := ParseArg(s).value; ArgOk(a) && EncodeArg(a) + rest == s
  {
    UnLeThenLe(s[..4]);
    var len := UnLe(s[..4]);
    assert s[4..] == s[4..][..len] + [0] + s[4..][len + 1..];
    assert s == s[..4] + s[4..];
  }

  lemma {:induction false} ArgsExact(n: nat, s: seq<Byte>)
    requires ParseArgs(n, s).Some?
    ensures ArgsOk(ParseArgs(n, s).value.0)
    ensures EncodeArgs(ParseArgs(n, s).value.0) + ParseArgs(n, s).value.1 == s
  {
    if n > 0 {
      var (a, more) := ParseArg(s).value;
      ArgExact(s);
      ArgsExact(n - 1, more);
      var (args, rest) := ParseArgs(n - 1, more).value;
      ConsArgs(a, args, rest);
    }
  }

  lemma ConsArgs(a: Arg, args: seq<Arg>, rest: seq<Byte>)
    ensures ArgsOk([a] + args) == (ArgOk(a) && ArgsOk(args))
    ensures EncodeArgs([a] + args) + rest == EncodeArg(a) + (EncodeArgs(args) + rest)
  {
    assert ([a] + args)[1..] == args;
  }

  lemma CmdExact(s: seq<Byte>)
    requires ParseCmd(s).Some?
    ensures var (c, rest) := ParseCmd(s).value; CmdOk(c) && EncodeCmd(c) + rest == s
  {
    var (c, rest) := ParseCmd(s).value;
    var a, b, d := s[..4], s[4..8], s[8..];
    UnLeThenLe(a);
    UnLeThenLe(b);
    ArgsExact(|c.args|, d);
    assert Le(c.cmd, 4) == a && Le(c.subcmd, 4) == b && EncodeArgs(c.args) + rest == d;
    Regroup(a + b, EncodeArgs(c.args), rest);
    JoinHeader(s);
  }

  lemma JoinHeader(s: seq<Byte>)
    requires |s| >= HEADER_SIZE
    ensures s == s[..4] + s[4..8] + s[8..]
  {
  }

  /** Any accepted byte string re-encodes to itself: no two batches mean the same commands. */
  lemma {:induction false} ParseThenEncode(s: seq<Byte>)
    requires Parse(s).Some?
    ensures CmdsOk(Parse(s).value) && Encode(Parse(s).value) == s
    decreases |s|
  {
    if s != [] {
      CmdExact(s);
      var (c, rest) := ParseCmd(s).value;
      ParseThenEncode(rest);
      assert ([c] + Parse(rest).value)[1..] == Parse(rest).value;
    }
  }

  /** The accepted strings are exactly the encodings of command lists. */
  lemma AcceptedAreEncodings(s: seq<Byte>)
    ensures Parse(s).Some? <==> exists cmds :: CmdsOk(cmds) && Encode(cmds) == s
  {
    if Parse(s).Some? {
      ParseThenEncode(s);
    }
    forall cmds | CmdsOk(cmds) && Encode(cmds) == s
      ensures Parse(s).Some?
    {
      EncodeThenParse(cmds);
    }
  }

  // ----- the cursor -----

  /** `struct sepol_batch_cursor`: a position in a payload. */
  class Cursor {
    const payload: seq<Byte>
    var cur: nat

    constructor (payload: seq<Byte>)
      ensures this.payload == payload && Valid() && Rest() == payload
    {
      this.payload, cur := payload, 0;
    }

    predicate Valid()
      reads this
    {
      cur <= |payload|
    }

    function Rest(): seq<Byte>
      requires Valid()
      reads this
    {
      payload[cur..]
    }

    /** `sepol_read_cmd_header` */
    method ReadCmdHeader() returns (ret: int, cmd: nat, subcmd: nat)
      requires Valid()
      modifies this`cur
      ensures Valid() && ret == if |old(Rest())| < HEADER_SIZE then -EINVAL else 0
      ensures ret == 0 ==> cmd == UnLe(old(Rest())[..4]) && subcmd == UnLe(old(Rest())[4..8]) && Rest() == old(Rest())[8..]
      ensures ret != 0 ==> cur == old(cur)
      ensures cur >= old(cur)
    {
      if |payload| - cur < HEADER_SIZE {
        return -EINVAL, 0, 0;
      }
      ret, cmd, subcmd := 0, UnLe(payload[cur..cur + 4]), UnLe(payload[cur + 4..cur + 8]);
      assert payload[cur..][..4] == payload[cur..cur + 4] && payload[cur..][4..8] == payload[cur + 4..cur + 8];
      cur := cur + HEADER_SIZE;
    }

    /** `sepol_read_string` */
    method ReadString() returns (ret: int, out: Arg)
      requires Valid()
      modifies this`cur
      ensures Valid() && cur >= old(cur) && ret == if ParseArg(old(Rest())).Some? then 0 else -EINVAL
      ensures ret == 0 ==> (out, Rest()) == ParseArg(old(Rest())).value
    {
      ghost var was := Rest();
      out := None;
      if |payload| - cur < 4 {
        return -EINVAL, None;
      }
      assert payload[cur..][..4] == payload[cur..cur + 4];
      var len := UnLe(payload[cur..cur + 4]);
      cur := cur + 4;
      assert Rest() == was[4..];
      if len >= |payload| - cur {
        return -EINVAL, None;
      }
      assert Rest()[..len] == payload[cur..cur + len];
      if 0 in payload[cur..cur + len] || payload[cur + len] != 0 {
        return -EINVAL, None;
      }
      if len != 0 {
        out := Some(payload[cur..cur + len]);
      }
      cur := cur + len + 1;
      ret := 0;
    }

    /** One turn of the argument loop. */
    method ReadArg(ghost argc: nat, ghost was: seq<Byte>, ghost args: seq<Arg>, ghost n: nat) returns (ret: int, arg: Arg)
      requires Valid() && n > 0 && ReadSoFar(argc, was, args, n, Rest())
      modifies this`cur
      ensures Valid() && cur >= old(cur) && ret in {0, -EINVAL}
      ensures ret == 0 ==> ReadSoFar(argc, was, args + [arg], n - 1, Rest())
      ensures ret != 0 ==> ParseArgs(argc, was).None?
    {
      ghost var before := Rest();
      ret, arg := ReadString();
      if ret == 0 {
        ReadOneMore(argc, was, args, n, before, arg, Rest());
      } else {
        ParseArgsFails(n, before);
      }
    }

    /** The argument loop of `handle_sepolicy`. */
    method ReadArgs(argc: nat) returns (ret: int, args: seq<Arg>)
      requires Valid()
      modifies this`cur
      ensures Valid() && cur >= old(cur) && ret == if ParseArgs(argc, old(Rest())).Some? then 0 else -EINVAL
      ensures ret == 0 ==> (args, Rest()) == ParseArgs(argc, old(Rest())).value
    {
      args := [];
      ghost var was := Rest();
      PrependNone(ParseArgs(argc, was));
      for i := 0 to argc
        invariant Valid() && cur >= old(cur) && ReadSoFar(argc, was, args, argc - i, Rest())
      {
        var arg;
        ret, arg := ReadArg(argc, was, args, argc - i);
        if ret != 0 {
          return;
        }
        args := args + [arg];
      }
      ParseNoArgs(args, Rest());
      ret := 0;
    }
  }

  /** The arguments read so far, and what the rest parses to, make up the whole. */
  ghost predicate ReadSoFar(argc: nat, was: seq<Byte>, args: seq<Arg>, n: nat, rest: seq<Byte>) {
    ParseArgs(argc, was) == Prepend(args, ParseArgs(n, rest))
  }

  lemma ReadOneMore(argc: nat, was: seq<Byte>, args: seq<Arg>, n: nat, rest: seq<Byte>, arg: Arg, more: seq<Byte>)
    requires n > 0 && ReadSoFar(argc, was, args, n, rest) && ParseArg(rest) == Some((arg, more))
    ensures ReadSoFar(argc, was, args + [arg], n - 1, more)
  {
    PrependOne(args, arg, n, rest);
  }

  lemma ParseArgsFails(n: nat, s: seq<Byte>)
    requires n > 0 && ParseArg(s).None?
    ensures ParseArgs(n, s).None?
  {
  }

  lemma ParseNoArgs(args: seq<Arg>, s: seq<Byte>)
    ensures Prepend(args, ParseArgs(0, s)) == Some((args, s))
  {
    assert args + [] == args;
  }

  /** What ParseArgs gives once some arguments were read before. */
  function Prepend(args: seq<Arg>, r: Option<(seq<Arg>, seq<Byte>)>): Option<(seq<Arg>, seq<Byte>)> {
    if r.None? then None else Some((args + r.value.0, r.value.1))
  }

  lemma PrependNone(r: Option<(seq<Arg>, seq<Byte>)>)
    ensures Prepend([], r) == r
  {
    if r.Some? { assert [] + r.value.0 == r.value.0; }
  }

  lemma PrependOne(args: seq<Arg>, arg: Arg, n: nat, s: seq<Byte>)
    requires n > 0 && ParseArg(s).Some? && ParseArg(s).value.0 == arg
    ensures Prepend(args, ParseArgs(n, s)) == Prepend(args + [arg], ParseArgs(n - 1, ParseArg(s).value.1))
  {
    var rest := ParseArgs(n - 1, ParseArg(s).value.1);
    if rest.Some? {
      assert args + ([arg] + rest.value.0) == args + [arg] + rest.value.0;
    }
  }
}
