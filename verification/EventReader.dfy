/**
 The event queue as an object: producers and the reader change it in place, section by section. `others` are
 the calls that other threads make while the reader is outside the spinlock.
 */
module EventReaders {
  import opened Bytes
  import opened Options
  import opened EventQueues
  import opened EventReads

  // ----- records on the wire -----

  /** The record that user space sees: a drop report is an internal record with the report as payload. */
  function Wire(o: Out): Record {
    match o
    case Node(node) => node
    case Report(d, ts) => Record(TYPE_DROPPED, FLAG_INTERNAL, d.first, ts, InfoBytes(d))
  }

  function InfoBytes(d: Drops): (r: seq<Byte>)
    ensures |r| == INFO_SIZE
  {
    Le(d.count, 8) + Le(d.first, 8) + Le(d.last, 8)
  }

  function HdrBytes(r: Record): (b: seq<Byte>)
    ensures |b| == HDR_SIZE
  {
    Le(r.typ, 2) + Le(r.flags, 2) + Le(|r.payload|, 4) + Le(r.seqNo, 8) + Le(r.ts, 8)
  }

  function RecordBytes(r: Record): (b: seq<Byte>)
    ensures |b| == RecordSize(|r.payload|)
  {
    HdrBytes(r) + r.payload
  }

  /** What a read puts into the user's buffer. */
  function Stream(out: seq<Out>): seq<Byte>
    decreases |out|
  {
    if out == [] then [] else Stream(out[..|out| - 1]) + RecordBytes(Wire(out[|out| - 1]))
  }

  /** The values fit their fields. */
  predicate Fits(r: Record) {
    r.typ < Pow256(2) && r.flags < Pow256(2) && |r.payload| < Pow256(4) && r.seqNo < Pow256(8) && r.ts < Pow256(8)
  }

  /** User space reading one record off the front. */
  function ReadRecord(s: seq<Byte>): Option<Record> {
    if |s| < HDR_SIZE then None
    else
      var len := UnLe(s[4..8]);
      if |s| < HDR_SIZE + len then None
      else Some(Record(UnLe(s[0..2]), UnLe(s[2..4]), UnLe(s[8..16]), UnLe(s[16..24]), s[24..24 + len]))
  }

  /** Reading all records of a buffer. */
  function ReadAll(s: seq<Byte>): Option<seq<Record>>
    decreases |s|
  {
    if s == [] then Some([])
    else
      var r := ReadRecord(s);
      if r.None? then None
      else
        var rest := ReadAll(s[RecordSize(|r.value.payload|)..]);
        if rest.None? then None else Some([r.value] + rest.value)
  }

  lemma ReadRecordBack(r: Record, rest: seq<Byte>)
    requires Fits(r)
    ensures ReadRecord(RecordBytes(r) + rest) == Some(r)
  {
    var s := RecordBytes(r) + rest;
    LeThenUnLe(r.typ, 2);
    LeThenUnLe(r.flags, 2);
    LeThenUnLe(|r.payload|, 4);
    LeThenUnLe(r.seqNo, 8);
    LeThenUnLe(r.ts, 8);
    assert s[0..2] == Le(r.typ, 2) && s[2..4] == Le(r.flags, 2) && s[4..8] == Le(|r.payload|, 4);
    assert s[8..16] == Le(r.seqNo, 8) && s[16..24] == Le(r.ts, 8) && s[24..24 + |r.payload|] == r.payload;
  }

  function Wires(out: seq<Out>): seq<Record> {
    if out == [] then [] else [Wire(out[0])] + Wires(out[1..])
  }

  lemma {:induction false} StreamFromFront(out: seq<Out>)
    requires out != []
    ensures Stream(out) == RecordBytes(Wire(out[0])) + Stream(out[1..])
    decreases |out|
  {
    var n := |out| - 1;
    if n > 0 {
      StreamFromFront(out[..n]);
      assert out[..n][1..] == out[1..][..n - 1] && out[1..][n - 1] == out[n];
      assert out[..n][0] == out[0];
    }
  }

  /** The bytes of a read tell its records apart: nothing is cut, merged or lost on the way to user space. */
  lemma {:induction false} StreamReadsBack(out: seq<Out>)
    requires forall i :: 0 <= i < |out| ==> Fits(Wire(out[i]))
    ensures ReadAll(Stream(out)) == Some(Wires(out))
    decreases |out|
  {
    if out != [] {
      StreamFromFront(out);
      var r := Wire(out[0]);
      ReadRecordBack(r, Stream(out[1..]));
      assert Stream(out)[RecordSize(|r.payload|)..] == Stream(out[1..]);
      StreamReadsBack(out[1..]);
    }
  }

  /** The header's fields in the bytes of a record, which its payload follows. */
  lemma WireFields(r: Record)
    requires Fits(r)
    ensures var b := RecordBytes(r);
            && |b| == 24 + |r.payload| && b[24..] == r.payload
            && r.typ == Word2(b, 0) && r.flags == Word2(b, 2) && |r.payload| == Word4(b, 4)
            && r.seqNo == Word8(b, 8) && r.ts == Word8(b, 16)
  {
    var b := RecordBytes(r);
    assert b[0..2] == Le(r.typ, 2) && b[2..4] == Le(r.flags, 2) && b[4..8] == Le(|r.payload|, 4);
    assert b[8..16] == Le(r.seqNo, 8) && b[16..24] == Le(r.ts, 8);
    Written(b, 0, r.typ, 2);
    Written(b, 2, r.flags, 2);
    Written(b, 4, |r.payload|, 4);
    Written(b, 8, r.seqNo, 8);
    Written(b, 16, r.ts, 8);
  }

  /** A report on the wire: type 0xffff, the internal flag, and 24 bytes of payload: count, first and last number. */
  lemma ReportOnWire(d: Drops, ts: nat)
    requires d.count < Pow256(8) && d.first < Pow256(8) && d.last < Pow256(8) && ts < Pow256(8)
    ensures var b := RecordBytes(Wire(Report(d, ts)));
            && |b| == 48 && Word2(b, 0) == 0xffff && Word2(b, 2) == 1 && Word4(b, 4) == 24
            && Word8(b, 8) == d.first && Word8(b, 16) == ts
            && Word8(b[24..], 0) == d.count && Word8(b[24..], 8) == d.first && Word8(b[24..], 16) == d.last
  {
    Widths();
    WireFields(Wire(Report(d, ts)));
    ReportPayload(d, InfoBytes(d));
  }

  lemma ReportPayload(d: Drops, p: seq<Byte>)
    requires d.count < Pow256(8) && d.first < Pow256(8) && d.last < Pow256(8) && p == InfoBytes(d)
    ensures |p| == 24 && Word8(p, 0) == d.count && Word8(p, 8) == d.first && Word8(p, 16) == d.last
  {
    assert p[0..8] == Le(d.count, 8) && p[8..16] == Le(d.first, 8) && p[16..24] == Le(d.last, 8);
    Written(p, 0, d.count, 8);
    Written(p, 8, d.first, 8);
    Written(p, 16, d.last, 8);
  }

  // ----- one turn and a whole read -----

  /** The helper's result: nothing to do, an error that hands nothing out, or one whole record. */
  predicate OneRecord(a: Queue, b: Queue, ret: int, at: nat, count: nat, was: seq<Byte>, bytes: seq<Byte>)
    requires at + count <= |bytes|
  {
    if ret > 0 then
      && ret <= count && |b.out| == |a.out| + 1 && b.out[..|a.out|] == a.out
      && bytes[..at + ret] == was + RecordBytes(Wire(b.out[|a.out|]))
    else
      ret in {0, -EMSGSIZE, -EFAULT} && b.out == a.out && bytes[..at] == was
  }

  lemma StreamGrows(start: seq<Out>, a: seq<Out>, b: seq<Out>)
    requires start <= a && |b| == |a| + 1 && b[..|a|] == a
    ensures start <= b
    ensures Stream(b[|start|..]) == Stream(a[|start|..]) + RecordBytes(Wire(b[|a|]))
  {
    var n := |start|;
    assert b[n..][..|b| - n - 1] == a[n..];
    assert b[..n] == a[..n];
  }

  /** What a push returns. */
  function PushResult(q: Queue, payload: Payload, gotNode: bool): int {
    if payload.Len() > q.maxPayload then -EMSGSIZE
    else if payload.Null? && payload.len > 0 then -EINVAL
    else if q.closed then -EPIPE
    else if !gotNode then -ENOMEM
    else if Full(q) then -ENOSPC
    else 0
  }

  /** Success means accepted; no memory and no space mean counted as lost; any other error leaves no trace. */
  lemma PushResultTells(q: Queue, typ: nat, flags: nat, payload: Payload, gotNode: bool, now: nat)
    ensures var q', ret := Next(q, Push(typ, flags, payload, gotNode, now)), PushResult(q, payload, gotNode);
            && (ret == 0 <==> AcceptedOf(q'.log) == AcceptedOf(q.log) + [Record(typ, flags, q.nextSeq, now, payload.Value())])
            && (ret in {-ENOSPC, -ENOMEM} <==> LostOf(q'.log) == LostOf(q.log) + [|q.log| + 1])
            && (ret !in {0, -ENOSPC, -ENOMEM} <==> q' == q)
  {
    var q' := Next(q, Push(typ, flags, payload, gotNode, now));
    if q'.log != q.log {
      assert q'.log[..|q.log|] == q.log;
    }
  }

  /** A drop issues a number and loses it, and a close takes nothing back; a closed queue ignores both. */
  lemma DropAndCloseTell(q: Queue)
    ensures var q' := Next(q, Drop);
            && (q.closed ==> q' == q)
            && (!q.closed ==> && LostOf(q'.log) == LostOf(q.log) + [|q.log| + 1] && AcceptedOf(q'.log) == AcceptedOf(q.log)
                              && q'.pending == q.pending && q'.nextSeq == q.nextSeq + 1 && q'.droppedTotal == q.droppedTotal + 1)
    ensures Next(q, Close).closed && Next(q, Close).(closed := q.closed) == q
  {
    if !q.closed { assert Next(q, Drop).log[..|q.log|] == q.log; }
  }

  /** The error of each refusal: too long, a null pointer, closed, no memory, no space. */
  lemma PushErrors(q: Queue, payload: Payload, gotNode: bool)
    ensures var ret, long := PushResult(q, payload, gotNode), payload.Len() > q.maxPayload;
            var bad := payload.Null? && payload.len > 0;
            && (ret == -90 <==> long)
            && (ret == -22 <==> !long && bad)
            && (ret == -32 <==> !long && !bad && q.closed)
            && (ret == -12 <==> !long && !bad && !q.closed && !gotNode)
            && (ret == -28 <==> !long && !bad && !q.closed && gotNode && q.maxQueued != 0 && q.maxQueued <= q.queued)
            && (ret == 0 <==> !long && !bad && !q.closed && gotNode && (q.maxQueued == 0 || q.queued < q.maxQueued))
  {
  }

  /** `copy_to_user`: bytes that could not be copied. */
  method CopyToUser(buf: array<Byte>, at: nat, data: seq<Byte>, fault: Option<nat>) returns (left: nat)
    requires at + |data| <= buf.Length
    modifies buf
    ensures buf[..at] == old(buf[..at])
    ensures left == 0 ==> buf[at..at + |data|] == data
    ensures left != 0 <==> fault.Some? && fault.value < |data|
  {
    var i := 0;
    while i < |data| && !(fault.Some? && fault.value <= i)
      invariant i <= |data| && buf[..at] == old(buf[..at]) && buf[at..at + i] == data[..i]
      invariant fault.Some? && fault.value < |data| ==> i <= fault.value
    {
      buf[at + i] := data[i];
      i := i + 1;
    }
    left := |data| - i;
  }

  /** Header, then payload if there is one. */
  method CopyRecord(buf: array<Byte>, at: nat, r: Record, t: Turn) returns (ok: bool)
    requires at + RecordSize(|r.payload|) <= buf.Length
    modifies buf
    ensures buf[..at] == old(buf[..at])
    ensures ok ==> buf[..at + RecordSize(|r.payload|)] == old(buf[..at]) + RecordBytes(r)
    ensures ok <==> !Faults(t, |r.payload|)
  {
    var left := CopyToUser(buf, at, HdrBytes(r), t.hdrFault);
    if left != 0 {
      return false;
    }
    if |r.payload| != 0 {
      assert buf[..at + HDR_SIZE] == old(buf[..at]) + HdrBytes(r);
      left := CopyToUser(buf, at + HDR_SIZE, r.payload, t.bodyFault);
      if left != 0 {
        return false;
      }
    }
    ok := true;
    assert buf[..at + RecordSize(|r.payload|)] == buf[..at + HDR_SIZE] + buf[at + HDR_SIZE..at + RecordSize(|r.payload|)];
  }

  class EventQueue {
    var pending: seq<Record>
    var queued: nat
    const maxQueued: nat
    const maxPayload: nat
    var nextSeq: nat
    var droppedTotal: nat
    var dropped: Drops                // dropped_pending, dropped_first_seq and dropped_last_seq
    var inflight: Drops               // dropped_inflight and its first and last number
    var closed: bool
    ghost var reader: Reader
    ghost var log: seq<Issue>
    ghost var out: seq<Out>
    ghost var trace: seq<Step>        // every locked section so far

    ghost function State(): Queue
      reads this
    {
      Queue(pending, queued, maxQueued, maxPayload, nextSeq, droppedTotal,
            dropped, inflight, closed, reader, log, out)
    }

    /** The queue is where the steps taken so far lead. */
    ghost predicate Valid()
      reads this
    {
      State() == Run(Fresh(maxQueued, maxPayload), trace)
    }

    /** `ksu_event_queue_init` */
    constructor (maxQueued: nat, maxPayload: nat)
      ensures Valid() && State() == Fresh(maxQueued, maxPayload) && trace == []
    {
      pending, queued, this.maxQueued, this.maxPayload, nextSeq, droppedTotal := [], 0, maxQueued, maxPayload, 1, 0;
      dropped, inflight, closed := NO_DROPS, NO_DROPS, false;
      reader, log, out, trace := Idle, [], [], [];
    }

    /** Record that a step was taken. */
    ghost method Took(st: Step, was: Queue)
      requires was == Run(Fresh(maxQueued, maxPayload), trace) && State() == Next(was, st)
      modifies this`trace
      ensures Valid() && trace == old(trace) + [st] && State() == old(State())
    {
      trace := trace + [st];
      assert trace[..|trace| - 1] == old(trace);
    }

    method NoteDrop(no: nat)
      modifies this`droppedTotal, this`dropped
      ensures State() == old(State()).(droppedTotal := old(droppedTotal) + 1, dropped := Noted(old(State()).dropped, no))
    {
      droppedTotal := droppedTotal + 1;
      if dropped.count == 0 {
        dropped := dropped.(first := no);
      }
      dropped := dropped.(count := dropped.count + 1, last := no);
    }

    /** `ksu_event_queue_push` */
    method PushEvent(typ: nat, flags: nat, payload: Payload, gotNode: bool, now: nat) returns (ret: int)
      requires Valid()
      modifies this
      ensures Valid() && trace == old(trace) + [Push(typ, flags, payload, gotNode, now)]
      ensures State() == Pushed(old(State()), typ, flags, payload, gotNode, now)
      ensures ret == PushResult(old(State()), payload, gotNode)
    {
      ghost var was, st := State(), Push(typ, flags, payload, gotNode, now);
      if payload.Len() > maxPayload {
        Took(st, was);
        return -EMSGSIZE;
      }
      if payload.Len() != 0 && payload.Null? {
        Took(st, was);
        return -EINVAL;
      }
      if closed {
        Took(st, was);
        return -EPIPE;
      }
      var no := nextSeq;
      nextSeq := nextSeq + 1;
      if !gotNode || (maxQueued != 0 && queued >= maxQueued) {
        NoteDrop(no);
        log := log + [Lost];
        Took(st, was);
        return if gotNode then -ENOSPC else -ENOMEM;
      }
      var node := Record(typ, flags, no, now, payload.Value());
      pending := pending + [node];
      queued := queued + 1;
      log := log + [Accepted(node)];
      Took(st, was);
      return 0;
    }

    /** `ksu_event_queue_drop` */
    method DropEvent()
      requires Valid()
      modifies this
      ensures Valid() && trace == old(trace) + [Drop] && State() == Next(old(State()), Drop)
    {
      ghost var was := State();
      if !closed {
        var no := nextSeq;
        nextSeq := nextSeq + 1;
        NoteDrop(no);
        log := log + [Lost];
      }
      Took(Drop, was);
    }

    /** `ksu_event_queue_close` */
    method CloseQueue()
      requires Valid()
      modifies this
      ensures Valid() && trace == old(trace) + [Close] && State() == Next(old(State()), Close)
    {
      ghost var was := State();
      closed := true;
      Took(Close, was);
    }

    /** `ksu_event_queue_has_data` */
    method Ready() returns (r: bool)
      ensures r == HasData(State())
    {
      r := dropped.count != 0 || inflight.count != 0 || pending != [];
    }

    /** A call by another thread. */
    method OtherCall(c: Call)
      requires Valid()
      modifies this
      ensures Valid() && trace == old(trace) + [StepOf(c)] && State() == Next(old(State()), StepOf(c))
    {
      match c
      case PushCall(typ, flags, payload, gotNode, now) => var _ := PushEvent(typ, flags, payload, gotNode, now);
      case DropCall => DropEvent();
      case CloseCall => CloseQueue();
    }

    /** Other threads run while the reader does not hold the spinlock. */
    method Others(calls: seq<Call>)
      requires Valid()
      modifies this
      ensures Valid() && trace == old(trace) + StepsOf(calls) && Kept(old(State()), State())
      ensures State() == After(old(State()), calls)
    {
      for i := 0 to |calls|
        invariant Valid() && trace == old(trace) + StepsOf(calls[..i]) && Kept(old(State()), State())
        invariant State() == After(old(State()), calls[..i])
      {
        assert calls[..i + 1][..i] == calls[..i];
        KeptStep(old(State()), State(), calls[i]);
        OtherCall(calls[i]);
      }
      assert calls[..|calls|] == calls;
    }

    /** The first section of `read_drop`: what is taken, if there is anything and room for it. */
    method TakeDropped(count: nat, now: nat) returns (ret: int, info: Drops)
      requires Valid() && reader.Idle?
      modifies this
      ensures Valid() && trace == old(trace) + [TakeDrops(count, now)] && State() == Taken(old(State()), count, now)
      ensures ret == if old(dropped).count == 0 then 0 else if count < RecordSize(INFO_SIZE) then -EMSGSIZE else RecordSize(INFO_SIZE)
      ensures ret > 0 ==> reader == CopyingDrops(now) && info == State().inflight
    {
      ghost var was := State();
      info := NO_DROPS;
      if dropped.count == 0 {
        ret := 0;
      } else if count < RecordSize(INFO_SIZE) {
        ret := -EMSGSIZE;
      } else {
        ret := RecordSize(INFO_SIZE);
        info := dropped;
        inflight := dropped;
        dropped := NO_DROPS;
        reader := CopyingDrops(now);
      }
      Took(TakeDrops(count, now), was);
    }

    /** The second section after a good copy. */
    method ForgetInflight()
      requires Valid() && reader.CopyingDrops?
      modifies this
      ensures Valid() && trace == old(trace) + [DropsCopied] && State() == Reported(old(State()))
    {
      ghost var was := State();
      out := out + [Report(State().inflight, reader.ts)];
      inflight, reader := NO_DROPS, Idle;
      Took(DropsCopied, was);
    }

    /** The second section after a fault, which may find newer drops. */
    method RestoreInflight()
      requires Valid() && reader.CopyingDrops?
      modifies this
      ensures Valid() && trace == old(trace) + [DropsFaulted] && State() == Restored(old(State()))
    {
      ghost var was := State();
      if dropped.count == 0 {
        dropped := inflight;
      } else {
        dropped := dropped.(count := dropped.count + inflight.count, first := inflight.first);
      }
      inflight, reader := NO_DROPS, Idle;
      Took(DropsFaulted, was);
    }

    /** `ksu_event_queue_read_drop` */
    method ReadDrop(buf: array<Byte>, at: nat, count: nat, t: Turn) returns (ret: int)
      requires Valid() && reader.Idle? && at + count <= buf.Length
      modifies this, buf
      ensures Valid() && reader.Idle? && (State(), ret) == DropTurn(old(State()), count, t)
      ensures OneRecord(old(State()), State(), ret, at, count, old(buf[..at]), buf[..])
      ensures ret == 0 ==> Kept(old(State()), State()) && old(dropped).count == 0
    {
      Others(t.before);
      var info;
      ret, info := TakeDropped(count, t.now);
      if ret <= 0 {
        return;
      }
      Others(t.during);
      var ok := CopyRecord(buf, at, Wire(Report(info, t.now)), t);
      if !ok {
        RestoreInflight();
        return -EFAULT;
      }
      ForgetInflight();
    }

    /** `ksu_event_queue_read_node` */
    method ReadNode(buf: array<Byte>, at: nat, count: nat, t: Turn) returns (ret: int)
      requires Valid() && reader.Idle? && at + count <= buf.Length
      modifies this, buf
      ensures Valid() && reader.Idle? && (State(), ret) == NodeTurn(old(State()), count, t)
      ensures OneRecord(old(State()), State(), ret, at, count, old(buf[..at]), buf[..])
      ensures ret == 0 ==> Kept(old(State()), State()) && pending == []
    {
      Others(t.before);
      var node;
      ret, node := PeekFirst(count);
      if ret <= 0 {
        return;
      }
      Others(t.during);
      var ok := CopyRecord(buf, at, node, t);
      if !ok {
        LetGo();
        return -EFAULT;
      }
      DeleteNode(node);
    }

    method PeekFirst(count: nat) returns (ret: int, node: Record)
      requires Valid() && reader.Idle?
      modifies this
      ensures Valid() && trace == old(trace) + [PeekNode(count)] && State() == Peeked(old(State()), count)
      ensures ret == if pending == [] then 0
                     else if count < RecordSize(|pending[0].payload|) then -EMSGSIZE else RecordSize(|pending[0].payload|)
      ensures ret > 0 ==> node == pending[0] && reader == CopyingNode(node)
    {
      ghost var was := State();
      node := Record(0, 0, 0, 0, []);
      if pending == [] {
        ret := 0;
      } else if count < RecordSize(|pending[0].payload|) {
        ret := -EMSGSIZE;
      } else {
        node, ret := pending[0], RecordSize(|pending[0].payload|);
        reader := CopyingNode(node);
      }
      Took(PeekNode(count), was);
    }

    /** The copy failed: the node stays queued. */
    ghost method LetGo()
      requires Valid() && reader.CopyingNode?
      modifies this
      ensures Valid() && trace == old(trace) + [NodeFaulted] && State() == Next(old(State()), NodeFaulted)
    {
      var was := State();
      reader := Idle;
      Took(NodeFaulted, was);
    }

    method DeleteNode(node: Record)
      requires Valid() && reader == CopyingNode(node)
      modifies this
      ensures Valid() && trace == old(trace) + [NodeCopied] && State() == Delivered(old(State()))
    {
      ghost var was := State();
      RunAccounts(maxQueued, maxPayload, trace);
      pending := Delete(pending, node);
      queued := queued - 1;
      out := out + [Node(node)];
      reader := Idle;
      Took(NodeCopied, was);
    }

    /** `ksu_event_queue_wait_ready`: with one reader a second look always succeeds, so the loop ends. */
    method WaitReady(nonBlocking: bool, w: World) returns (ret: int)
      requires Valid()
      modifies this
      ensures Valid() && Kept(old(State()), State()) && (State(), ret) == Waited(old(State()), nonBlocking, w)
      ensures ret == 0 ==> closed || HasData(State())
    {
      var woken := false;
      while true
        invariant Valid() && Kept(old(State()), State()) && (woken ==> closed || HasData(State()))
        invariant !woken ==> State() == old(State())
        invariant woken ==> !nonBlocking && Slept(old(State()), State(), w)
        decreases !woken
      {
        var ready := Ready();
        if ready {
          return 0;
        }
        Others(w.between(woken));
        if closed {
          return 0;
        }
        if nonBlocking {
          return -EAGAIN;
        }
        Others(w.asleep);
        ready := Ready();
        if !(closed || ready) {
          return -ERESTARTSYS;
        }
        woken := true;
      }
    }

    /** One turn of the read loop: a drop report if there is one, or else a node. */
    method ReadOne(buf: array<Byte>, at: nat, count: nat, dropTurn: Turn, nodeTurn: Turn) returns (ret: int)
      requires Valid() && reader.Idle? && at + count <= buf.Length
      modifies this, buf
      ensures Valid() && reader.Idle? && (State(), ret) == OneTurn(old(State()), count, dropTurn, nodeTurn)
      ensures OneRecord(old(State()), State(), ret, at, count, old(buf[..at]), buf[..])
      ensures ret == 0 && (old(closed) || HasData(old(State()))) ==> Finished(State())
    {
      ghost var a, path := State(), trace;
      ret := ReadDrop(buf, at, count, dropTurn);
      if ret != 0 {
        return;
      }
      ghost var b := State();
      ret := ReadNode(buf, at, count, nodeTurn);
      if ret == 0 && (a.closed || HasData(a)) {
        RunAccounts(maxQueued, maxPayload, path);
        NothingLeft(a, b, State());
      }
    }

    /** The loop of a read, in a queue that is ready. */
    method ReadTurns(buf: array<Byte>, size: nat, w: World) returns (copied: int)
      requires Valid() && reader.Idle? && 0 < size <= buf.Length && (closed || HasData(State()))
      modifies this, buf
      ensures Valid() && reader.Idle? && (State(), copied) == Turns(old(State()), size, 0, 0, w)
      ensures old(out) <= out && (copied <= 0 ==> out == old(out))
      ensures copied >= 0 ==> copied <= size && buf[..copied] == Stream(out[|old(out)|..])
      ensures copied == 0 ==> Finished(State())
    {
      var ret;
      copied := 0;
      ghost var all := Turns(State(), size, 0, 0, w);
      var at: nat, count: nat, turn: nat := 0, size, 0;
      while count > 0
        invariant Valid() && reader.Idle? && at + count == size && copied == at
        invariant EndsAs(State(), count, at, turn, w, all)
        invariant old(out) <= out && buf[..at] == Stream(out[|old(out)|..])
        invariant copied == 0 ==> out == old(out) && (closed || HasData(State()))
        decreases count
      {
        ghost var before, q, was := out, State(), (count, at, turn);
        var dropTurn, nodeTurn := w.dropTurn(turn), w.nodeTurn(turn);
        ret := ReadOne(buf, at, count, dropTurn, nodeTurn);
        LastTurn(q, count, at, turn, w, dropTurn, nodeTurn, State(), ret, all);
        if ret < 0 {
          if copied == 0 {
            copied := ret;
          }
          break;
        }
        if ret == 0 {
          break;
        }
        StreamGrows(old(out), before, out);
        copied, at, count, turn := copied + ret, at + ret, count - ret, turn + 1;
        NextTurn(q, was.0, was.1, was.2, w, dropTurn, nodeTurn, State(), ret, all, count, at, turn);
      }
    }

    /** `ksu_event_queue_read` */
    method ReadEvents(buf: array<Byte>, size: nat, nonBlocking: bool, w: World) returns (copied: int)
      requires Valid() && reader.Idle? && size <= buf.Length
      modifies this, buf
      ensures Valid() && reader.Idle? && (State(), copied) == ReadOf(old(State()), size, nonBlocking, w)
      ensures old(out) <= out && (copied <= 0 ==> out == old(out))
      ensures copied >= 0 ==> copied <= size && buf[..copied] == Stream(out[|old(out)|..])
      ensures copied == 0 && size != 0 ==> Finished(State())
    {
      copied := 0;
      if size == 0 {
        return;
      }
      Others(w.atStart);
      if w.interrupted {
        return -EINTR;
      }
      var ret := WaitReady(nonBlocking, w);
      if ret != 0 {
        return ret;
      }
      copied := ReadTurns(buf, size, w);
      if copied == 0 && closed {
        copied := 0;
      }
    }
  }
}
