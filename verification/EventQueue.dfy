/**
 The event queue (kernel/infra/event_queue.c): a bounded FIFO with sequence numbers and drop accounting.
 The reader copies to user space without the spinlock, so producers run between its locked sections.
 Here every locked section is one step of a state machine; the class in EventReaders takes the steps in place.
 */
module EventQueues {
  import opened Bytes

  /** A queued node: `struct ksu_event_record_hdr` and the payload; `len` is the payload's length. */
  datatype Record = Record(typ: nat, flags: nat, seqNo: nat, ts: nat, payload: seq<Byte>)

  /** A run of drops: how many, and the sequence numbers of the first and the last; all 0 when there are none. */
  datatype Drops = Drops(count: nat, first: nat, last: nat)

  const NO_DROPS := Drops(0, 0, 0)

  /** What became of one issued sequence number. */
  datatype Issue = Accepted(node: Record) | Lost

  /** What the reader handed out. */
  datatype Out = Node(node: Record) | Report(drops: Drops, ts: nat)

  /** Where the one reader is between its locked sections. */
  datatype Reader = Idle | CopyingDrops(ts: nat) | CopyingNode(node: Record)

  /** The payload argument of a push: a null pointer with a length, or bytes. */
  datatype Payload = Null(len: nat) | Data(bytes: seq<Byte>)
  {
    function Len(): nat {
      if Null? then len else |bytes|
    }

    function Value(): seq<Byte> {
      if Null? then [] else bytes
    }
  }

  datatype Queue = Queue(
    pending: seq<Record>, queued: nat, maxQueued: nat, maxPayload: nat, nextSeq: nat,
    droppedTotal: nat, dropped: Drops, inflight: Drops, closed: bool,
    reader: Reader, log: seq<Issue>, out: seq<Out>) // the last three only record what happened

  // ----- the steps -----

  datatype Step =
    | Push(typ: nat, flags: nat, payload: Payload, gotNode: bool, now: nat)
    | Drop
    | Close
    | TakeDrops(room: nat, now: nat)
    | DropsCopied
    | DropsFaulted
    | PeekNode(room: nat)
    | NodeCopied
    | NodeFaulted

  const HDR_SIZE: nat := 24
  const INFO_SIZE: nat := 24
  const TYPE_DROPPED: nat := 0xFFFF
  const FLAG_INTERNAL: nat := 1

  function RecordSize(payloadLen: nat): nat {
    HDR_SIZE + payloadLen
  }

  function Fresh(maxQueued: nat, maxPayload: nat): Queue {
    Queue([], 0, maxQueued, maxPayload, 1, 0, NO_DROPS, NO_DROPS, false, Idle, [], [])
  }

  /** `ksu_event_queue_note_drop_locked` */
  function Noted(d: Drops, no: nat): Drops {
    Drops(d.count + 1, if d.count == 0 then no else d.first, no)
  }

  /** A sequence number is issued and dropped at once. */
  function DropOne(q: Queue): Queue {
    q.(nextSeq := q.nextSeq + 1, droppedTotal := q.droppedTotal + 1, dropped := Noted(q.dropped, q.nextSeq),
       log := q.log + [Lost])
  }

  function Enqueue(q: Queue, typ: nat, flags: nat, payload: seq<Byte>, now: nat): Queue {
    var node := Record(typ, flags, q.nextSeq, now, payload);
    q.(nextSeq := q.nextSeq + 1, pending := q.pending + [node], queued := q.queued + 1, log := q.log + [Accepted(node)])
  }

  predicate Full(q: Queue) {
    q.maxQueued != 0 && q.queued >= q.maxQueued
  }

  /** `list_del` of a node, wherever it is in the list. */
  function Delete(s: seq<Record>, node: Record): seq<Record> {
    if s == [] then [] else if s[0] == node then s[1..] else [s[0]] + Delete(s[1..], node)
  }

  /** Restoring the taken drops: newer ones may have arrived during the failed copy. */
  function Merged(taken: Drops, newer: Drops): Drops {
    if newer.count == 0 then taken else Drops(newer.count + taken.count, taken.first, newer.last)
  }

  predicate HasData(q: Queue) {
    q.dropped.count != 0 || q.inflight.count != 0 || q.pending != []
  }

  function Pushed(q: Queue, typ: nat, flags: nat, payload: Payload, gotNode: bool, now: nat): Queue {
    if payload.Len() > q.maxPayload || (payload.Null? && payload.len > 0) || q.closed then q
    else if !gotNode || Full(q) then DropOne(q)
    else Enqueue(q, typ, flags, payload.Value(), now)
  }

  /** The first section of `read_drop`: the drops become inflight, if there are any and room for their report. */
  function Taken(q: Queue, room: nat, now: nat): Queue {
    if !q.reader.Idle? || q.dropped.count == 0 || room < RecordSize(INFO_SIZE) then q
    else q.(inflight := q.dropped, dropped := NO_DROPS, reader := CopyingDrops(now))
  }

  function Reported(q: Queue): Queue {
    if !q.reader.CopyingDrops? then q
    else q.(inflight := NO_DROPS, reader := Idle, out := q.out + [Report(q.inflight, q.reader.ts)])
  }

  function Restored(q: Queue): Queue {
    if !q.reader.CopyingDrops? then q
    else q.(dropped := Merged(q.inflight, q.dropped), inflight := NO_DROPS, reader := Idle)
  }

  /** The first section of `read_node`. */
  function Peeked(q: Queue, room: nat): Queue {
    if !q.reader.Idle? || q.pending == [] || room < RecordSize(|q.pending[0].payload|) then q
    else q.(reader := CopyingNode(q.pending[0]))
  }

  function Delivered(q: Queue): Queue {
    if !q.reader.CopyingNode? then q
    else q.(pending := Delete(q.pending, q.reader.node), queued := if q.queued > 0 then q.queued - 1 else 0,
            reader := Idle, out := q.out + [Node(q.reader.node)])
  }

  /** One locked section; a step that is not possible leaves the queue as it is. */
  function Next(q: Queue, st: Step): Queue {
    match st
    case Push(typ, flags, payload, gotNode, now) => Pushed(q, typ, flags, payload, gotNode, now)
    case Drop => if q.closed then q else DropOne(q)
    case Close => q.(closed := true)
    case TakeDrops(room, now) => Taken(q, room, now)
    case DropsCopied => Reported(q)
    case DropsFaulted => Restored(q)
    case PeekNode(room) => Peeked(q, room)
    case NodeCopied => Delivered(q)
    case NodeFaulted => if !q.reader.CopyingNode? then q else q.(reader := Idle)
  }

  function Run(q: Queue, steps: seq<Step>): Queue
    decreases |steps|
  {
    if steps == [] then q else Next(Run(q, steps[..|steps| - 1]), steps[|steps| - 1])
  }

  // ----- what the queue owes -----

  /** The nodes that a log accepted, in push order. */
  function AcceptedOf(log: seq<Issue>): seq<Record>
    decreases |log|
  {
    if log == [] then []
    else AcceptedOf(log[..|log| - 1]) + if log[|log| - 1].Accepted? then [log[|log| - 1].node] else []
  }

  /** The sequence numbers that a log lost, in order; numbers start at 1. */
  function LostOf(log: seq<Issue>): seq<nat>
    decreases |log|
  {
    if log == [] then [] else LostOf(log[..|log| - 1]) + if log[|log| - 1].Lost? then [|log|] else []
  }

  function DeliveredOf(out: seq<Out>): seq<Record>
    decreases |out|
  {
    if out == [] then []
    else DeliveredOf(out[..|out| - 1]) + if out[|out| - 1].Node? then [out[|out| - 1].node] else []
  }

  /** How many drops the reports counted. */
  function ReportedOf(out: seq<Out>): nat
    decreases |out|
  {
    if out == [] then 0
    else ReportedOf(out[..|out| - 1]) + if out[|out| - 1].Report? then out[|out| - 1].drops.count else 0
  }

  /** The drops are exactly the given numbers: their count, and their ends. */
  predicate Describes(d: Drops, nos: seq<nat>) {
    && d.count == |nos|
    && (nos == [] ==> d == NO_DROPS)
    && (nos != [] ==> d.first == nos[0] && d.last == nos[|nos| - 1])
  }

  /** Each report describes the lost numbers that follow the ones reported before it. */
  predicate ReportsMatch(out: seq<Out>, lost: seq<nat>)
    decreases |out|
  {
    out != [] ==>
      var rest, last := out[..|out| - 1], out[|out| - 1];
      && ReportsMatch(rest, lost)
      && (last.Report? ==>
            && 0 < last.drops.count && ReportedOf(rest) + last.drops.count <= |lost|
            && Describes(last.drops, lost[ReportedOf(rest)..ReportedOf(rest) + last.drops.count]))
  }

  /** Accepted nodes carry their own numbers, and payloads that fit. */
  ghost predicate Stamped(log: seq<Issue>, maxPayload: nat) {
    forall k :: 0 <= k < |log| && log[k].Accepted? ==> log[k].node.seqNo == k + 1 && |log[k].node.payload| <= maxPayload
  }

  /** Every number is accounted for, and in order. */
  ghost predicate Accounted(q: Queue) {
    var lost, reported := LostOf(q.log), ReportedOf(q.out);
    && q.nextSeq == |q.log| + 1 && Stamped(q.log, q.maxPayload)
    && DeliveredOf(q.out) + q.pending == AcceptedOf(q.log)
    && q.queued == |q.pending| && (q.maxQueued != 0 ==> q.queued <= q.maxQueued)
    && q.droppedTotal == |lost| == reported + q.inflight.count + q.dropped.count
    && Describes(q.inflight, lost[reported..reported + q.inflight.count])
    && Describes(q.dropped, lost[reported + q.inflight.count..])
    && ReportsMatch(q.out, lost)
    && (q.reader.CopyingDrops? <==> q.inflight.count != 0)
    && (q.reader.CopyingNode? ==> q.pending != [] && q.reader.node == q.pending[0])
  }

  lemma {:induction false} ReportsStillMatch(out: seq<Out>, lost: seq<nat>, no: nat)
    requires ReportsMatch(out, lost)
    ensures ReportsMatch(out, lost + [no])
    decreases |out|
  {
    if out != [] {
      var rest, last := out[..|out| - 1], out[|out| - 1];
      ReportsStillMatch(rest, lost, no);
      if last.Report? {
        var a, b := ReportedOf(rest), ReportedOf(rest) + last.drops.count;
        assert (lost + [no])[a..b] == lost[a..b];
      }
    }
  }

  /** The segments of the lost numbers when one more is lost. */
  lemma SegmentsGrow(lost: seq<nat>, r: nat, a: nat, no: nat)
    requires r <= a <= |lost|
    ensures (lost + [no])[a..] == lost[a..] + [no] && (lost + [no])[r..a] == lost[r..a]
  {
  }

  lemma DropOneAccounts(q: Queue)
    requires Accounted(q)
    ensures Accounted(DropOne(q))
  {
    var lost, r := LostOf(q.log), ReportedOf(q.out);
    var a := r + q.inflight.count;
    assert (q.log + [Lost])[..|q.log|] == q.log;
    assert LostOf(q.log + [Lost]) == lost + [q.nextSeq];
    SegmentsGrow(lost, r, a, q.nextSeq);
    ReportsStillMatch(q.out, lost, q.nextSeq);
  }

  lemma EnqueueAccounts(q: Queue, typ: nat, flags: nat, payload: seq<Byte>, now: nat)
    requires Accounted(q) && !Full(q) && |payload| <= q.maxPayload
    ensures Accounted(Enqueue(q, typ, flags, payload, now))
  {
    var issue := Accepted(Record(typ, flags, q.nextSeq, now, payload));
    assert (q.log + [issue])[..|q.log|] == q.log;
    assert LostOf(q.log + [issue]) == LostOf(q.log);
  }

  lemma DropsCopiedAccounts(q: Queue)
    requires Accounted(q) && q.reader.CopyingDrops?
    ensures Accounted(Next(q, DropsCopied))
  {
    assert (q.out + [Report(q.inflight, q.reader.ts)])[..|q.out|] == q.out;
  }

  lemma DropsFaultedAccounts(q: Queue)
    requires Accounted(q) && q.reader.CopyingDrops?
    ensures Accounted(Next(q, DropsFaulted))
  {
    var lost, r := LostOf(q.log), ReportedOf(q.out);
    var a := r + q.inflight.count;
    assert lost[r..] == lost[r..a] + lost[a..];
  }

  lemma NodeCopiedAccounts(q: Queue)
    requires Accounted(q) && q.reader.CopyingNode?
    ensures Accounted(Next(q, NodeCopied))
  {
    var out := q.out + [Node(q.reader.node)];
    assert out[..|q.out|] == q.out;
    assert [q.pending[0]] + q.pending[1..] == q.pending;
    assert Delete(q.pending, q.reader.node) == q.pending[1..];
    assert DeliveredOf(out) == DeliveredOf(q.out) + [q.pending[0]] && ReportedOf(out) == ReportedOf(q.out);
  }

  lemma TakeDropsAccounts(q: Queue, room: nat, now: nat)
    requires Accounted(q)
    ensures Accounted(Next(q, TakeDrops(room, now)))
  {
    if Taken(q, room, now) != q {
      var lost, r := LostOf(q.log), ReportedOf(q.out);
      assert q.inflight.count == 0 && r + q.dropped.count == |lost|;
      assert lost[r + 0..] == lost[r..r + q.dropped.count] && lost[r + q.dropped.count..] == [];
    }
  }

  /** Looking at the first node, or letting go of it, moves nothing. */
  lemma ReaderMoveAccounts(q: Queue, st: Step)
    requires Accounted(q) && (st.PeekNode? || st.NodeFaulted? || st.Close?)
    ensures Accounted(Next(q, st))
  {
  }

  /** Every step of the reader, the producers and close keeps the accounts. */
  lemma StepAccounts(q: Queue, st: Step)
    requires Accounted(q)
    ensures Accounted(Next(q, st))
  {
    match st
    case Push(typ, flags, payload, _, now) =>
      DropOneAccounts(q);
      if !Full(q) && payload.Len() <= q.maxPayload { EnqueueAccounts(q, typ, flags, payload.Value(), now); }
    case Drop => DropOneAccounts(q);
    case Close => ReaderMoveAccounts(q, st);
    case TakeDrops(room, now) => TakeDropsAccounts(q, room, now);
    case DropsCopied => if q.reader.CopyingDrops? { DropsCopiedAccounts(q); }
    case DropsFaulted => if q.reader.CopyingDrops? { DropsFaultedAccounts(q); }
    case PeekNode(_) => ReaderMoveAccounts(q, st);
    case NodeCopied => if q.reader.CopyingNode? { NodeCopiedAccounts(q); }
    case NodeFaulted => ReaderMoveAccounts(q, st);
  }

  /** Over every interleaving. */
  lemma {:induction false} RunAccounts(maxQueued: nat, maxPayload: nat, steps: seq<Step>)
    ensures Accounted(Run(Fresh(maxQueued, maxPayload), steps))
    decreases |steps|
  {
    if steps != [] {
      RunAccounts(maxQueued, maxPayload, steps[..|steps| - 1]);
      StepAccounts(Run(Fresh(maxQueued, maxPayload), steps[..|steps| - 1]), steps[|steps| - 1]);
    }
  }

  // ----- what the accounts say -----

  lemma {:induction false} EachNumberOnce(log: seq<Issue>)
    ensures |AcceptedOf(log)| + |LostOf(log)| == |log|
    decreases |log|
  {
    if log != [] { EachNumberOnce(log[..|log| - 1]); }
  }

  /** Each issued number is delivered, pending, reported as dropped, or waiting to be. */
  lemma NumbersAreConserved(maxQueued: nat, maxPayload: nat, steps: seq<Step>)
    ensures var q := Run(Fresh(maxQueued, maxPayload), steps);
            && q.nextSeq - 1 == |DeliveredOf(q.out)| + |q.pending| + ReportedOf(q.out) + q.dropped.count + q.inflight.count
            && q.droppedTotal == ReportedOf(q.out) + q.dropped.count + q.inflight.count
            && q.queued == |q.pending| && (q.maxQueued != 0 ==> q.queued <= q.maxQueued)
  {
    RunAccounts(maxQueued, maxPayload, steps);
    EachNumberOnce(Run(Fresh(maxQueued, maxPayload), steps).log);
  }

  ghost predicate Increasing(nos: seq<nat>) {
    forall i, j :: 0 <= i < j < |nos| ==> nos[i] < nos[j]
  }

  lemma {:induction false} LostIncrease(log: seq<Issue>)
    ensures Increasing(LostOf(log))
    ensures forall i :: 0 <= i < |LostOf(log)| ==> 1 <= LostOf(log)[i] <= |log| && log[LostOf(log)[i] - 1].Lost?
    decreases |log|
  {
    if log != [] { LostIncrease(log[..|log| - 1]); }
  }

  lemma {:induction false} LostAreAll(log: seq<Issue>, no: nat)
    requires 1 <= no <= |log| && log[no - 1].Lost?
    ensures no in LostOf(log)
    decreases |log|
  {
    if no < |log| { LostAreAll(log[..|log| - 1], no); }
  }

  lemma {:induction false} ReportAt(out: seq<Out>, lost: seq<nat>, i: nat)
    requires ReportsMatch(out, lost) && i < |out| && out[i].Report?
    ensures 0 < out[i].drops.count && ReportedOf(out[..i]) + out[i].drops.count <= |lost|
    ensures Describes(out[i].drops, lost[ReportedOf(out[..i])..ReportedOf(out[..i]) + out[i].drops.count])
    decreases |out|
  {
    if i < |out| - 1 {
      ReportAt(out[..|out| - 1], lost, i);
      assert out[..|out| - 1][..i] == out[..i];
    }
  }

  lemma {:induction false} ReportedGrows(out: seq<Out>, i: nat, j: nat)
    requires i < j <= |out|
    ensures ReportedOf(out[..i]) + (if out[i].Report? then out[i].drops.count else 0) <= ReportedOf(out[..j])
    decreases j
  {
    assert out[..j][..j - 1] == out[..j - 1];
    if i < j - 1 { ReportedGrows(out, i, j - 1); }
  }

  /** The lost numbers inside the range of a report, seen from their positions in order. */
  lemma RangeHoldsSlice(lost: seq<nat>, d: Drops, a: nat, k: nat)
    requires Increasing(lost)
    requires 0 < d.count && a + d.count <= |lost| && Describes(d, lost[a..a + d.count]) && k < |lost|
    ensures d.first <= lost[k] <= d.last <==> a <= k < a + d.count
  {
    assert d.first == lost[a] && d.last == lost[a + d.count - 1];
  }

  /** The issued numbers from first to last that were lost. */
  ghost function LostBetween(log: seq<Issue>, first: nat, last: nat): set<nat> {
    set no | first <= no <= last && WasLost(log, no)
  }

  predicate WasLost(log: seq<Issue>, no: nat) {
    1 <= no <= |log| && log[no - 1].Lost?
  }

  ghost function Elements(s: seq<nat>): set<nat> {
    set no | no in s
  }

  lemma {:induction false} IncreasingSize(s: seq<nat>)
    requires Increasing(s)
    ensures |Elements(s)| == |s|
  {
    if s != [] {
      var n := |s| - 1;
      IncreasingSize(s[..n]);
      assert s == s[..n] + [s[n]];
      assert Elements(s) == Elements(s[..n]) + {s[n]} && s[n] !in s[..n];
    }
  }

  /** The lost numbers in a report's range are its slice of all lost numbers. */
  lemma RangeIsSlice(log: seq<Issue>, d: Drops, a: nat)
    requires 0 < d.count && a + d.count <= |LostOf(log)| && Describes(d, LostOf(log)[a..a + d.count])
    ensures LostBetween(log, d.first, d.last) == Elements(LostOf(log)[a..a + d.count])
  {
    var lost := LostOf(log);
    var slice := lost[a..a + d.count];
    LostIncrease(log);
    forall no | no in LostBetween(log, d.first, d.last)
      ensures no in slice
    {
      LostAreAll(log, no);
      var k :| 0 <= k < |lost| && lost[k] == no;
      RangeHoldsSlice(lost, d, a, k);
      assert slice[k - a] == no;
    }
    forall no | no in slice
      ensures no in LostBetween(log, d.first, d.last)
    {
      var k :| 0 <= k < |slice| && slice[k] == no;
      assert lost[a + k] == no;
      RangeHoldsSlice(lost, d, a, a + k);
    }
  }

  /** A report's range begins and ends with a lost number, and holds exactly as many lost numbers as it counts. */
  lemma ReportsAreExact(maxQueued: nat, maxPayload: nat, steps: seq<Step>, i: nat)
    ensures var q := Run(Fresh(maxQueued, maxPayload), steps);
            i < |q.out| && q.out[i].Report? ==> Exact(q.log, q.out[i].drops)
  {
    var q := Run(Fresh(maxQueued, maxPayload), steps);
    RunAccounts(maxQueued, maxPayload, steps);
    if i < |q.out| && q.out[i].Report? {
      ReportAt(q.out, LostOf(q.log), i);
      SliceIsExact(q.log, q.out[i].drops, ReportedOf(q.out[..i]));
    }
  }

  ghost predicate Exact(log: seq<Issue>, d: Drops) {
    && 0 < d.count && d.first <= d.last && WasLost(log, d.first) && WasLost(log, d.last)
    && |LostBetween(log, d.first, d.last)| == d.count
  }

  lemma SliceIsExact(log: seq<Issue>, d: Drops, a: nat)
    requires 0 < d.count && a + d.count <= |LostOf(log)| && Describes(d, LostOf(log)[a..a + d.count])
    ensures Exact(log, d)
  {
    var slice := LostOf(log)[a..a + d.count];
    LostIncrease(log);
    RangeIsSlice(log, d, a);
    IncreasingSize(slice);
    assert slice[0] == LostOf(log)[a] && slice[d.count - 1] == LostOf(log)[a + d.count - 1];
  }

  /** Ranges of reports are disjoint and strictly increase, even after failed copies merged with newer drops. */
  lemma ReportsAreDisjoint(maxQueued: nat, maxPayload: nat, steps: seq<Step>, i: nat, j: nat)
    ensures var q := Run(Fresh(maxQueued, maxPayload), steps);
            i < j < |q.out| && q.out[i].Report? && q.out[j].Report? ==> q.out[i].drops.last < q.out[j].drops.first
  {
    var q := Run(Fresh(maxQueued, maxPayload), steps);
    RunAccounts(maxQueued, maxPayload, steps);
    if i < j < |q.out| && q.out[i].Report? && q.out[j].Report? {
      LostIncrease(q.log);
      ReportAt(q.out, LostOf(q.log), i);
      ReportAt(q.out, LostOf(q.log), j);
      ReportedGrows(q.out, i, j);
    }
  }

  /** Delivered nodes, then pending nodes: the accepted nodes in push order; a fault loses none. */
  lemma FirstInFirstOut(maxQueued: nat, maxPayload: nat, steps: seq<Step>)
    ensures var q := Run(Fresh(maxQueued, maxPayload), steps);
            && DeliveredOf(q.out) + q.pending == AcceptedOf(q.log) && Stamped(q.log, q.maxPayload)
            && (q.reader.CopyingNode? ==> q.pending != [] && q.pending[0] == q.reader.node)
  {
    RunAccounts(maxQueued, maxPayload, steps);
  }

  // ----- closed for good -----

  predicate Finished(q: Queue) {
    q.closed && !HasData(q) && q.reader.Idle?
  }

  /** A queue that is closed and empty stays so, and hands out nothing more. */
  lemma {:induction false} FinishedForGood(q: Queue, steps: seq<Step>)
    requires Finished(q)
    ensures Run(q, steps) == q
    decreases |steps|
  {
    if steps != [] { FinishedForGood(q, steps[..|steps| - 1]); }
  }
}
