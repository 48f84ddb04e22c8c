/**
 A read of the event queue as a function of the queue and of all that happens around it
 (kernel/infra/event_queue.c:167-357), and when it ends in which way.
 */
module EventReads {
  import opened Bytes
  import opened Options
  import opened EventQueues

  const EINTR: int := 4
  const EAGAIN: int := 11
  const ENOMEM: int := 12
  const EFAULT: int := 14
  const EINVAL: int := 22
  const ENOSPC: int := 28
  const EPIPE: int := 32
  const EMSGSIZE: int := 90
  const ERESTARTSYS: int := 512

  // ----- the environment of a read -----

  /** A call by another thread. */
  datatype Call = PushCall(typ: nat, flags: nat, payload: Payload, gotNode: bool, now: nat) | DropCall | CloseCall

  /** One helper of the reader: what others do before it, and during its copy, and where the copies fault. */
  datatype Turn = Turn(before: seq<Call>, during: seq<Call>, hdrFault: Option<nat>, bodyFault: Option<nat>, now: nat)

  /**
   A whole read: whether the mutex is interrupted, what others do before and between the tests of the wait (again
   once it woke up), what they do while it sleeps (a signal ends a sleep that nothing woke), and its turns.
   */
  datatype World = World(interrupted: bool, atStart: seq<Call>, between: bool -> seq<Call>, asleep: seq<Call>,
                         dropTurn: nat -> Turn, nodeTurn: nat -> Turn)

  function StepOf(c: Call): Step {
    match c
    case PushCall(typ, flags, payload, gotNode, now) => Push(typ, flags, payload, gotNode, now)
    case DropCall => Drop
    case CloseCall => Close
  }

  function StepsOf(calls: seq<Call>): seq<Step>
    decreases |calls|
  {
    if calls == [] then [] else StepsOf(calls[..|calls| - 1]) + [StepOf(calls[|calls| - 1])]
  }

  /** What other threads cannot change under the reader. */
  predicate Kept(a: Queue, b: Queue) {
    && b.reader == a.reader && b.inflight == a.inflight && b.out == a.out && a.pending <= b.pending
    && (a.dropped.count != 0 ==> b.dropped.count != 0)
    && (a.closed ==> b.closed && b.pending == a.pending && b.dropped == a.dropped)
  }

  /** A turn that found no drops and no nodes, in a queue that was ready: it is closed, and empty for good. */
  lemma NothingLeft(a: Queue, b: Queue, c: Queue)
    requires Accounted(a) && a.reader.Idle? && (a.closed || HasData(a))
    requires Kept(a, b) && Kept(b, c) && a.dropped.count == 0 && c.pending == []
    ensures Finished(c)
  {
  }

  lemma KeptStep(a: Queue, b: Queue, c: Call)
    requires Kept(a, b)
    ensures Kept(a, Next(b, StepOf(c)))
  {
  }

  // ----- a read on values -----

  /** The queue after calls by others. */
  function After(q: Queue, calls: seq<Call>): Queue
    decreases |calls|
  {
    if calls == [] then q else Next(After(q, calls[..|calls| - 1]), StepOf(calls[|calls| - 1]))
  }

  /** The copy of a record with this payload faults: in its header, or in its payload. */
  predicate Faults(t: Turn, payloadLen: nat) {
    (t.hdrFault.Some? && t.hdrFault.value < HDR_SIZE) || (t.bodyFault.Some? && t.bodyFault.value < payloadLen)
  }

  /** `ksu_event_queue_wait_ready` with one reader. */
  function Waited(q: Queue, nonBlocking: bool, w: World): (Queue, int) {
    if HasData(q) then (q, 0)
    else
      var b := After(q, w.between(false));
      if b.closed then (b, 0)
      else if nonBlocking then (b, -EAGAIN)
      else
        var c := After(b, w.asleep);
        if HasData(c) then (c, 0)
        else if c.closed then (After(c, w.between(true)), 0)
        else (c, -ERESTARTSYS)
  }

  /** After a sleep that the queue itself ended. */
  predicate Slept(q: Queue, q': Queue, w: World) {
    && !HasData(q) && !After(q, w.between(false)).closed
    && q' == After(After(q, w.between(false)), w.asleep) && (q'.closed || HasData(q'))
  }

  /** `ksu_event_queue_read_drop` */
  function DropTurn(q: Queue, count: nat, t: Turn): (r: (Queue, int))
    ensures r.1 <= count
  {
    var b := After(q, t.before);
    if b.dropped.count == 0 then (b, 0)
    else if count < RecordSize(INFO_SIZE) then (b, -EMSGSIZE)
    else
      var c := After(Taken(b, count, t.now), t.during);
      if Faults(t, INFO_SIZE) then (Restored(c), -EFAULT) else (Reported(c), RecordSize(INFO_SIZE))
  }

  /** `ksu_event_queue_read_node` */
  function NodeTurn(q: Queue, count: nat, t: Turn): (r: (Queue, int))
    ensures r.1 <= count
  {
    var b := After(q, t.before);
    if b.pending == [] then (b, 0)
    else
      var len := |b.pending[0].payload|;
      if count < RecordSize(len) then (b, -EMSGSIZE)
      else
        var c := After(Peeked(b, count), t.during);
        if Faults(t, len) then (Next(c, NodeFaulted), -EFAULT) else (Delivered(c), RecordSize(len))
  }

  /** One turn of the read loop. */
  function OneTurn(q: Queue, count: nat, dropTurn: Turn, nodeTurn: Turn): (r: (Queue, int))
    ensures r.1 <= count
  {
    var (b, ret) := DropTurn(q, count, dropTurn);
    if ret != 0 then (b, ret) else NodeTurn(b, count, nodeTurn)
  }

  /** The read loop with this much room left, this many bytes copied, and this many turns done. */
  function Turns(q: Queue, room: nat, copied: nat, turn: nat, w: World): (Queue, int)
    decreases room
  {
    if room == 0 then (q, copied)
    else
      var (b, ret) := OneTurn(q, room, w.dropTurn(turn), w.nodeTurn(turn));
      if ret < 0 then (b, if copied == 0 then ret else copied)
      else if ret == 0 then (b, copied)
      else Turns(b, room - ret, copied + ret, turn + 1, w)
  }

  predicate EndsAs(q: Queue, room: nat, copied: nat, turn: nat, w: World, all: (Queue, int)) {
    Turns(q, room, copied, turn, w) == all
  }

  /** The read loop ends after anything but a record. */
  lemma LastTurn(q: Queue, room: nat, copied: nat, turn: nat, w: World, dropTurn: Turn, nodeTurn: Turn, b: Queue, ret: int,
                 all: (Queue, int))
    requires room > 0 && dropTurn == w.dropTurn(turn) && nodeTurn == w.nodeTurn(turn)
    requires (b, ret) == OneTurn(q, room, dropTurn, nodeTurn) && EndsAs(q, room, copied, turn, w, all)
    ensures ret <= room
    ensures ret <= 0 ==> all == (b, if ret < 0 && copied == 0 then ret else copied)
  {
  }

  /** After a record it goes on. */
  lemma NextTurn(q: Queue, room: nat, copied: nat, turn: nat, w: World, dropTurn: Turn, nodeTurn: Turn, b: Queue, ret: int,
                 all: (Queue, int), room': nat, copied': nat, turn': nat)
    requires room > 0 && dropTurn == w.dropTurn(turn) && nodeTurn == w.nodeTurn(turn)
    requires (b, ret) == OneTurn(q, room, dropTurn, nodeTurn) && EndsAs(q, room, copied, turn, w, all)
    requires ret > 0 && room' == room - ret && copied' == copied + ret && turn' == turn + 1
    ensures EndsAs(b, room', copied', turn', w, all)
  {
  }

  /** `ksu_event_queue_read` */
  function ReadOf(q: Queue, size: nat, nonBlocking: bool, w: World): (Queue, int) {
    if size == 0 then (q, 0)
    else
      var q1 := After(q, w.atStart);
      if w.interrupted then (q1, -EINTR)
      else
        var (q2, ret) := Waited(q1, nonBlocking, w);
        if ret != 0 then (q2, ret) else Turns(q2, size, 0, 0, w)
  }

  // ----- how a read ends -----

  lemma {:induction false} AfterKeeps(q: Queue, calls: seq<Call>)
    ensures Kept(q, After(q, calls))
    decreases |calls|
  {
    if calls != [] {
      AfterKeeps(q, calls[..|calls| - 1]);
      KeptStep(q, After(q, calls[..|calls| - 1]), calls[|calls| - 1]);
    }
  }

  lemma {:induction false} AfterAccounts(q: Queue, calls: seq<Call>)
    requires Accounted(q)
    ensures Accounted(After(q, calls))
    decreases |calls|
  {
    if calls != [] {
      AfterAccounts(q, calls[..|calls| - 1]);
      StepAccounts(After(q, calls[..|calls| - 1]), StepOf(calls[|calls| - 1]));
    }
  }

  /** The queue when the first section of `read_node` looks at it, after `read_drop` found no drops. */
  function AtNode(q: Queue, w: World): Queue {
    After(After(q, w.dropTurn(0).before), w.nodeTurn(0).before)
  }

  /** The queue has drops when the first section of `read_drop` looks at it. */
  predicate ReportsFirst(q: Queue, w: World) {
    After(q, w.dropTurn(0).before).dropped.count != 0
  }

  /** The bytes that the first record of a read takes: a report of 48, a node of 24 and its payload, or nothing. */
  function FirstSize(q: Queue, w: World): nat {
    if ReportsFirst(q, w) then 48
    else if AtNode(q, w).pending == [] then 0
    else 24 + |AtNode(q, w).pending[0].payload|
  }

  /** Copying that record faults. */
  predicate FirstFaults(q: Queue, w: World) {
    if ReportsFirst(q, w) then Faults(w.dropTurn(0), 24)
    else AtNode(q, w).pending != [] && Faults(w.nodeTurn(0), |AtNode(q, w).pending[0].payload|)
  }

  /** One turn is decided by the first record, the room and the copy. */
  lemma FirstTurn(q: Queue, room: nat, w: World)
    ensures OneTurn(q, room, w.dropTurn(0), w.nodeTurn(0)).1 ==
            if FirstSize(q, w) == 0 then 0
            else if room < FirstSize(q, w) then -90
            else if FirstFaults(q, w) then -14
            else FirstSize(q, w)
  {
  }

  lemma {:induction false} TurnsGrow(q: Queue, room: nat, copied: nat, turn: nat, w: World, size: nat)
    requires 0 < copied && copied + room == size
    ensures copied <= Turns(q, room, copied, turn, w).1 <= size
    decreases room
  {
    if room > 0 {
      var (b, ret) := OneTurn(q, room, w.dropTurn(turn), w.nodeTurn(turn));
      if ret > 0 { TurnsGrow(b, room - ret, copied + ret, turn + 1, w, size); }
    }
  }

  lemma FirstTurnDecides(q: Queue, size: nat, w: World)
    requires size > 0
    ensures var ret, first := Turns(q, size, 0, 0, w).1, OneTurn(q, size, w.dropTurn(0), w.nodeTurn(0)).1;
            if first <= 0 then ret == first else first <= ret <= size
  {
    var (b, first) := OneTurn(q, size, w.dropTurn(0), w.nodeTurn(0));
    if first > 0 { TurnsGrow(b, size - first, first, 1, w, size); }
  }

  /** The read gets the mutex, and its wait ends with a queue that is closed or has data. */
  predicate ComesThrough(q: Queue, nonBlocking: bool, w: World) {
    var start := After(q, w.atStart);
    var looked := After(start, w.between(false));
    var slept := After(looked, w.asleep);
    !w.interrupted && (HasData(start) || looked.closed || (!nonBlocking && (slept.closed || HasData(slept))))
  }

  /** The queue after the wait. */
  function Woken(q: Queue, nonBlocking: bool, w: World): Queue {
    Waited(After(q, w.atStart), nonBlocking, w).0
  }

  lemma WaitEnds(q: Queue, nonBlocking: bool, w: World)
    ensures var start := After(q, w.atStart);
            var looked := After(start, w.between(false));
            var slept := After(looked, w.asleep);
            && (Waited(start, nonBlocking, w).1 == -11 <==> nonBlocking && !HasData(start) && !looked.closed)
            && (Waited(start, nonBlocking, w).1 == -512 <==> !nonBlocking && !HasData(start) && !slept.closed && !HasData(slept))
            && (!w.interrupted ==> (Waited(start, nonBlocking, w).1 == 0 <==> ComesThrough(q, nonBlocking, w)))
            && Waited(start, nonBlocking, w).1 in {0, -11, -512}
  {
    AfterKeeps(After(After(q, w.atStart), w.between(false)), w.asleep);
  }

  /**
   How a read ends, exactly: interrupted, without data on a non-blocking descriptor, woken by a signal, with a first
   record that is larger than the buffer, with a fault in its copy, with nothing, or with at least the first record.
   */
  lemma ReadEnds(q: Queue, size: nat, nonBlocking: bool, w: World)
    ensures var ret := ReadOf(q, size, nonBlocking, w).1;
            var start, ready := After(q, w.atStart), Woken(q, nonBlocking, w);
            var looked := After(start, w.between(false));
            var slept := After(looked, w.asleep);
            var through := size > 0 && ComesThrough(q, nonBlocking, w);
            var first := FirstSize(ready, w);
            && (ret == -4 <==> size > 0 && w.interrupted)
            && (ret == -11 <==> size > 0 && !w.interrupted && nonBlocking && !HasData(start) && !looked.closed)
            && (ret == -512 <==> && size > 0 && !w.interrupted && !nonBlocking && !HasData(start)
                                 && !slept.closed && !HasData(slept))
            && (ret == -90 <==> through && first > size)
            && (ret == -14 <==> through && first <= size && FirstFaults(ready, w))
            && (ret == 0 <==> size == 0 || (through && first == 0))
            && (ret > 0 <==> through && 0 < first <= size && !FirstFaults(ready, w))
            && (ret > 0 ==> first <= ret <= size)
  {
    WaitEnds(q, nonBlocking, w);
    if size > 0 {
      FirstTurn(Woken(q, nonBlocking, w), size, w);
      FirstTurnDecides(Woken(q, nonBlocking, w), size, w);
    }
  }

  /**
   Progress: a queue that has data when the read begins hands out something, whatever others do, when the read is not
   interrupted, the first record has room (a report too, since one may come up), and its copy does not fault.
   */
  lemma ReadProgresses(q: Queue, size: nat, nonBlocking: bool, w: World)
    requires Accounted(q) && q.reader.Idle? && HasData(q)
    requires !w.interrupted && 48 <= size && (q.pending != [] ==> 24 + |q.pending[0].payload| <= size)
    requires !FirstFaults(Woken(q, nonBlocking, w), w)
    ensures 0 < ReadOf(q, size, nonBlocking, w).1 <= size
  {
    var start := After(q, w.atStart);
    AfterKeeps(q, w.atStart);
    AfterKeeps(start, w.dropTurn(0).before);
    AfterKeeps(After(start, w.dropTurn(0).before), w.nodeTurn(0).before);
    assert Woken(q, nonBlocking, w) == start;
    ReadEnds(q, size, nonBlocking, w);
  }

  /** What stops a read with this much room left: nothing is pending, or the next record is larger, or a copy faulted. */
  predicate Stopped(q: Queue, left: nat, w: World, k: nat) {
    || q.pending == []
    || (q.dropped.count != 0 && (left < 48 || Faults(w.dropTurn(k), 24)))
    || left < 24 + |q.pending[0].payload|
    || Faults(w.nodeTurn(k), |q.pending[0].payload|)
  }

  lemma DropTurnStops(q: Queue, room: nat, w: World, k: nat)
    requires q.reader.Idle? && DropTurn(q, room, w.dropTurn(k)).1 < 0
    ensures Stopped(DropTurn(q, room, w.dropTurn(k)).0, room, w, k)
  {
    var t := w.dropTurn(k);
    var b := After(q, t.before);
    AfterKeeps(q, t.before);
    if room >= 48 {
      AfterKeeps(Taken(b, room, t.now), t.during);
    }
  }

  lemma NodeTurnStops(q: Queue, room: nat, w: World, k: nat)
    requires q.reader.Idle? && NodeTurn(q, room, w.nodeTurn(k)).1 <= 0
    ensures Stopped(NodeTurn(q, room, w.nodeTurn(k)).0, room, w, k)
  {
    var t := w.nodeTurn(k);
    var b := After(q, t.before);
    AfterKeeps(q, t.before);
    if b.pending != [] { AfterKeeps(Peeked(b, room), t.during); }
  }

  /** Between two turns nothing is being copied. */
  lemma OneTurnIdles(q: Queue, room: nat, dropTurn: Turn, nodeTurn: Turn)
    requires q.reader.Idle?
    ensures OneTurn(q, room, dropTurn, nodeTurn).0.reader.Idle?
  {
    DropTurnIdles(q, room, dropTurn);
    NodeTurnIdles(DropTurn(q, room, dropTurn).0, room, nodeTurn);
  }

  lemma DropTurnIdles(q: Queue, room: nat, t: Turn)
    requires q.reader.Idle?
    ensures DropTurn(q, room, t).0.reader.Idle?
  {
    var b := After(q, t.before);
    AfterKeeps(q, t.before);
    AfterKeeps(Taken(b, room, t.now), t.during);
  }

  lemma NodeTurnIdles(q: Queue, room: nat, t: Turn)
    requires q.reader.Idle?
    ensures NodeTurn(q, room, t).0.reader.Idle?
  {
    var b := After(q, t.before);
    AfterKeeps(q, t.before);
    AfterKeeps(Peeked(b, room), t.during);
  }

  lemma OneTurnStops(q: Queue, room: nat, w: World, k: nat)
    requires q.reader.Idle? && OneTurn(q, room, w.dropTurn(k), w.nodeTurn(k)).1 <= 0
    ensures Stopped(OneTurn(q, room, w.dropTurn(k), w.nodeTurn(k)).0, room, w, k)
  {
    if DropTurn(q, room, w.dropTurn(k)).1 < 0 {
      DropTurnStops(q, room, w, k);
    } else {
      DropTurnIdles(q, room, w.dropTurn(k));
      NodeTurnStops(DropTurn(q, room, w.dropTurn(k)).0, room, w, k);
    }
  }

  ghost predicate HasStopped(q: Queue, left: nat, w: World) {
    exists k: nat :: Stopped(q, left, w, k)
  }

  lemma {:induction false} TurnsStop(q: Queue, room: nat, copied: nat, turn: nat, w: World, all: (Queue, int), size: nat)
    requires q.reader.Idle? && copied + room == size && EndsAs(q, room, copied, turn, w, all)
    ensures 0 <= all.1 < size ==> HasStopped(all.0, size - all.1, w)
    decreases room
  {
    if room > 0 {
      var dropTurn, nodeTurn := w.dropTurn(turn), w.nodeTurn(turn);
      var (b, ret) := OneTurn(q, room, dropTurn, nodeTurn);
      LastTurn(q, room, copied, turn, w, dropTurn, nodeTurn, b, ret, all);
      if ret > 0 {
        OneTurnIdles(q, room, dropTurn, nodeTurn);
        NextTurn(q, room, copied, turn, w, dropTurn, nodeTurn, b, ret, all, room - ret, copied + ret, turn + 1);
        TurnsStop(b, room - ret, copied + ret, turn + 1, w, all, size);
      } else {
        OneTurnStops(q, room, w, turn);
        assert HasStopped(b, room, w);
      }
    }
  }

  /** A read that hands out less than the buffer holds has one of these reasons, seen on the queue it leaves behind. */
  lemma ReadStops(q: Queue, size: nat, nonBlocking: bool, w: World)
    requires q.reader.Idle?
    ensures var (q', ret) := ReadOf(q, size, nonBlocking, w);
            0 <= ret < size ==> HasStopped(q', size - ret, w)
  {
    if size > 0 && !w.interrupted {
      AfterKeeps(q, w.atStart);
      WaitIdles(After(q, w.atStart), nonBlocking, w);
      TurnsStop(Woken(q, nonBlocking, w), size, 0, 0, w, Turns(Woken(q, nonBlocking, w), size, 0, 0, w), size);
    }
  }

  lemma WaitIdles(q: Queue, nonBlocking: bool, w: World)
    requires q.reader.Idle?
    ensures Waited(q, nonBlocking, w).0.reader.Idle?
  {
    var b := After(q, w.between(false));
    var c := After(b, w.asleep);
    AfterKeeps(q, w.between(false));
    AfterKeeps(b, w.asleep);
    AfterKeeps(c, w.between(true));
  }

  // ----- an undisturbed read -----

  predicate QuietTurn(t: Turn) {
    t.before == [] && t.during == [] && t.hdrFault.None? && t.bodyFault.None?
  }

  /** Nobody else calls, no signal comes, and no copy faults. */
  ghost predicate Quiet(w: World) {
    && !w.interrupted && w.atStart == [] && w.between(false) == [] && w.between(true) == [] && w.asleep == []
    && forall k: nat :: QuietTurn(w.dropTurn(k)) && QuietTurn(w.nodeTurn(k))
  }

  /** Between two turns: nothing is being copied, and the counter is right. */
  predicate Calm(q: Queue) {
    q.reader.Idle? && q.inflight == NO_DROPS && q.queued == |q.pending|
  }

  /** How many of these nodes fit into the room, from the first. */
  function Fitting(nodes: seq<Record>, room: nat): (n: nat)
    ensures n <= |nodes|
  {
    if nodes == [] || room < 24 + |nodes[0].payload| then 0
    else 1 + Fitting(nodes[1..], room - 24 - |nodes[0].payload|)
  }

  function SizeOf(nodes: seq<Record>): nat {
    if nodes == [] then 0 else 24 + |nodes[0].payload| + SizeOf(nodes[1..])
  }

  function Nodes(nodes: seq<Record>): seq<Out> {
    if nodes == [] then [] else [Node(nodes[0])] + Nodes(nodes[1..])
  }

  /** The queue with its first n nodes handed out. */
  function HandedOut(q: Queue, n: nat): Queue
    requires n <= |q.pending| && n <= q.queued
  {
    q.(pending := q.pending[n..], queued := q.queued - n, out := q.out + Nodes(q.pending[..n]))
  }

  lemma QuietNode(q: Queue, room: nat, dropTurn: Turn, nodeTurn: Turn)
    requires Calm(q) && q.dropped.count == 0 && QuietTurn(dropTurn) && QuietTurn(nodeTurn)
    ensures OneTurn(q, room, dropTurn, nodeTurn) ==
            if q.pending == [] then (q, 0)
            else if room < 24 + |q.pending[0].payload| then (q, -90)
            else (HandedOut(q, 1), 24 + |q.pending[0].payload|)
  {
    if q.pending != [] {
      assert q.pending[..1] == [q.pending[0]] && Nodes([q.pending[0]]) == [Node(q.pending[0])];
    }
  }

  lemma HandedOutMore(q: Queue, n: nat)
    requires n < |q.pending| == q.queued
    ensures HandedOut(HandedOut(q, 1), n) == HandedOut(q, n + 1)
    ensures SizeOf(q.pending[..n + 1]) == 24 + |q.pending[0].payload| + SizeOf(q.pending[1..][..n])
  {
    var p := q.pending;
    assert p[..n + 1][1..] == p[1..][..n] && p[..1][1..] == [];
    assert p[1..][n..] == p[n + 1..];
    assert Nodes(p[..n + 1]) == [Node(p[0])] + Nodes(p[1..][..n]);
    assert Nodes(p[..1]) == [Node(p[0])] + Nodes([]);
  }

  /** The result of the loop once n nodes are to be handed out. */
  function QuietResult(q: Queue, room: nat, copied: nat, n: nat): (Queue, int)
    requires n <= |q.pending| && n <= q.queued
  {
    (HandedOut(q, n), if copied + n == 0 && room > 0 && q.pending != [] then -90 else copied + SizeOf(q.pending[..n]))
  }

  lemma {:induction false} QuietTurns(q: Queue, room: nat, copied: nat, turn: nat, w: World)
    requires Calm(q) && q.dropped.count == 0 && Quiet(w)
    ensures Fitting(q.pending, room) <= q.queued
    ensures Turns(q, room, copied, turn, w) == QuietResult(q, room, copied, Fitting(q.pending, room))
    decreases room
  {
    var n := Fitting(q.pending, room);
    if n == 0 {
      NoQuietTurn(q, room, copied, turn, w);
    } else {
      var len := 24 + |q.pending[0].payload|;
      var dropTurn, nodeTurn := w.dropTurn(turn), w.nodeTurn(turn);
      assert QuietTurn(dropTurn) && QuietTurn(nodeTurn);
      QuietNode(q, room, dropTurn, nodeTurn);
      QuietTurns(HandedOut(q, 1), room - len, copied + len, turn + 1, w);
      HandedOutMore(q, n - 1);
    }
  }

  lemma NoQuietTurn(q: Queue, room: nat, copied: nat, turn: nat, w: World)
    requires Calm(q) && q.dropped.count == 0 && Quiet(w) && Fitting(q.pending, room) == 0
    ensures Turns(q, room, copied, turn, w) == QuietResult(q, room, copied, 0)
  {
    var dropTurn, nodeTurn := w.dropTurn(turn), w.nodeTurn(turn);
    assert QuietTurn(dropTurn) && QuietTurn(nodeTurn);
    if room > 0 { QuietNode(q, room, dropTurn, nodeTurn); }
    assert HandedOut(q, 0) == q;
  }

  /** Its report handed out. */
  function ReportedNow(q: Queue, now: nat): Queue {
    q.(dropped := NO_DROPS, out := q.out + [Report(q.dropped, now)])
  }

  lemma QuietReport(q: Queue, room: nat, dropTurn: Turn, nodeTurn: Turn)
    requires Calm(q) && q.dropped.count != 0 && QuietTurn(dropTurn)
    ensures OneTurn(q, room, dropTurn, nodeTurn) == if room < 48 then (q, -90) else (ReportedNow(q, dropTurn.now), 48)
  {
  }

  /**
   A read that nobody disturbs hands out the report of drops if there is one, then the pending nodes in order as long as
   they fit, and nothing else changes; its result is their size, -EMSGSIZE when not even the first fits, and without data
   0 when closed, -EAGAIN when non-blocking and -ERESTARTSYS when blocking.
   */
  lemma QuietRead(q: Queue, size: nat, nonBlocking: bool, w: World)
    requires Accounted(q) && q.reader.Idle? && Quiet(w) && size > 0
    ensures var now := w.dropTurn(0).now;
            ReadOf(q, size, nonBlocking, w) ==
            if !HasData(q) then (q, if q.closed then 0 else if nonBlocking then -11 else -512)
            else if q.dropped.count != 0 then
              if size < 48 then (q, -90)
              else
                var n := Fitting(q.pending, size - 48);
                (HandedOut(ReportedNow(q, now), n), 48 + SizeOf(q.pending[..n]))
            else
              var n := Fitting(q.pending, size);
              (HandedOut(q, n), if n == 0 then -90 else SizeOf(q.pending[..n]))
  {
    if q.dropped.count != 0 {
      QuietReport(q, size, w.dropTurn(0), w.nodeTurn(0));
      if size >= 48 {
          QuietTurns(ReportedNow(q, w.dropTurn(0).now), size - 48, 48, 1, w);
      }
    } else {
      QuietTurns(q, size, 0, 0, w);
      assert HandedOut(q, 0) == q;
    }
  }
}
