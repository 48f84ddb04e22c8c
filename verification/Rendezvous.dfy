/**
 The rendezvous of all CPUs around a text patch (kernel/non_gki/patch_memory_arm64.c:319-344): the last one
 to count itself in patches, the others spin until one more count. Every step is one atomic access of a CPU.
 */
module Rendezvous {
  import opened Options

  /** Where a CPU is in `ksu_patch_text_cb`; `Left` has returned. */
  datatype Pc = Start | Master | Patched(ret: int) | Spinning | Left(ret: int)

  /** `master` and `attempts` only record who patched, and how often. */
  datatype State = State(pcs: seq<Pc>, count: nat, master: Option<nat>, attempts: nat)

  datatype Step =
    | Arrive(cpu: nat)             // atomic_inc_return, and the comparison
    | Patch(cpu: nat, ret: int)    // the patch attempt, which may fail
    | Notify(cpu: nat)             // the additional increment
    | Look(cpu: nat)               // one turn of the spin loop

  function Initial(n: nat): State {
    State(seq(n, _ => Start), 0, None, 0)
  }

  /** One step; a step that is not possible leaves the state as it is, and so does a spin that must go on. */
  function Next(s: State, st: Step): State {
    var n := |s.pcs|;
    if st.cpu >= n then s
    else
      var pc := s.pcs[st.cpu];
      match st
      case Arrive(c) =>
        if !pc.Start? then s
        else if s.count + 1 == n then s.(count := s.count + 1, pcs := s.pcs[c := Master], master := Some(c))
        else s.(count := s.count + 1, pcs := s.pcs[c := Spinning])
      case Patch(c, ret) =>
        if !pc.Master? then s else s.(pcs := s.pcs[c := Patched(ret)], attempts := s.attempts + 1)
      case Notify(c) =>
        if !pc.Patched? then s else s.(pcs := s.pcs[c := Left(pc.ret)], count := s.count + 1)
      case Look(c) =>
        if !pc.Spinning? || s.count <= n then s else s.(pcs := s.pcs[c := Left(0)])
  }

  function Run(n: nat, steps: seq<Step>): (s: State)
    ensures |s.pcs| == n
    decreases |steps|
  {
    if steps == [] then Initial(n) else Next(Run(n, steps[..|steps| - 1]), steps[|steps| - 1])
  }

  /** How many CPUs have counted themselves in. */
  function Arrived(pcs: seq<Pc>): nat {
    if pcs == [] then 0 else Arrived(pcs[1..]) + if pcs[0].Start? then 0 else 1
  }

  lemma {:induction false} ArrivedBounds(pcs: seq<Pc>)
    ensures Arrived(pcs) <= |pcs|
    ensures Arrived(pcs) == |pcs| <==> forall i :: 0 <= i < |pcs| ==> !pcs[i].Start?
  {
    if pcs != [] {
      ArrivedBounds(pcs[1..]);
      assert pcs == [pcs[0]] + pcs[1..];
    }
  }

  lemma {:induction false} ArrivedUpdate(pcs: seq<Pc>, c: nat, pc: Pc)
    requires c < |pcs| && !pc.Start?
    ensures Arrived(pcs[c := pc]) == Arrived(pcs) + if pcs[c].Start? then 1 else 0
  {
    if c == 0 {
      assert pcs[0 := pc][1..] == pcs[1..];
    } else {
      ArrivedUpdate(pcs[1..], c - 1, pc);
      assert pcs[c := pc][1..] == pcs[1..][c - 1 := pc];
    }
  }

  /** Nobody is in charge before all have arrived; then one is, and the others wait for it. */
  ghost predicate Inv(s: State) {
    && s.count == Arrived(s.pcs) + (if Notified(s) then 1 else 0)
    && (s.master.None? ==> s.attempts == 0 && Arrived(s.pcs) < |s.pcs| && forall i :: 0 <= i < |s.pcs| ==> Waiting(s.pcs[i]))
    && (s.master.Some? ==>
          && s.master.value < |s.pcs| && Arrived(s.pcs) == |s.pcs|
          && InCharge(s.pcs[s.master.value]) && s.attempts == (if s.pcs[s.master.value].Master? then 0 else 1)
          && forall i :: 0 <= i < |s.pcs| && i != s.master.value ==> Bystander(s.pcs[i], Notified(s)))
  }

  predicate Notified(s: State) {
    s.master.Some? && s.master.value < |s.pcs| && s.pcs[s.master.value].Left?
  }

  predicate Waiting(pc: Pc) {
    pc.Start? || pc.Spinning?
  }

  predicate InCharge(pc: Pc) {
    pc.Master? || pc.Patched? || pc.Left?
  }

  predicate Bystander(pc: Pc, notified: bool) {
    pc.Spinning? || (pc == Left(0) && notified)
  }

  lemma StepKeeps(s: State, st: Step)
    requires Inv(s)
    ensures Inv(Next(s, st))
  {
    if st.cpu < |s.pcs| && Next(s, st) != s {
      ArrivedUpdate(s.pcs, st.cpu, Next(s, st).pcs[st.cpu]);
      ArrivedBounds(s.pcs);
      ArrivedBounds(Next(s, st).pcs);
    }
  }

  lemma {:induction false} NoneArrived(pcs: seq<Pc>)
    requires forall i :: 0 <= i < |pcs| ==> pcs[i].Start?
    ensures Arrived(pcs) == 0
  {
    if pcs != [] { NoneArrived(pcs[1..]); }
  }

  lemma {:induction false} RunKeeps(n: nat, steps: seq<Step>)
    requires n > 0
    ensures Inv(Run(n, steps))
    decreases |steps|
  {
    if steps == [] {
      NoneArrived(Initial(n).pcs);
    } else {
      RunKeeps(n, steps[..|steps| - 1]);
      StepKeeps(Run(n, steps[..|steps| - 1]), steps[|steps| - 1]);
    }
  }

  /**
   In every state of every run: at most one CPU patches, at most once, and only when all have arrived; and
   whoever has left, has left after the one patch attempt ended.
   */
  lemma OnePatcher(n: nat, steps: seq<Step>)
    requires n > 0
    ensures var s := Run(n, steps);
            && s.attempts <= 1
            && (forall i :: 0 <= i < n && (s.pcs[i].Master? || s.pcs[i].Patched?) ==> s.master == Some(i))
            && (s.master.Some? ==> forall i :: 0 <= i < n ==> !s.pcs[i].Start?)
            && ((exists i :: 0 <= i < n && s.pcs[i].Left?) ==>
                  s.attempts == 1 && forall i :: 0 <= i < n ==> !s.pcs[i].Master? && !s.pcs[i].Patched?)
  {
    RunKeeps(n, steps);
    ArrivedBounds(Run(n, steps).pcs);
  }

  /** The step is a CPU's attempt to patch, which it may make. */
  predicate Attempts(s: State, st: Step) {
    st.Patch? && st.cpu < |s.pcs| && s.pcs[st.cpu].Master?
  }

  /** The result of the last patch attempt in a run. */
  function AttemptResult(n: nat, steps: seq<Step>): Option<int>
    decreases |steps|
  {
    if steps == [] then None
    else if Attempts(Run(n, steps[..|steps| - 1]), steps[|steps| - 1]) then Some(steps[|steps| - 1].ret)
    else AttemptResult(n, steps[..|steps| - 1])
  }

  /** The patching CPU carries the result of its attempt, from the attempt to its return. */
  lemma {:induction false} ResultIsKept(n: nat, steps: seq<Step>)
    requires n > 0
    ensures var s, r := Run(n, steps), AttemptResult(n, steps);
            && (s.attempts == 0 <==> r.None?)
            && (s.attempts == 1 ==> s.master.Some? && s.master.value < n && s.pcs[s.master.value] in {Patched(r.value), Left(r.value)})
    decreases |steps|
  {
    RunKeeps(n, steps);
    if steps != [] {
      RunKeeps(n, steps[..|steps| - 1]);
      ResultIsKept(n, steps[..|steps| - 1]);
    }
  }

  /** When all have left, exactly one has patched and returns the result of its attempt; the others return 0. */
  lemma AllLeft(n: nat, steps: seq<Step>)
    requires n > 0 && forall i :: 0 <= i < n ==> Run(n, steps).pcs[i].Left?
    ensures var s, r := Run(n, steps), AttemptResult(n, steps);
            && s.attempts == 1 && s.count == n + 1 && s.master.Some? && s.master.value < n
            && r.Some? && s.pcs[s.master.value] == Left(r.value)
            && forall i :: 0 <= i < n && i != s.master.value ==> s.pcs[i] == Left(0)
  {
    RunKeeps(n, steps);
    ArrivedBounds(Run(n, steps).pcs);
    ResultIsKept(n, steps);
  }

  // ----- progress -----

  function Weight(pc: Pc): nat {
    match pc
    case Start => 3
    case Master => 2
    case Patched(_) => 1
    case Spinning => 1
    case Left(_) => 0
  }

  function Rank(pcs: seq<Pc>): nat {
    if pcs == [] then 0 else Weight(pcs[0]) + Rank(pcs[1..])
  }

  lemma {:induction false} RankUpdate(pcs: seq<Pc>, c: nat, pc: Pc)
    requires c < |pcs|
    ensures Rank(pcs[c := pc]) == Rank(pcs) - Weight(pcs[c]) + Weight(pc)
  {
    if c == 0 {
      assert pcs[0 := pc][1..] == pcs[1..];
    } else {
      RankUpdate(pcs[1..], c - 1, pc);
      assert pcs[c := pc][1..] == pcs[1..][c - 1 := pc];
    }
  }

  /** Every step that changes anything comes closer to the end. */
  lemma ChangeIsProgress(s: State, st: Step)
    ensures Next(s, st) == s || Rank(Next(s, st).pcs) < Rank(s.pcs)
  {
    if st.cpu < |s.pcs| { RankUpdate(s.pcs, st.cpu, Next(s, st).pcs[st.cpu]); }
  }

  /** No reachable state is stuck: while a CPU has not left, some step, by whatever result of the patch, goes on. */
  lemma NeverStuck(n: nat, steps: seq<Step>, ret: int) returns (st: Step)
    requires n > 0 && exists i :: 0 <= i < n && !Run(n, steps).pcs[i].Left?
    ensures st.Patch? ==> st.ret == ret
    ensures Next(Run(n, steps), st) != Run(n, steps)
  {
    RunKeeps(n, steps);
    var s := Run(n, steps);
    ArrivedBounds(s.pcs);
    if s.master.None? {
      var c :| 0 <= c < n && s.pcs[c].Start?;
      st := Arrive(c);
    } else {
      var m := s.master.value;
      if s.pcs[m].Master? {
        st := Patch(m, ret);
      } else if s.pcs[m].Patched? {
        st := Notify(m);
      } else {
        var c :| 0 <= c < n && !s.pcs[c].Left?;
        st := Look(c);
      }
    }
  }

  /** A run of effective steps ends after at most three per CPU, with everybody gone. */
  lemma {:induction false} EffectiveRunsEnd(n: nat, steps: seq<Step>)
    requires forall k :: 0 <= k < |steps| ==> Run(n, steps[..k + 1]) != Run(n, steps[..k])
    ensures |steps| + Rank(Run(n, steps).pcs) <= 3 * n
    decreases |steps|
  {
    if steps == [] {
      FullRank(Initial(n).pcs);
    } else {
      var rest := steps[..|steps| - 1];
      forall k | 0 <= k < |rest|
        ensures Run(n, rest[..k + 1]) != Run(n, rest[..k])
      {
        assert rest[..k + 1] == steps[..k + 1] && rest[..k] == steps[..k];
      }
      EffectiveRunsEnd(n, rest);
      assert steps[..|rest| + 1] == steps && steps[..|rest|] == rest;
      ChangeIsProgress(Run(n, rest), steps[|steps| - 1]);
    }
  }

  lemma {:induction false} FullRank(pcs: seq<Pc>)
    ensures Rank(pcs) <= 3 * |pcs|
  {
    if pcs != [] { FullRank(pcs[1..]); }
  }
}
