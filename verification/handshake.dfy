/**
  The CPU/debugger handshake: src/debugger/executor/cpu_control/dbg_cpu_thread_control.c.
  Every section between taking and leaving dbg_mutex (a pthread_cond_wait leaves it) is one event;
  the CPU thread, any number of debugger threads and spurious wake-ups interleave freely.
 */
module Handshake {
  /** Where the CPU thread is: outside cpu_wait, asleep in it, or woken and not yet rechecked. */
  datatype Cpu = Run | Asleep | Woken

  /** A debugger thread: outside, in wakeup_cpu_and_wait_for_cpu_stopped since the CPU had taken
      `takes` requests, in waitfor_cpu_stopped, or asleep in or woken from dbg_wait. */
  datatype Debugger = Idle | AwaitsRun(takes: nat) | AwaitsStop | DbgAsleep | DbgWoken

  datatype ThreadState = Running | Wait

  /** `requested` is cputhr_wakeup_requested, `thread` is cputhr_state.  The counters only record
      what happened: requests made, requests taken, and entries into cpu_wait. */
  datatype State = State(cpu: Cpu, requested: bool, thread: ThreadState, debuggers: seq<Debugger>,
                         requests: nat, takes: nat, stops: nat)

  datatype Event =
    | CpuWait
    | CpuRecheck
    | Spurious
    | WakeCpu(t: nat)
    | WakeCpuAndWait(t: nat)
    | PollRan(t: nat)
    | WaitForStop(t: nat)
    | PollStopped(t: nat)
    | DbgWait(t: nat)
    | DbgSpurious(t: nat)
    | DbgRecheck(t: nat)
    | WakeDbg(t: nat)

  function Initial(debuggers: nat): (s: State) {
    State(Run, false, Running, seq(debuggers, _ => Idle), 0, 0, 0)
  }

  predicate At(s: State, t: nat, d: Debugger) {
    t < |s.debuggers| && s.debuggers[t] == d
  }

  /** What each thread may do next. */
  predicate Enabled(s: State, e: Event) {
    match e
    case CpuWait => s.cpu == Run
    case CpuRecheck => s.cpu == Woken
    case Spurious => s.cpu == Asleep
    case WakeCpu(t) => At(s, t, Idle)
    case WakeCpuAndWait(t) => At(s, t, Idle)
    case PollRan(t) => t < |s.debuggers| && s.debuggers[t].AwaitsRun?
    case WaitForStop(t) => At(s, t, Idle)
    case PollStopped(t) => At(s, t, AwaitsStop)
    case DbgWait(t) => At(s, t, Idle)
    case DbgSpurious(t) => At(s, t, DbgAsleep)
    case DbgRecheck(t) => At(s, t, DbgWoken)
    case WakeDbg(t) => s.cpu == Run && (At(s, t, DbgAsleep) || DbgAsleep !in s.debuggers)
  }

  function To(s: State, t: nat, d: Debugger): State
    requires t < |s.debuggers|
  {
    s.(debuggers := s.debuggers[t := d])
  }

  /** The wait loop of cpu_wait: take the request, or sleep until woken. */
  function Recheck(s: State): State {
    if s.requested then s.(cpu := Run, requested := false, thread := Running, takes := s.takes + 1)
    else s.(cpu := Asleep)
  }

  /** Set the flag and signal cpu_cv. */
  function Request(s: State): State {
    s.(requested := true, cpu := if s.cpu == Asleep then Woken else s.cpu, requests := s.requests + 1)
  }

  predicate StillRunning(s: State) {
    s.requested || s.thread == Running
  }

  function Apply(s: State, e: Event): (s': State)
    requires Enabled(s, e)
    ensures |s'.debuggers| == |s.debuggers|
  {
    match e
    case CpuWait => Recheck(s.(thread := Wait, stops := s.stops + 1))
    case CpuRecheck => Recheck(s)
    case Spurious => s.(cpu := Woken)
    case WakeCpu(t) => Request(s)
    case WakeCpuAndWait(t) => To(Request(s), t, AwaitsRun(s.takes))
    case PollRan(t) => if StillRunning(s) then s else To(s, t, Idle)
    case WaitForStop(t) => if s.thread == Running then To(s, t, AwaitsStop) else s
    case PollStopped(t) => if s.thread == Running then s else To(s, t, Idle)
    case DbgWait(t) => To(s, t, DbgAsleep)
    case DbgSpurious(t) => To(s, t, DbgWoken)
    case DbgRecheck(t) => To(s, t, Idle)
    case WakeDbg(t) => if At(s, t, DbgAsleep) then To(s, t, DbgWoken) else s
  }

  predicate Possible(s: State, events: seq<Event>)
    decreases |events|
  {
    |events| > 0 ==> Enabled(s, events[0]) && Possible(Apply(s, events[0]), events[1..])
  }

  function After(s: State, events: seq<Event>): State
    requires Possible(s, events)
    decreases |events|
  {
    if events == [] then s else After(Apply(s, events[0]), events[1..])
  }

  // ---- What every step keeps ----

  /** A waiting debugger's request is pending, or was taken after it was made. */
  predicate Answered(s: State, d: Debugger) {
    d.AwaitsRun? ==> d.takes <= s.takes && (s.requested || d.takes < s.takes)
  }

  /** The CPU never sleeps on a pending request, it reports RUNNING exactly outside cpu_wait, it runs
      once per stop and never without a request. */
  ghost predicate Inv(s: State) {
    && !(s.cpu == Asleep && s.requested)
    && (s.thread == Running <==> s.cpu == Run)
    && s.stops == s.takes + (if s.cpu == Run then 0 else 1)
    && s.takes + (if s.requested then 1 else 0) <= s.requests
    && forall t :: 0 <= t < |s.debuggers| ==> Answered(s, s.debuggers[t])
  }

  lemma InitialKeeps(debuggers: nat)
    ensures Inv(Initial(debuggers))
  {
  }

  lemma StepKeeps(s: State, e: Event)
    requires Inv(s) && Enabled(s, e)
    ensures Inv(Apply(s, e)) && s.takes <= Apply(s, e).takes
  {
  }

  lemma {:induction false} RunKeeps(s: State, events: seq<Event>)
    requires Inv(s) && Possible(s, events)
    ensures Inv(After(s, events)) && s.takes <= After(s, events).takes
    decreases |events|
  {
    if events != [] {
      StepKeeps(s, events[0]);
      RunKeeps(Apply(s, events[0]), events[1..]);
    }
  }

  // ---- No request is lost ----

  predicate IsCpu(e: Event) {
    e.CpuWait? || e.CpuRecheck?
  }

  /** Until the CPU acts, a request stays; its first action then takes it.  Spurious wake-ups and other
      threads change nothing about that. */
  lemma {:induction false} PendingIsTaken(s: State, events: seq<Event>)
    requires Inv(s) && s.requested && Possible(s, events)
    ensures if exists i :: 0 <= i < |events| && IsCpu(events[i])
            then s.takes < After(s, events).takes
            else After(s, events).requested && After(s, events).takes == s.takes
    decreases |events|
  {
    if events != [] {
      var s', rest := Apply(s, events[0]), events[1..];
      StepKeeps(s, events[0]);
      if IsCpu(events[0]) {
        RunKeeps(s', rest);
      } else {
        PendingIsTaken(s', rest);
        assert (exists i :: 0 <= i < |events| && IsCpu(events[i])) <==>
               (exists i :: 0 <= i < |rest| && IsCpu(rest[i])) by {
          assert forall i :: 0 <= i < |rest| ==> rest[i] == events[i + 1];
          assert forall i :: 1 <= i < |events| ==> events[i] == rest[i - 1];
        }
      }
    }
  }

  /** Whatever the CPU thread is doing when it is asked to run, its next action takes the request. */
  lemma WakeIsTaken(s: State, e: Event, events: seq<Event>)
    requires Inv(s) && Enabled(s, e) && (e.WakeCpu? || e.WakeCpuAndWait?) && Possible(Apply(s, e), events)
    requires exists i :: 0 <= i < |events| && IsCpu(events[i])
    ensures s.takes < After(Apply(s, e), events).takes
  {
    StepKeeps(s, e);
    PendingIsTaken(Apply(s, e), events);
  }

  /** While a request is pending the CPU is never stuck: it is outside cpu_wait or about to recheck. */
  lemma PendingCpuCanAct(s: State)
    requires Inv(s) && s.requested
    ensures Enabled(s, CpuWait) || Enabled(s, CpuRecheck)
  {
  }

  /** wakeup_cpu_and_wait_for_cpu_stopped returns only after the CPU has taken a request made no
      earlier than its own, has run, and has stopped again. */
  lemma WokenCpuRanAndStopped(s: State, t: nat, between: seq<Event>)
    requires Inv(s) && Enabled(s, WakeCpuAndWait(t)) && Possible(Apply(s, WakeCpuAndWait(t)), between)
    requires
      var end := After(Apply(s, WakeCpuAndWait(t)), between);
      Enabled(end, PollRan(t)) && Apply(end, PollRan(t)) != end
    ensures
      var end := After(Apply(s, WakeCpuAndWait(t)), between);
      s.takes < end.takes && s.stops < end.stops && end.stops == end.takes + 1 && end.cpu != Run && !end.requested
  {
    var first := Apply(s, WakeCpuAndWait(t));
    var end := After(first, between);
    StepKeeps(s, WakeCpuAndWait(t));
    RunKeeps(first, between);
    assert !end.requested && end.thread == Wait;
    PendingIsTaken(first, between);
  }

  /** waitfor_cpu_stopped, called or polling, returns exactly when the CPU is in cpu_wait; until then it goes on
      polling. */
  lemma StopWaitReturnsIff(s: State, t: nat, e: Event)
    requires Inv(s) && Enabled(s, e) && (e == WaitForStop(t) || e == PollStopped(t))
    ensures At(Apply(s, e), t, Idle) <==> s.cpu != Run
    ensures At(Apply(s, e), t, AwaitsStop) <==> s.cpu == Run
  {
  }

  /** A poll of wakeup_cpu_and_wait_for_cpu_stopped returns exactly when no request is pending and the CPU is in
      cpu_wait. */
  lemma WakeWaitReturnsIff(s: State, t: nat)
    requires Inv(s) && Enabled(s, PollRan(t))
    ensures At(Apply(s, PollRan(t)), t, Idle) <==> !s.requested && s.cpu != Run
    ensures !At(Apply(s, PollRan(t)), t, Idle) ==> Apply(s, PollRan(t)) == s
  {
  }

  // ---- What each event may change ----

  predicate IsWake(e: Event) {
    e.WakeCpu? || e.WakeCpuAndWait?
  }

  /** The flag is set by the debugger's requests only and cleared by the CPU thread only; the CPU thread leaves its wait
      only by taking a request, and falls asleep only without one. */
  lemma RequestsAndCpu(s: State, e: Event)
    requires Inv(s) && Enabled(s, e)
    ensures
      var s' := Apply(s, e);
      && (s'.requested <==> IsWake(e) || (s.requested && !IsCpu(e)))
      && (s'.cpu == Run <==> if IsCpu(e) then s.requested else s.cpu == Run)
      && (s'.cpu == Asleep <==> if IsCpu(e) then !s.requested else s.cpu == Asleep && !IsWake(e) && !e.Spurious?)
      && s'.takes == s.takes + (if IsCpu(e) && s.requested then 1 else 0)
      && s'.stops == s.stops + (if e.CpuWait? then 1 else 0)
      && s'.requests == s.requests + (if IsWake(e) then 1 else 0)
  {
  }

  /** The thread an event belongs to or wakes. */
  predicate Concerns(e: Event, t: nat) {
    match e
    case CpuWait => false
    case CpuRecheck => false
    case Spurious => false
    case WakeCpu(u) => u == t
    case WakeCpuAndWait(u) => u == t
    case PollRan(u) => u == t
    case WaitForStop(u) => u == t
    case PollStopped(u) => u == t
    case DbgWait(u) => u == t
    case DbgSpurious(u) => u == t
    case DbgRecheck(u) => u == t
    case WakeDbg(u) => u == t
  }

  /** Debugger threads do not disturb each other, and a woken dbg_wait returns: it has no condition to recheck. */
  lemma DebuggersAreApart(s: State, e: Event, t: nat)
    requires Enabled(s, e) && t < |s.debuggers|
    ensures !Concerns(e, t) ==> Apply(s, e).debuggers[t] == s.debuggers[t]
    ensures Concerns(e, t) && (e.WakeCpu? || e.DbgRecheck?) ==> At(Apply(s, e), t, Idle)
    ensures Concerns(e, t) && e.WakeCpuAndWait? ==> At(Apply(s, e), t, AwaitsRun(s.takes))
  {
  }

  function Wakeups(events: seq<Event>): nat {
    if events == [] then 0 else (if IsWake(events[0]) then 1 else 0) + Wakeups(events[1..])
  }

  function CpuWaits(events: seq<Event>): nat {
    if events == [] then 0 else (if events[0].CpuWait? then 1 else 0) + CpuWaits(events[1..])
  }

  lemma {:induction false} RunCounts(s: State, events: seq<Event>)
    requires Inv(s) && Possible(s, events)
    ensures After(s, events).requests == s.requests + Wakeups(events)
    ensures After(s, events).stops == s.stops + CpuWaits(events)
    decreases |events|
  {
    if events != [] {
      StepKeeps(s, events[0]);
      RunCounts(Apply(s, events[0]), events[1..]);
    }
  }

  /** From power-on, in every interleaving: the CPU has been resumed once for every wait it entered, but for the one it
      is in, and never more often than it was asked to run. */
  lemma ResumesAreRequested(debuggers: nat, events: seq<Event>)
    requires Possible(Initial(debuggers), events)
    ensures
      var end := After(Initial(debuggers), events);
      && CpuWaits(events) == end.takes + (if end.cpu == Run then 0 else 1)
      && end.takes + (if end.requested then 1 else 0) <= Wakeups(events)
  {
    InitialKeeps(debuggers);
    RunCounts(Initial(debuggers), events);
    RunKeeps(Initial(debuggers), events);
  }

  // ---- The other direction has no flag ----

  /** A signal comes from the running CPU thread, which can always send it.  It wakes one sleeping debugger, and does
      nothing if none sleeps. */
  lemma SignalWakesSleeper(s: State, t: nat)
    ensures (exists u :: Enabled(s, WakeDbg(u))) <==> s.cpu == Run
    ensures Enabled(s, WakeDbg(t)) ==>
              if DbgAsleep in s.debuggers
              then At(s, t, DbgAsleep) && Apply(s, WakeDbg(t)) == s.(debuggers := s.debuggers[t := DbgWoken])
              else Apply(s, WakeDbg(t)) == s
  {
    if s.cpu == Run && DbgAsleep in s.debuggers {
      var u :| 0 <= u < |s.debuggers| && s.debuggers[u] == DbgAsleep;
      assert Enabled(s, WakeDbg(u));
    } else if s.cpu == Run {
      assert Enabled(s, WakeDbg(0));
    }
  }

  /** Debugger `t` stays asleep in dbg_wait through the whole run. */
  predicate SleepsThrough(s: State, t: nat, events: seq<Event>)
    requires Possible(s, events)
    decreases |events|
  {
    At(s, t, DbgAsleep) && (events == [] || SleepsThrough(Apply(s, events[0]), t, events[1..]))
  }

  /** What can end it: a signal delivered to `t` while it sleeps, or a spurious wake-up. */
  predicate Wakes(t: nat, e: Event) {
    e == WakeDbg(t) || e == DbgSpurious(t)
  }

  /** In every interleaving a sleeping debugger sleeps on exactly as long as no signal reaches it during its sleep and
      no spurious wake-up happens; nothing the CPU did before it slept matters. */
  lemma {:induction false} SleepsThroughIff(s: State, t: nat, events: seq<Event>)
    requires At(s, t, DbgAsleep) && Possible(s, events)
    ensures SleepsThrough(s, t, events) <==> forall i :: 0 <= i < |events| ==> !Wakes(t, events[i])
    decreases |events|
  {
    if events != [] {
      var s', rest := Apply(s, events[0]), events[1..];
      if Wakes(t, events[0]) {
        assert !At(s', t, DbgAsleep);
      } else {
        SleepsThroughIff(s', t, rest);
        assert (forall i :: 0 <= i < |rest| ==> !Wakes(t, rest[i])) <==>
               (forall i :: 0 <= i < |events| ==> !Wakes(t, events[i])) by {
          assert forall i :: 0 <= i < |rest| ==> rest[i] == events[i + 1];
          assert forall i :: 1 <= i < |events| ==> events[i] == rest[i - 1];
        }
      }
    }
  }

  /** So when the CPU signals before the debugger reaches dbg_wait, the signal is lost: the debugger sleeps through
      every run without a further signal to it or a spurious wake-up. */
  lemma EarlyWakeDbgIsLost(s: State, u: nat, t: nat, events: seq<Event>)
    requires Enabled(s, WakeDbg(u)) && DbgAsleep !in s.debuggers && At(s, t, Idle)
    requires Possible(Apply(Apply(s, WakeDbg(u)), DbgWait(t)), events)
    ensures SleepsThrough(Apply(Apply(s, WakeDbg(u)), DbgWait(t)), t, events) <==>
            forall i :: 0 <= i < |events| ==> !Wakes(t, events[i])
  {
    SleepsThroughIff(Apply(Apply(s, WakeDbg(u)), DbgWait(t)), t, events);
  }
}
