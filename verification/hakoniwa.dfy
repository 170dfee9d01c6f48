/**
  The Hakoniwa lockstep stage of src/hakoniwa/athrill_hakoniwa.cpp.

  The environment (conductor, events, world time) is a script of polls, one per pass of the
  waiting loop; a script that runs out while the stage still waits leaves it waiting.  Every
  script is an interleaving of START, STOP and RESET with world-time readings.
 */
module Hakoniwa {
  import opened Numbers
  import opened WorldTime

  /** last_notified_usec before the first report: (uint64)-1. */
  const NOT_REPORTED: nat := TWO_TO_64 - 1

  datatype Event = Nothing | Start | Stop | Reset | Failed

  /** What one pass of the loop is told from outside. */
  datatype Poll = Poll(event: Event, resetDone: bool, startWorld: nat,
                       simulating: bool, pduCreated: bool, pduSyncing: bool, world: nat)

  /** `reports` and `adopted` list the asset times reported and the world times adopted as the
      limit since the last reset. */
  datatype State = State(enabled: bool, finalized: bool, running: bool, ready: bool,
                         world: nat, limit: nat, last: nat, reports: seq<nat>, adopted: seq<nat>)

  const INITIAL := State(true, false, false, false, 0, 0, NOT_REPORTED, [], [])

  /** `Returned`: the stage lets the CPU run.  `Exited`: the process ends. */
  datatype Outcome = Waiting(state: State, clock: nat) | Returned(state: State, clock: nat) | Exited

  /** world_time_usec * cpu_mhz in 64 bits. */
  function LimitOf(world: nat, mhz: nat): (limit: nat)
    ensures limit < TWO_TO_64 && (world * mhz < TWO_TO_64 ==> limit == world * mhz)
  {
    (world * mhz) % TWO_TO_64
  }

  function Report(s: State, clock: nat, mhz: nat): State {
    if s.running && mhz != 0 && clock / mhz != s.last
    then s.(last := clock / mhz, reports := s.reports + [clock / mhz])
    else s
  }

  /** handle_event, with the loop's own reaction to a completed reset; Exit: the process ends. */
  datatype Handled = Exit | Handled(state: State, clock: nat)

  function HandleEvent(s: State, clock: nat, poll: Poll): Handled {
    match poll.event
    case Nothing => Handled(s, clock)
    case Start => Handled(s.(world := poll.startWorld, running := true, ready := false), clock)
    case Stop => Handled(s.(running := false, ready := false), clock)
    case Reset =>
      if !poll.resetDone then Exit
      else Handled(s.(running := false, ready := false, world := 0, limit := 0, last := NOT_REPORTED,
                      reports := [], adopted := []), 0)
    case Failed => Exit
  }

  function CheckReady(s: State, mhz: nat, poll: Poll): State {
    if s.running && mhz != 0 && !s.ready && poll.simulating && poll.pduCreated && !poll.pduSyncing
    then s.(ready := true)
    else s
  }

  function ReadWorld(s: State, clock: nat, mhz: nat, poll: Poll): Outcome {
    if s.running && mhz != 0 && s.ready then
      var limit := LimitOf(poll.world, mhz);
      if clock < limit
      then Returned(s.(world := poll.world, limit := limit, adopted := s.adopted + [poll.world]), clock)
      else Waiting(s.(world := poll.world), clock)
    else Waiting(s, clock)
  }

  /** One pass of the for (;;) loop. */
  function Once(s: State, clock: nat, mhz: nat, poll: Poll): Outcome {
    match HandleEvent(Report(s, clock, mhz), clock, poll)
    case Exit => Exited
    case Handled(t, c) => ReadWorld(CheckReady(t, mhz, poll), c, mhz, poll)
  }

  function Wait(s: State, clock: nat, mhz: nat, polls: seq<Poll>): Outcome
    decreases |polls|
  {
    if polls == [] then Waiting(s, clock)
    else
      match Once(s, clock, mhz, polls[0])
      case Waiting(t, c) => Wait(t, c, mhz, polls[1..])
      case done => done
  }

  predicate FastPath(s: State, clock: nat) {
    !s.enabled || s.finalized || (s.running && clock < s.limit)
  }

  /** athrill_hakoniwa_stage */
  function Stage(s: State, clock: nat, mhz: nat, polls: seq<Poll>): Outcome {
    if FastPath(s, clock) then Returned(s, clock) else Wait(s, clock, mhz, polls)
  }

  // ---- The environment of a whole run ----

  /** World time never goes back, and its limit fits in 64 bits. */
  ghost predicate Plausible(s: State, poll: Poll, mhz: nat) {
    && (poll.event.Reset? || poll.event.Start? || s.world <= poll.world)
    && (poll.event.Start? ==> s.world <= poll.startWorld <= poll.world)
    && poll.world * mhz < TWO_TO_64
  }

  ghost predicate PlausiblePolls(s: State, clock: nat, mhz: nat, polls: seq<Poll>)
    decreases |polls|
  {
    polls == [] ||
    (&& Plausible(s, polls[0], mhz)
     && var next := Once(s, clock, mhz, polls[0]);
        next.Waiting? ==> PlausiblePolls(next.state, next.clock, mhz, polls[1..]))
  }

  ghost predicate StrictlyIncreasing(xs: seq<nat>) {
    forall i, j :: 0 <= i < j < |xs| ==> xs[i] < xs[j]
  }

  /** The world time whose clock value is the current limit. */
  function Adopted(s: State): nat {
    if s.adopted == [] then 0 else s.adopted[|s.adopted| - 1]
  }

  /** What holds between two steps of a run, whether the stage is waiting or the CPU is running. */
  ghost predicate Consistent(s: State, clock: nat, mhz: nat) {
    && 0 < mhz && s.enabled && !s.finalized
    && clock <= s.limit && s.limit == Adopted(s) * mhz && Adopted(s) <= s.world
    && s.last == (if s.reports == [] then NOT_REPORTED else s.reports[|s.reports| - 1])
    && StrictlyIncreasing(s.reports) && (forall r :: r in s.reports ==> r <= Adopted(s))
    && StrictlyIncreasing(s.adopted) && (forall w :: w in s.adopted ==> 0 < w <= Adopted(s))
  }

  /** The stage is in its slow path: exactly at the limit. */
  ghost predicate CaughtUp(s: State, clock: nat, mhz: nat) {
    Consistent(s, clock, mhz) && clock == s.limit
  }

  /** Between two calls: either nothing has run yet, or the CPU is released. */
  ghost predicate Between(s: State, clock: nat, mhz: nat) {
    Consistent(s, clock, mhz) && (if s.running then s.ready else clock == s.limit)
  }

  /** The CPU may execute: below the world time, running, checks passed. */
  ghost predicate Released(s: State, clock: nat) {
    s.running && s.ready && clock < s.limit
  }

  lemma MulMonotone(a: nat, b: nat, m: nat)
    requires a <= b
    ensures a * m <= b * m
  {
  }

  lemma DivMul(w: nat, mhz: nat)
    requires 0 < mhz
    ensures (w * mhz) / mhz == w
  {
    var q := (w * mhz) / mhz;
    assert q * mhz <= w * mhz < (q + 1) * mhz;
    if q < w {
      MulMonotone(q + 1, w, mhz);
    } else if w < q {
      MulMonotone(w + 1, q, mhz);
    }
  }

  lemma ReportKeeps(s: State, clock: nat, mhz: nat)
    requires CaughtUp(s, clock, mhz)
    ensures CaughtUp(Report(s, clock, mhz), clock, mhz)
    ensures Report(s, clock, mhz).world == s.world
  {
    DivMul(Adopted(s), mhz);
    if s.reports != [] {
      assert s.last in s.reports;
    }
    var t := Report(s, clock, mhz);
    assert t.reports == s.reports || t.reports == s.reports + [Adopted(s)];
    assert Adopted(t) == Adopted(s);
  }

  lemma EventKeeps(s: State, clock: nat, mhz: nat, poll: Poll)
    requires CaughtUp(s, clock, mhz) && Plausible(s, poll, mhz)
    ensures
      match HandleEvent(s, clock, poll)
      case Exit => true
      case Handled(t, c) => CaughtUp(t, c, mhz) && (t.running ==> t.world <= poll.world)
  {
  }

  lemma ReadWorldKeeps(s: State, clock: nat, mhz: nat, poll: Poll)
    requires CaughtUp(s, clock, mhz) && poll.world * mhz < TWO_TO_64 && (s.running ==> s.world <= poll.world)
    ensures
      match ReadWorld(s, clock, mhz, poll)
      case Exited => false
      case Waiting(t, c) => CaughtUp(t, c, mhz)
      case Returned(t, c) => Consistent(t, c, mhz) && Released(t, c)
  {
  }

  /** One pass of the slow path: it stays exactly at the limit, or releases the CPU below a new one. */
  lemma PassKeeps(s: State, clock: nat, mhz: nat, poll: Poll)
    requires CaughtUp(s, clock, mhz) && Plausible(s, poll, mhz)
    ensures
      match Once(s, clock, mhz, poll)
      case Exited => true
      case Waiting(t, c) => CaughtUp(t, c, mhz)
      case Returned(t, c) => Consistent(t, c, mhz) && Released(t, c)
  {
    ReportKeeps(s, clock, mhz);
    var r := Report(s, clock, mhz);
    EventKeeps(r, clock, mhz, poll);
    match HandleEvent(r, clock, poll)
    case Exit =>
    case Handled(t, c) =>
      ReadWorldKeeps(CheckReady(t, mhz, poll), c, mhz, poll);
  }

  lemma {:induction false} WaitKeeps(s: State, clock: nat, mhz: nat, polls: seq<Poll>)
    requires CaughtUp(s, clock, mhz) && PlausiblePolls(s, clock, mhz, polls)
    ensures
      match Wait(s, clock, mhz, polls)
      case Exited => true
      case Waiting(t, c) => CaughtUp(t, c, mhz)
      case Returned(t, c) => Consistent(t, c, mhz) && Released(t, c)
    decreases |polls|
  {
    if polls != [] {
      PassKeeps(s, clock, mhz, polls[0]);
      match Once(s, clock, mhz, polls[0])
      case Waiting(t, c) => WaitKeeps(t, c, mhz, polls[1..]);
      case _ =>
    }
  }

  /** Every return of the stage has the clock strictly below the limit, running and ready; the
      slow path is entered while running only at exactly the limit, and is never left above it. */
  lemma StageKeeps(s: State, clock: nat, mhz: nat, polls: seq<Poll>)
    requires Between(s, clock, mhz) && (FastPath(s, clock) || PlausiblePolls(s, clock, mhz, polls))
    ensures !FastPath(s, clock) ==> clock == s.limit
    ensures
      match Stage(s, clock, mhz, polls)
      case Exited => true
      case Waiting(t, c) => CaughtUp(t, c, mhz)
      case Returned(t, c) => Between(t, c, mhz) && Released(t, c)
  {
    if !FastPath(s, clock) {
      WaitKeeps(s, clock, mhz, polls);
    }
  }

  /** Nothing but a world time beyond the clock is needed to release a waiting stage, whatever
      state STOP and RESET have left it in. */
  lemma StartReleases(s: State, clock: nat, mhz: nat, poll: Poll)
    requires 0 < mhz && poll.event.Start? && poll.simulating && poll.pduCreated && !poll.pduSyncing
    requires clock < poll.world * mhz < TWO_TO_64
    ensures Once(s, clock, mhz, poll).Returned? && Once(s, clock, mhz, poll).clock == clock
    ensures Released(Once(s, clock, mhz, poll).state, clock)
  {
  }

  /** Without a CPU frequency the stage never lets the CPU run. */
  lemma {:induction false} NoFrequencyNoReturn(s: State, clock: nat, polls: seq<Poll>)
    ensures !Wait(s, clock, 0, polls).Returned?
    decreases |polls|
  {
    if polls != [] {
      match Once(s, clock, 0, polls[0])
      case Waiting(t, c) => NoFrequencyNoReturn(t, c, polls[1..]);
      case _ =>
    }
  }

  // ---- What a script of polls decides ----

  /** The latest START, STOP or RESET up to poll `n` was a START; without any, the stage was running before. */
  predicate RunningAt(s: State, polls: seq<Poll>, n: nat)
    requires n < |polls|
  {
    match polls[n].event
    case Start => true
    case Stop => false
    case Reset => false
    case _ => if n == 0 then s.running else RunningAt(s, polls, n - 1)
  }

  predicate ChecksPass(poll: Poll) {
    poll.simulating && poll.pduCreated && !poll.pduSyncing
  }

  /** Running at poll `n`, and the checks have passed since the START. */
  predicate ReadyAt(s: State, polls: seq<Poll>, n: nat)
    requires n < |polls|
  {
    RunningAt(s, polls, n)
    && (ChecksPass(polls[n]) || (!polls[n].event.Start? && if n == 0 then s.ready else ReadyAt(s, polls, n - 1)))
  }

  /** A reset takes the clock back to 0. */
  function ClockAt(clock: nat, polls: seq<Poll>, n: nat): nat
    requires n < |polls|
  {
    if polls[n].event.Reset? then 0 else if n == 0 then clock else ClockAt(clock, polls, n - 1)
  }

  predicate Ends(poll: Poll) {
    poll.event.Failed? || (poll.event.Reset? && !poll.resetDone)
  }

  predicate Releases(s: State, clock: nat, mhz: nat, polls: seq<Poll>, n: nat)
    requires n < |polls|
  {
    ReadyAt(s, polls, n) && ClockAt(clock, polls, n) < (polls[n].world * mhz) % TWO_TO_64
  }

  /** Poll `n` ends the process or lets the CPU run. */
  predicate Decides(s: State, clock: nat, mhz: nat, polls: seq<Poll>, n: nat)
    requires n < |polls|
  {
    Ends(polls[n]) || Releases(s, clock, mhz, polls, n)
  }

  lemma FirstPass(s: State, clock: nat, mhz: nat, polls: seq<Poll>)
    requires 0 < mhz && polls != []
    ensures
      match Once(s, clock, mhz, polls[0])
      case Exited => Ends(polls[0])
      case Waiting(t, c) =>
        && !Decides(s, clock, mhz, polls, 0) && c == ClockAt(clock, polls, 0)
        && t.running == RunningAt(s, polls, 0) && (t.running && t.ready <==> ReadyAt(s, polls, 0))
      case Returned(t, c) =>
        && !Ends(polls[0]) && Releases(s, clock, mhz, polls, 0) && c == ClockAt(clock, polls, 0)
        && t.running && t.ready && t.limit == (polls[0].world * mhz) % TWO_TO_64 && Adopted(t) == polls[0].world
  {
  }

  /** After a pass that goes on waiting, the rest of the script decides as it did before. */
  lemma {:induction false} RestDecides(s: State, clock: nat, mhz: nat, polls: seq<Poll>, n: nat)
    requires 0 < mhz && n + 1 < |polls| && Once(s, clock, mhz, polls[0]).Waiting?
    ensures
      var next := Once(s, clock, mhz, polls[0]);
      && RunningAt(s, polls, n + 1) == RunningAt(next.state, polls[1..], n)
      && ReadyAt(s, polls, n + 1) == ReadyAt(next.state, polls[1..], n)
      && ClockAt(clock, polls, n + 1) == ClockAt(next.clock, polls[1..], n)
      && Decides(s, clock, mhz, polls, n + 1) == Decides(next.state, next.clock, mhz, polls[1..], n)
  {
    FirstPass(s, clock, mhz, polls);
    if n > 0 {
      RestDecides(s, clock, mhz, polls, n - 1);
    }
  }

  lemma NoneDecidesLater(s: State, clock: nat, mhz: nat, polls: seq<Poll>, n: nat)
    requires 0 < mhz && 0 < n <= |polls| && Once(s, clock, mhz, polls[0]).Waiting?
    requires forall k :: 0 <= k < n ==> !Decides(s, clock, mhz, polls, k)
    ensures
      var next := Once(s, clock, mhz, polls[0]);
      forall k :: 0 <= k < n - 1 ==> !Decides(next.state, next.clock, mhz, polls[1..], k)
  {
    forall k | 0 <= k < n - 1
      ensures !Decides(Once(s, clock, mhz, polls[0]).state, Once(s, clock, mhz, polls[0]).clock, mhz, polls[1..], k)
    {
      RestDecides(s, clock, mhz, polls, k);
    }
  }

  /** Over every script, the first poll that decides says how the wait ends: the process ends on a failed event or
      reset; else the CPU is released, running and ready, below the limit of the world time that poll gave. */
  lemma {:induction false} WaitDecided(s: State, clock: nat, mhz: nat, polls: seq<Poll>, n: nat)
    requires 0 < mhz && n < |polls| && Decides(s, clock, mhz, polls, n)
    requires forall k :: 0 <= k < n ==> !Decides(s, clock, mhz, polls, k)
    ensures
      match Wait(s, clock, mhz, polls)
      case Exited => Ends(polls[n])
      case Waiting(_, _) => false
      case Returned(t, c) =>
        && !Ends(polls[n]) && t.running && t.ready && c == ClockAt(clock, polls, n)
        && t.limit == (polls[n].world * mhz) % TWO_TO_64 && Adopted(t) == polls[n].world
    decreases |polls|
  {
    FirstPass(s, clock, mhz, polls);
    if n > 0 {
      assert !Decides(s, clock, mhz, polls, 0);
      var next := Once(s, clock, mhz, polls[0]);
      RestDecides(s, clock, mhz, polls, n - 1);
      NoneDecidesLater(s, clock, mhz, polls, n);
      WaitDecided(next.state, next.clock, mhz, polls[1..], n - 1);
    }
  }

  /** A script in which no poll decides leaves the stage waiting. */
  lemma {:induction false} WaitUndecided(s: State, clock: nat, mhz: nat, polls: seq<Poll>)
    requires 0 < mhz && forall k :: 0 <= k < |polls| ==> !Decides(s, clock, mhz, polls, k)
    ensures Wait(s, clock, mhz, polls).Waiting?
    ensures polls != [] ==>
              && Wait(s, clock, mhz, polls).state.running == RunningAt(s, polls, |polls| - 1)
              && Wait(s, clock, mhz, polls).clock == ClockAt(clock, polls, |polls| - 1)
    decreases |polls|
  {
    if polls != [] {
      FirstPass(s, clock, mhz, polls);
      assert !Decides(s, clock, mhz, polls, 0);
      var next := Once(s, clock, mhz, polls[0]);
      NoneDecidesLater(s, clock, mhz, polls, |polls|);
      WaitUndecided(next.state, next.clock, mhz, polls[1..]);
      if |polls| > 1 {
        RestDecides(s, clock, mhz, polls, |polls| - 2);
      }
    }
  }

  /** To run after a STOP or a RESET takes a later START. */
  lemma {:induction false} StopNeedsStart(s: State, polls: seq<Poll>, i: nat, n: nat)
    requires i <= n < |polls| && (polls[i].event.Stop? || polls[i].event.Reset?) && RunningAt(s, polls, n)
    ensures exists j :: i < j <= n && polls[j].event.Start?
  {
    if !polls[n].event.Start? {
      StopNeedsStart(s, polls, i, n - 1);
    }
  }

  lemma {:induction false} FirstDecision(s: State, clock: nat, mhz: nat, polls: seq<Poll>, i: nat) returns (n: nat)
    requires i <= |polls|
    ensures i <= n <= |polls| && forall k :: i <= k < n ==> !Decides(s, clock, mhz, polls, k)
    ensures n < |polls| ==> Decides(s, clock, mhz, polls, n)
    decreases |polls| - i
  {
    n := i;
    if i < |polls| && !Decides(s, clock, mhz, polls, i) {
      n := FirstDecision(s, clock, mhz, polls, i + 1);
    }
  }

  /** STOP and RESET hold the CPU: a stage still waiting when one arrives does not return before a later START, over
      every script. */
  lemma StoppedUntilStart(s: State, clock: nat, mhz: nat, polls: seq<Poll>, i: nat)
    requires i < |polls| && (polls[i].event.Stop? || polls[i].event.Reset?)
    requires forall k :: 0 <= k < i ==> !Decides(s, clock, mhz, polls, k)
    requires forall k :: i < k < |polls| ==> !polls[k].event.Start?
    ensures !Wait(s, clock, mhz, polls).Returned?
  {
    if mhz == 0 {
      NoFrequencyNoReturn(s, clock, polls);
    } else {
      var n := FirstDecision(s, clock, mhz, polls, i);
      if n == |polls| {
        WaitUndecided(s, clock, mhz, polls);
      } else {
        WaitDecided(s, clock, mhz, polls, n);
        if RunningAt(s, polls, n) {
          StopNeedsStart(s, polls, i, n);
        }
      }
    }
  }

  /** The stage lets the CPU run without looking at any poll exactly when there is no asset, it is finalized, or it runs
      below the limit. */
  lemma FreeRunIff(s: State, clock: nat, mhz: nat)
    ensures (forall polls :: Stage(s, clock, mhz, polls) == Returned(s, clock)) <==>
            !s.enabled || s.finalized || (s.running && clock < s.limit)
  {
    if !(!s.enabled || s.finalized || (s.running && clock < s.limit)) {
      assert Stage(s, clock, mhz, []) == Waiting(s, clock);
    }
  }

  /** One pass reports the asset time, in microseconds, exactly when the stage runs and the time is not the one reported
      last; a completed reset forgets the reports. */
  lemma PassReports(s: State, clock: nat, mhz: nat, poll: Poll)
    requires 0 < mhz && !Once(s, clock, mhz, poll).Exited?
    ensures
      var t := Once(s, clock, mhz, poll).state;
      if poll.event.Reset? then t.reports == [] && t.last == NOT_REPORTED
      else if s.running && clock / mhz != s.last
      then t.reports == s.reports + [clock / mhz] && t.last == clock / mhz
      else t.reports == s.reports && t.last == s.last
  {
  }

  /** So a running stage that has caught up has always reported the world time it caught up with. */
  lemma CaughtUpIsReported(s: State, clock: nat, mhz: nat, poll: Poll)
    requires CaughtUp(s, clock, mhz) && s.running && Adopted(s) != NOT_REPORTED
    requires !poll.event.Reset? && !Once(s, clock, mhz, poll).Exited?
    ensures
      var reports := Once(s, clock, mhz, poll).state.reports;
      reports != [] && reports[|reports| - 1] == Adopted(s)
  {
    DivMul(Adopted(s), mhz);
    PassReports(s, clock, mhz, poll);
  }

  /** However long the stage waits, between resets it reports its time at most once. */
  lemma {:induction false} WaitReportsOnce(s: State, clock: nat, mhz: nat, polls: seq<Poll>)
    requires 0 < mhz && (forall k :: 0 <= k < |polls| ==> !polls[k].event.Reset?)
    requires !Wait(s, clock, mhz, polls).Exited?
    ensures
      var t := Wait(s, clock, mhz, polls).state;
      || (t.reports == s.reports && t.last == s.last)
      || (clock / mhz != s.last && t.reports == s.reports + [clock / mhz] && t.last == clock / mhz)
    decreases |polls|
  {
    if polls != [] {
      PassReports(s, clock, mhz, polls[0]);
      FirstPass(s, clock, mhz, polls);
      match Once(s, clock, mhz, polls[0])
      case Waiting(t, c) => WaitReportsOnce(t, c, mhz, polls[1..]);
      case _ =>
    }
  }

  // ---- Whole runs: the stage and the CPU in turn ----

  /** One round of the main loop: the polls its stage sees, the interval its devices report, whether it runs a
      batch (one core, not halted after its first instruction), the batch settings, and the clocks it adds. */
  datatype Round = Round(polls: seq<Poll>, reported: nat, batches: bool, maxBatch: nat, endClock: nat, clocks: nat)

  /** The most clocks a round can add to the clock it starts at: the capped interval when a device event is
      scheduled, the batch when it runs one, else a single step. */
  function MaxClocks(lead: nat, round: Round, clock: nat): nat {
    if round.reported != NO_INTERVAL then Cap(lead, round.reported)
    else if round.batches && clock + 1 < round.endClock && 1 < round.maxBatch then
      Min(round.maxBatch, round.endClock - clock)
    else 1
  }

  function Rounds(s: State, clock: nat, mhz: nat, rounds: seq<Round>): Outcome
    decreases |rounds|
  {
    if rounds == [] then Returned(s, clock)
    else
      match Stage(s, clock, mhz, rounds[0].polls)
      case Returned(t, c) => Rounds(t, c + rounds[0].clocks, mhz, rounds[1..])
      case stuck => stuck
  }

  /** Every round but one: a batch without a scheduled device event that may be longer than the lead. */
  predicate WithinLead(s: State, clock: nat, round: Round) {
    && clock < s.limit && round.clocks <= MaxClocks(s.limit - clock, round, clock)
    && (round.reported != NO_INTERVAL || MaxClocks(s.limit - clock, round, clock) <= s.limit - clock)
  }

  /** Runs whose batches are covered by the cap. */
  ghost predicate Covered(s: State, clock: nat, mhz: nat, rounds: seq<Round>)
    decreases |rounds|
  {
    rounds == [] ||
    (&& (FastPath(s, clock) || PlausiblePolls(s, clock, mhz, rounds[0].polls))
     && var after := Stage(s, clock, mhz, rounds[0].polls);
        after.Returned? ==>
          && WithinLead(after.state, after.clock, rounds[0])
          && Covered(after.state, after.clock + rounds[0].clocks, mhz, rounds[1..]))
  }

  /** Where a run may be found: waiting exactly at the limit, or between two rounds. */
  ghost predicate InLockstep(o: Outcome, mhz: nat) {
    match o
    case Exited => true
    case Waiting(t, c) => CaughtUp(t, c, mhz)
    case Returned(t, c) => Between(t, c, mhz)
  }

  /** Lockstep over whole runs: the clock never passes the world limit, the reported asset times
      and the adopted world times grow strictly between resets and never exceed the world time. */
  lemma {:induction false} LockstepOverRuns(s: State, clock: nat, mhz: nat, rounds: seq<Round>)
    requires Between(s, clock, mhz) && Covered(s, clock, mhz, rounds)
    ensures InLockstep(Rounds(s, clock, mhz, rounds), mhz)
    decreases |rounds|
  {
    if rounds != [] {
      StageKeeps(s, clock, mhz, rounds[0].polls);
      match Stage(s, clock, mhz, rounds[0].polls)
      case Returned(t, c) => LockstepOverRuns(t, c + rounds[0].clocks, mhz, rounds[1..]);
      case _ =>
    }
  }

  lemma {:induction false} CoveredPrefix(s: State, clock: nat, mhz: nat, rounds: seq<Round>, n: nat)
    requires Covered(s, clock, mhz, rounds) && n <= |rounds|
    ensures Covered(s, clock, mhz, rounds[..n])
    decreases |rounds|
  {
    if n > 0 {
      match Stage(s, clock, mhz, rounds[0].polls)
      case Returned(t, c) =>
        CoveredPrefix(t, c + rounds[0].clocks, mhz, rounds[1..], n - 1);
        assert rounds[..n][1..] == rounds[1..][..n - 1];
      case _ =>
    }
  }

  /** From power-on, at every point of every covered run: the clock is at or below the world limit. */
  lemma LockstepAlways(mhz: nat, rounds: seq<Round>, n: nat)
    requires 0 < mhz && Covered(INITIAL, 0, mhz, rounds) && n <= |rounds|
    ensures InLockstep(Rounds(INITIAL, 0, mhz, rounds[..n]), mhz)
  {
    InitiallyBetween(mhz);
    CoveredPrefix(INITIAL, 0, mhz, rounds, n);
    LockstepOverRuns(INITIAL, 0, mhz, rounds[..n]);
  }

  lemma InitiallyBetween(mhz: nat)
    requires 0 < mhz
    ensures Between(INITIAL, 0, mhz)
  {
  }

  /** A completed RESET forgets everything: the stage waits on as it does from power-on, whatever came before. */
  lemma ResetIsPowerOn(s: State, clock: nat, mhz: nat, poll: Poll, polls: seq<Poll>)
    requires s.enabled && !s.finalized && poll.event.Reset? && poll.resetDone
    ensures Wait(s, clock, mhz, [poll] + polls) == Wait(INITIAL, 0, mhz, polls)
  {
    assert ([poll] + polls)[1..] == polls;
  }

  // ---- The stage as it is written, over its static variables ----

  class LockstepStage {
    var enabled: bool
    var finalized: bool
    var running: bool
    var ready: bool
    var world: nat
    var limit: nat
    var last: nat
    var reports: seq<nat>
    var adopted: seq<nat>

    constructor ()
      ensures Value() == INITIAL
    {
      enabled, finalized, running, ready := true, false, false, false;
      world, limit, last, reports, adopted := 0, 0, NOT_REPORTED, [], [];
    }

    function Value(): State
      reads this
    {
      State(enabled, finalized, running, ready, world, limit, last, reports, adopted)
    }

    /** handle_event: `exit` when the process ends, else whether a reset was done. */
    method HandlePoll(ghost clock: nat, poll: Poll) returns (exit: bool, reset: bool)
      modifies this
      ensures exit == HandleEvent(old(Value()), clock, poll).Exit?
      ensures !exit ==> reset == poll.event.Reset?
      ensures !exit && !reset ==> HandleEvent(old(Value()), clock, poll) == Handled(Value(), clock)
      ensures !exit && reset ==> Value() == old(Value()).(running := false, ready := false, world := 0)
    {
      exit, reset := false, false;
      match poll.event
      case Nothing =>
      case Start =>
        world := poll.startWorld;
        running, ready := true, false;
      case Stop =>
        running, ready := false, false;
      case Reset =>
        running, ready := false, false;
        if !poll.resetDone {
          return true, false;
        }
        world := 0;
        reset := true;
      case Failed =>
        exit := true;
    }

    /** The asset's time is reported when it differs from the last report. */
    method ReportTime(clock: nat, mhz: nat)
      modifies this
      ensures Value() == Report(old(Value()), clock, mhz)
    {
      if running && mhz != 0 && clock / mhz != last {
        last := clock / mhz;
        reports := reports + [last];
      }
    }

    method NoticeReady(mhz: nat, poll: Poll)
      modifies this
      ensures Value() == CheckReady(old(Value()), mhz, poll)
    {
      if running && mhz != 0 && !ready && poll.simulating && poll.pduCreated && !poll.pduSyncing {
        ready := true;
      }
    }

    /** The world time is read, and adopted when it lets the CPU run. */
    method AdoptWorld(clock: nat, mhz: nat, poll: Poll) returns (outcome: Outcome)
      modifies this
      ensures outcome == ReadWorld(old(Value()), clock, mhz, poll) && Value() == outcome.state
      ensures outcome.Returned? ==> outcome.clock < limit
    {
      if running && mhz != 0 && ready {
        world := poll.world;
        var newLimit := LimitOf(world, mhz);
        if clock < newLimit {
          limit, adopted := newLimit, adopted + [world];
          return Returned(Value(), clock);
        }
      }
      return Waiting(Value(), clock);
    }

    /** One pass of the for (;;) loop. */
    method PollOnce(clockIn: nat, mhz: nat, poll: Poll) returns (outcome: Outcome)
      requires enabled && !finalized
      modifies this
      ensures outcome == Once(old(Value()), clockIn, mhz, poll)
      ensures !outcome.Exited? ==> Value() == outcome.state && enabled && !finalized
      ensures outcome.Returned? ==> outcome.clock < limit
    {
      var clock: nat := clockIn;
      ReportTime(clock, mhz);
      var exit, reset := HandlePoll(clock, poll);
      if exit {
        return Exited;
      }
      if reset {
        clock, limit, last, reports, adopted := 0, 0, NOT_REPORTED, [], [];
      }
      NoticeReady(mhz, poll);
      outcome := AdoptWorld(clock, mhz, poll);
    }

    /** athrill_hakoniwa_stage over the given polls: its outcome and the interval it leaves. */
    method RunStage(clock: nat, mhz: nat, interval: nat, polls: seq<Poll>) returns (outcome: Outcome, capped: nat)
      modifies this
      ensures outcome == Stage(old(Value()), clock, mhz, polls)
      ensures !outcome.Exited? ==> Value() == outcome.state
      ensures outcome.Returned? && enabled && !finalized ==>
                outcome.clock < limit && capped == Cap(limit - outcome.clock, interval)
      ensures outcome.Returned? && (!enabled || finalized) ==> capped == interval
    {
      capped := interval;
      outcome := Waiting(Value(), clock);
      if !enabled || finalized {
        return Returned(Value(), clock), capped;
      }
      if running && clock < limit {
        return Returned(Value(), clock), Cap(limit - clock, interval);
      }
      var i := 0;
      while i < |polls| && outcome.Waiting?
        invariant 0 <= i <= |polls|
        invariant !outcome.Exited? ==> Value() == outcome.state && enabled && !finalized
        invariant outcome.Returned? ==> outcome.clock < limit
        invariant Wait(old(Value()), clock, mhz, polls) ==
                  if outcome.Waiting? then Wait(outcome.state, outcome.clock, mhz, polls[i..]) else outcome
      {
        assert polls[i..][0] == polls[i] && polls[i..][1..] == polls[i + 1..];
        outcome := PollOnce(outcome.clock, mhz, polls[i]);
        i := i + 1;
      }
      if outcome.Returned? {
        capped := Cap(limit - outcome.clock, interval);
      }
    }
  }
}
