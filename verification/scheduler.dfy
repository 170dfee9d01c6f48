/**
  The virtual-clock scheduler of src/main/cpuemu.cpp.

  `Target` stands for the parts that live outside the repository (instruction set,
  interrupt controller, devices).  `Meets` is the contract those parts owe the scheduler:
  the comment above cpuemu_run_batch and the one above cpu_supply_clocks, with
  min_intr_interval read as a lower bound on the clocks until the next device event.
  The reference is `OneClock`: tick the devices, run one instruction, advance one clock.
 */
module Scheduler {
  import opened Numbers
  import opened WorldTime

  datatype Status = Ok | Trapped | Fatal

  /** One instruction: `touched` says that it accessed a device region. */
  datatype Execution<C, D> = Execution(cpu: C, dev: D, touched: bool, status: Status)

  /** One device tick: the interrupts it raises show up in `cpu`. */
  datatype Tick<C, D, E> = Tick(cpu: C, dev: D, events: seq<E>)

  /** `Sync` and `Due` are used in contracts only. */
  datatype Target<!C, !D, !E> = Target(
    instruction: (C, D, nat) -> Execution<C, D>,
    halt: C -> bool,
    devices: (C, D, nat) -> Tick<C, D, E>,
    report: (D, nat) -> nat,
    skippable: (D, nat) -> bool,
    catchUp: (D, nat) -> D,
    nextEvent: D -> nat)
  {
    function Exec(c: C, d: D, t: nat): Execution<C, D> { instruction(c, d, t) }
    predicate Halted(c: C) { halt(c) }
    function TickAt(c: C, d: D, t: nat): Tick<C, D, E> { devices(c, d, t) }
    /** min_intr_interval after a tick at clock `t`. */
    function Interval(d: D, t: nat): nat { report(d, t) }
    predicate CanSkip(d: D, t: nat) { skippable(d, t) }
    /** `d` brought up to clock `t`. */
    function Sync(d: D, t: nat): D { catchUp(d, t) }
    /** A clock before which `d` raises no event. */
    function Due(d: D): nat { nextEvent(d) }
  }

  datatype Item<C, E> = Instruction(clock: nat, cpu: C) | DeviceEvents(clock: nat, events: seq<E>)

  // ---- The contract a target must meet ----

  /** Before its due clock a device tick only brings the device up to date. */
  ghost predicate QuietBeforeDue<C(!new), D(!new), E>(m: Target<C, D, E>) {
    forall c, d, t: nat {:trigger m.TickAt(c, d, t), m.Sync(d, t)} ::
      t < m.Due(d) ==> m.TickAt(c, d, t) == Tick(c, m.Sync(d, t), [])
  }

  /** A tick depends on the clock and on device accesses, not on earlier quiet ticks. */
  ghost predicate QuietTicksCanBeOmitted<C(!new), D(!new), E>(m: Target<C, D, E>) {
    forall c, d, t: nat, u: nat {:trigger m.TickAt(c, m.Sync(d, t), u)} ::
      t < m.Due(d) && t < u ==> m.TickAt(c, m.Sync(d, t), u) == m.TickAt(c, d, u)
  }

  /** Reported intervals are at least 1, never later than the due clock, and finite ones name
      a representable clock. */
  ghost predicate ReportsAreSound<C(!new), D(!new), E>(m: Target<C, D, E>) {
    forall c, d, t: nat {:trigger m.Interval(m.TickAt(c, d, t).dev, t)} :: t < TWO_TO_64 ==>
      var after := m.TickAt(c, d, t).dev;
      && 1 <= m.Interval(after, t) <= NO_INTERVAL
      && t < m.Due(after)
      && (m.Interval(after, t) == NO_INTERVAL ==> TWO_TO_64 <= m.Due(after))
      && (m.Interval(after, t) < NO_INTERVAL ==>
            t + m.Interval(after, t) <= m.Due(after) && t + m.Interval(after, t) < TWO_TO_64)
  }

  /** Devices bring their state up to the current clock when they are accessed, and change
      between ticks only when they are accessed. */
  ghost predicate AccessCatchesUp<C(!new), D(!new), E>(m: Target<C, D, E>) {
    forall c, d, t: nat {:trigger m.Exec(c, m.Sync(d, t), t)} :: t < m.Due(d) ==>
      var lazy := m.Exec(c, d, t);
      var eager := m.Exec(c, m.Sync(d, t), t);
      && lazy.cpu == eager.cpu && lazy.touched == eager.touched && lazy.status == eager.status
      && (if lazy.touched then lazy.dev == eager.dev else lazy.dev == d && eager.dev == m.Sync(d, t))
  }

  ghost predicate HaltIsIdle<C(!new), D(!new), E>(m: Target<C, D, E>) {
    forall c, d, t: nat :: m.Halted(c) ==> m.Exec(c, d, t) == Execution(c, d, false, Ok)
  }

  ghost predicate Meets<C(!new), D(!new), E>(m: Target<C, D, E>) {
    QuietBeforeDue(m) && QuietTicksCanBeOmitted(m) && ReportsAreSound(m) && AccessCatchesUp(m) && HaltIsIdle(m)
  }

  /** Owed only when clock skip is on: the instruction that halts a core (wait for interrupt, branch to
      itself, idle function) does not bring a device event forward.  The skip that follows uses the
      interval reported before that instruction. */
  ghost predicate HaltMovesNoEventUp<C(!new), D(!new), E>(m: Target<C, D, E>) {
    forall c, d, t: nat {:trigger m.Exec(c, d, t)} ::
      t < m.Due(d) && m.Exec(c, d, t).touched && m.Halted(m.Exec(c, d, t).cpu) ==>
        m.Due(d) <= m.Due(m.Exec(c, d, t).dev)
  }

  // ---- The reference: one device tick per clock ----

  datatype Run<C, D, E> = Run(clock: nat, cpu: C, dev: D, log: seq<Item<C, E>>, exited: bool)

  function Events<C, E>(clock: nat, events: seq<E>): (items: seq<Item<C, E>>) {
    if |events| == 0 then [] else [DeviceEvents(clock, events)]
  }

  function Executed<C, D, E>(m: Target<C, D, E>, clock: nat, cpu: C): (items: seq<Item<C, E>>) {
    if m.Halted(cpu) then [] else [Instruction(clock, cpu)]
  }

  function OneClock<C, D, E>(m: Target<C, D, E>, s: Run<C, D, E>): Run<C, D, E> {
    if s.exited then s
    else
      var k := m.TickAt(s.cpu, s.dev, s.clock);
      var x := m.Exec(k.cpu, k.dev, s.clock);
      Run(if x.status.Fatal? then s.clock else s.clock + 1, x.cpu, x.dev,
          s.log + Events(s.clock, k.events) + Executed(m, s.clock, k.cpu), x.status.Fatal?)
  }

  function Clocks<C, D, E>(m: Target<C, D, E>, s: Run<C, D, E>, n: nat): (r: Run<C, D, E>)
    ensures !r.exited ==> r.clock == s.clock + n && !s.exited
  {
    if n == 0 then s else OneClock(m, Clocks(m, s, n - 1))
  }

  lemma {:induction false} ExitIsFinal<C, D, E>(m: Target<C, D, E>, s: Run<C, D, E>, a: nat, b: nat)
    requires a <= b && Clocks(m, s, a).exited
    ensures Clocks(m, s, b) == Clocks(m, s, a)
  {
    if a < b {
      ExitIsFinal(m, s, a, b - 1);
    }
  }

  // ---- The scheduler's own steps, as functions of its state ----

  /** `stopsAfterFirstTouch`: cpu_supply_clocks also refuses to go on after a first instruction
      that touched a device.  `lead`: clocks left until the world-time limit, as the Hakoniwa
      stage sees them at a clock. */
  datatype Config = Config(maxBatch: nat, coreNum: nat, enableSkip: bool, stopsAfterFirstTouch: bool, lead: nat -> nat)

  /** 64-bit addition of two 64-bit values. */
  function Add64(a: nat, b: nat): (r: nat)
    ensures a + b < TWO_TO_64 ==> r == a + b
  {
    if a + b < TWO_TO_64 then a + b else a + b - TWO_TO_64
  }

  /** One further instruction of a batch: one clock, no device tick. */
  function Unticked<C, D, E>(m: Target<C, D, E>, s: Run<C, D, E>): Run<C, D, E> {
    var x := m.Exec(s.cpu, s.dev, s.clock + 1);
    Run(s.clock + 1, x.cpu, x.dev, s.log + Executed(m, s.clock + 1, s.cpu), x.status.Fatal?)
  }

  /** The instruction that `Unticked` runs ends the batch: the CPU fails, halts or touches a device. */
  predicate EndsBatch<C, D, E>(m: Target<C, D, E>, s: Run<C, D, E>) {
    var x := m.Exec(s.cpu, s.dev, s.clock + 1);
    x.status != Ok || m.Halted(x.cpu) || x.touched
  }

  /** Up to `n` further instructions. */
  function Batch<C, D, E>(m: Target<C, D, E>, s: Run<C, D, E>, n: nat): (r: Run<C, D, E>)
    ensures s.clock <= r.clock <= s.clock + n
    decreases n
  {
    if n == 0 then s
    else if EndsBatch(m, s) then Unticked(m, s)
    else Batch(m, Unticked(m, s), n - 1)
  }

  /** The instructions of the `n` clocks after `clock` neither fail, halt the CPU nor touch a device. */
  predicate RunsOn<C, D, E>(m: Target<C, D, E>, cpu: C, dev: D, clock: nat, n: nat)
    decreases n
  {
    n == 0 ||
    var x := m.Exec(cpu, dev, clock + 1);
    x.status == Ok && !m.Halted(x.cpu) && !x.touched && RunsOn(m, x.cpu, x.dev, clock + 1, n - 1)
  }

  /** A batch gets past its first `k` instructions exactly when none of them ends it. */
  lemma {:induction false} BatchLength<C, D, E>(m: Target<C, D, E>, s: Run<C, D, E>, n: nat, k: nat)
    requires k < n
    ensures s.clock + k < Batch(m, s, n).clock <==> RunsOn(m, s.cpu, s.dev, s.clock, k)
    decreases n
  {
    if k > 0 && !EndsBatch(m, s) {
      BatchLength(m, Unticked(m, s), n - 1, k - 1);
    }
  }

  function Budget(config: Config, interval: nat, remaining: nat): (r: nat)
    ensures r <= config.maxBatch && r <= interval && r <= remaining
    ensures r == config.maxBatch || r == interval || r == remaining
  {
    Min(Min(config.maxBatch, interval), remaining)
  }

  /** The device tick and the first instruction of a clock. */
  datatype First<C, D, E> = First(run: Run<C, D, E>, interval: nat, touched: bool)

  function Ticked<C, D, E>(m: Target<C, D, E>, config: Config, s: Run<C, D, E>): First<C, D, E> {
    var k := m.TickAt(s.cpu, s.dev, s.clock);
    var x := m.Exec(k.cpu, k.dev, s.clock);
    First(Run(s.clock, x.cpu, x.dev, s.log + Events(s.clock, k.events) + Executed(m, s.clock, k.cpu), x.status.Fatal?),
          Cap(config.lead(s.clock), m.Interval(k.dev, s.clock)), x.touched)
  }

  function Batched<C, D, E>(m: Target<C, D, E>, config: Config, first: First<C, D, E>, endClock: nat): (r: Run<C, D, E>)
    requires first.run.clock < endClock
    ensures first.run.clock <= r.clock < endClock
    ensures 1 <= first.interval ==> r.clock < first.run.clock + first.interval
  {
    var budget := Budget(config, first.interval, endClock - first.run.clock);
    if budget <= 1 || (first.touched && config.stopsAfterFirstTouch) then first.run
    else Batch(m, first.run, budget - 1)
  }

  // ---- One step of the scheduler against the reference ----

  /** Before the tick at clock `t`, the scheduler's device state `lazy` may lag behind the
      reference's `eager` by the quiet ticks that were left out. */
  ghost predicate Lags<C, D, E>(m: Target<C, D, E>, lazy: D, eager: D, t: nat) {
    eager == lazy || (0 < t && t - 1 < m.Due(lazy) && eager == m.Sync(lazy, t - 1))
  }

  /** `s` has done exactly what the reference has done in reaching `r`, whose next clock is `t`. */
  ghost predicate Shadows<C, D, E>(m: Target<C, D, E>, s: Run<C, D, E>, r: Run<C, D, E>, t: nat) {
    match r
    case Run(clock, cpu, dev, log, exited) =>
      && s.cpu == cpu && s.log == log && s.exited == exited
      && (if exited then s.clock == clock else clock == t && Lags(m, s.dev, dev, t))
  }

  /** No event is due within the interval the scheduler works with. */
  ghost predicate Covered<C, D, E>(m: Target<C, D, E>, dev: D, clock: nat, interval: nat) {
    if interval == NO_INTERVAL then TWO_TO_64 <= m.Due(dev)
    else clock + interval <= m.Due(dev) && clock + interval < TWO_TO_64
  }

  lemma LagEndsAtTick<C(!new), D(!new), E>(m: Target<C, D, E>, c: C, lazy: D, eager: D, t: nat)
    requires Meets(m) && Lags(m, lazy, eager, t)
    ensures m.TickAt(c, eager, t) == m.TickAt(c, lazy, t)
  {
  }

  lemma UntouchedIsUnchanged<C(!new), D(!new), E>(m: Target<C, D, E>, c: C, d: D, t: nat)
    requires Meets(m) && t < m.Due(d) && !m.Exec(c, d, t).touched
    ensures m.Exec(c, d, t).dev == d
  {
    assert m.Exec(c, m.Sync(d, t), t).dev == m.Sync(d, t);
  }

  /** The tick and the first instruction are the reference's, and the interval in force is at
      least 1 and reaches no event. */
  lemma TickedShadows<C(!new), D(!new), E>(m: Target<C, D, E>, config: Config, s: Run<C, D, E>, r: Run<C, D, E>)
    requires Meets(m) && !s.exited && Shadows(m, s, r, s.clock) && s.clock < TWO_TO_64 && 1 <= config.lead(s.clock)
    ensures
      var first := Ticked(m, config, s);
      && Shadows(m, first.run, OneClock(m, r), s.clock + 1)
      && 1 <= first.interval <= NO_INTERVAL
      && (first.interval != NO_INTERVAL ==> first.interval <= config.lead(s.clock))
      && (!first.touched ==> Covered(m, first.run.dev, s.clock, first.interval))
  {
    LagEndsAtTick(m, r.cpu, s.dev, r.dev, s.clock);
    var k := m.TickAt(s.cpu, s.dev, s.clock);
    assert 1 <= m.Interval(k.dev, s.clock);
    if !m.Exec(k.cpu, k.dev, s.clock).touched {
      UntouchedIsUnchanged(m, k.cpu, k.dev, s.clock);
    }
  }

  /** The interval still reaches no event after a halting instruction that brought none forward. */
  lemma HaltedIsCovered<C(!new), D(!new), E>(m: Target<C, D, E>, config: Config, s: Run<C, D, E>)
    requires Meets(m) && HaltMovesNoEventUp(m) && s.clock < TWO_TO_64 && 1 <= config.lead(s.clock)
    requires m.Halted(Ticked(m, config, s).run.cpu)
    ensures Covered(m, Ticked(m, config, s).run.dev, s.clock, Ticked(m, config, s).interval)
  {
    var k := m.TickAt(s.cpu, s.dev, s.clock);
    assert 1 <= m.Interval(k.dev, s.clock);
    if !m.Exec(k.cpu, k.dev, s.clock).touched {
      UntouchedIsUnchanged(m, k.cpu, k.dev, s.clock);
    }
  }

  /** Before the due clock an instruction without a tick does what the reference does with one. */
  lemma UntickedShadows<C(!new), D(!new), E>(m: Target<C, D, E>, s: Run<C, D, E>, r: Run<C, D, E>)
    requires Meets(m) && !s.exited && Shadows(m, s, r, s.clock + 1) && s.clock + 1 < m.Due(s.dev)
    ensures
      && Shadows(m, Unticked(m, s), OneClock(m, r), s.clock + 2)
      && (!EndsBatch(m, s) ==> !Unticked(m, s).exited && Unticked(m, s).dev == s.dev)
  {
    var t := s.clock + 1;
    LagEndsAtTick(m, r.cpu, s.dev, r.dev, t);
    assert m.TickAt(r.cpu, s.dev, t) == Tick(r.cpu, m.Sync(s.dev, t), []);
    var none: seq<Item<C, E>> := Events(t, []);
    assert r.log + none == r.log;
    assert m.Exec(s.cpu, s.dev, t).touched == m.Exec(s.cpu, m.Sync(s.dev, t), t).touched;
  }

  /** The scheduler, started in `start`, has done what the reference does before clock `t`. */
  ghost predicate InStep<C, D, E>(m: Target<C, D, E>, start: Run<C, D, E>, s: Run<C, D, E>, t: nat) {
    start.clock <= t && Shadows(m, s, Clocks(m, start, t - start.clock), t)
  }

  lemma TickedInStep<C(!new), D(!new), E>(m: Target<C, D, E>, config: Config, start: Run<C, D, E>, s: Run<C, D, E>)
    requires Meets(m) && !s.exited && InStep(m, start, s, s.clock) && s.clock < TWO_TO_64 && 1 <= config.lead(s.clock)
    ensures
      var first := Ticked(m, config, s);
      && InStep(m, start, first.run, s.clock + 1)
      && 1 <= first.interval <= NO_INTERVAL
      && (first.interval != NO_INTERVAL ==> first.interval <= config.lead(s.clock))
      && (!first.touched ==> Covered(m, first.run.dev, s.clock, first.interval))
  {
    TickedShadows(m, config, s, Clocks(m, start, s.clock - start.clock));
  }

  lemma UntickedInStep<C(!new), D(!new), E>(m: Target<C, D, E>, start: Run<C, D, E>, s: Run<C, D, E>)
    requires Meets(m) && !s.exited && InStep(m, start, s, s.clock + 1) && s.clock + 1 < m.Due(s.dev)
    ensures InStep(m, start, Unticked(m, s), s.clock + 2)
    ensures !EndsBatch(m, s) ==> !Unticked(m, s).exited && Unticked(m, s).dev == s.dev
  {
    UntickedShadows(m, s, Clocks(m, start, s.clock + 1 - start.clock));
  }

  /** A batch that ends before the due clock is the reference, clock for clock. */
  lemma {:induction false} BatchInStep<C(!new), D(!new), E>(m: Target<C, D, E>, start: Run<C, D, E>, s: Run<C, D, E>,
                                                            n: nat)
    requires Meets(m) && !s.exited && InStep(m, start, s, s.clock + 1) && s.clock + n < m.Due(s.dev)
    ensures InStep(m, start, Batch(m, s, n), Batch(m, s, n).clock + 1)
    decreases n
  {
    if n > 0 {
      UntickedInStep(m, start, s);
      if !EndsBatch(m, s) {
        BatchInStep(m, start, Unticked(m, s), n - 1);
      }
    }
  }

  /** A halted CPU stays where it is until the due clock: the reference only stutters. */
  lemma {:induction false} HaltedInStep<C(!new), D(!new), E>(m: Target<C, D, E>, start: Run<C, D, E>, s: Run<C, D, E>,
                                                            n: nat)
    requires Meets(m) && !s.exited && m.Halted(s.cpu) && InStep(m, start, s, s.clock + 1)
    requires n == 0 || s.clock + n < m.Due(s.dev)
    ensures InStep(m, start, s.(clock := s.clock + n), s.clock + n + 1)
  {
    if n > 0 {
      HaltedInStep(m, start, s, n - 1);
      var ahead := s.(clock := s.clock + n - 1);
      UntickedInStep(m, start, ahead);
      assert m.Exec(s.cpu, s.dev, s.clock + n) == Execution(s.cpu, s.dev, false, Ok);
      assert ahead.log + [] == ahead.log;
      assert Unticked(m, ahead) == s.(clock := s.clock + n);
    }
  }

  /** A batch cut to the interval, whatever the maximum batch size, ends before the due clock. */
  lemma BudgetIsCovered<C, D, E>(m: Target<C, D, E>, config: Config, dev: D, clock: nat, interval: nat, endClock: nat)
    requires clock < endClock < TWO_TO_64 && Covered(m, dev, clock, interval)
    requires 1 <= Budget(config, interval, endClock - clock)
    ensures clock + Budget(config, interval, endClock - clock) - 1 < m.Due(dev)
  {
  }

  /** The batch after the first instruction. */
  lemma BatchedInStep<C(!new), D(!new), E>(m: Target<C, D, E>, config: Config, start: Run<C, D, E>,
                                           first: First<C, D, E>, endClock: nat)
    requires Meets(m) && config.stopsAfterFirstTouch && first.run.clock < endClock < TWO_TO_64
    requires !first.run.exited && InStep(m, start, first.run, first.run.clock + 1)
    requires !first.touched ==> Covered(m, first.run.dev, first.run.clock, first.interval)
    ensures
      var after := Batched(m, config, first, endClock);
      InStep(m, start, after, after.clock + 1)
  {
    var budget := Budget(config, first.interval, endClock - first.run.clock);
    if budget > 1 && !first.touched {
      BudgetIsCovered(m, config, first.run.dev, first.run.clock, first.interval, endClock);
      BatchInStep(m, start, first.run, budget - 1);
    }
  }

  // ---- The main loop ----

  /** cpuemu_thread_run_nodbg: tick, first instruction, and a batch where batching applies. */
  predicate Batches<C, D, E>(m: Target<C, D, E>, config: Config, first: First<C, D, E>) {
    !first.run.exited && !m.Halted(first.run.cpu) && config.coreNum == 1 && config.maxBatch > 1
  }

  function Pass<C, D, E>(m: Target<C, D, E>, config: Config, s: Run<C, D, E>, endClock: nat): (r: Run<C, D, E>)
    requires s.clock < endClock
    ensures s.clock <= r.clock < endClock
  {
    var first := Ticked(m, config, s);
    if Batches(m, config, first) then Batched(m, config, first, endClock) else first.run
  }

  /** The clocks the main loop adds after a pass: a skip when every core is halted, else one. */
  function Stride<C, D, E>(m: Target<C, D, E>, config: Config, s: Run<C, D, E>, endClock: nat): nat
    requires s.clock < endClock
  {
    var first := Ticked(m, config, s);
    var after := Pass(m, config, s, endClock);
    if config.enableSkip && m.Halted(first.run.cpu) && m.CanSkip(after.dev, after.clock)
      && first.interval != NO_INTERVAL
    then first.interval else 1
  }

  /** One round of the while loop of cpuemu_thread_run, with the clock kept in 64 bits. */
  function Round<C, D, E>(m: Target<C, D, E>, config: Config, s: Run<C, D, E>, endClock: nat): Run<C, D, E>
    requires s.clock < endClock
  {
    var after := Pass(m, config, s, endClock);
    if after.exited then after
    else after.(clock := Add64(after.clock, Stride(m, config, s, endClock)))
  }

  /** How long a pass is, for every target: it goes beyond `k` clocks exactly when the batch settings, the capped
      interval and the end clock leave room, there is one core, and the first instruction and the `k` after it
      neither fail, halt the CPU nor touch a device. */
  lemma PassLengthIff<C, D, E>(m: Target<C, D, E>, config: Config, s: Run<C, D, E>, endClock: nat, k: nat)
    requires s.clock < endClock && config.stopsAfterFirstTouch
    ensures
      var tick := m.TickAt(s.cpu, s.dev, s.clock);
      var x := m.Exec(tick.cpu, tick.dev, s.clock);
      var interval := Cap(config.lead(s.clock), m.Interval(tick.dev, s.clock));
      s.clock + k < Pass(m, config, s, endClock).clock <==>
      && k + 1 < config.maxBatch && k + 1 < interval && s.clock + k + 1 < endClock && config.coreNum == 1
      && !x.status.Fatal? && !m.Halted(x.cpu) && !x.touched && RunsOn(m, x.cpu, x.dev, s.clock, k)
  {
    var first := Ticked(m, config, s);
    var budget := Budget(config, first.interval, endClock - s.clock);
    if Batches(m, config, first) && !first.touched && k + 1 < budget {
      BatchLength(m, first.run, budget - 1, k);
    }
  }

  /** What a round adds to the clock of its pass, for every target: the capped interval, in 64 bits, exactly when skip
      is on, the first instruction left the CPU halted, the devices allow a skip and an event is scheduled; else one.
      Nothing but the clock changes. */
  lemma RoundSkipsIff<C, D, E>(m: Target<C, D, E>, config: Config, s: Run<C, D, E>, endClock: nat)
    requires s.clock < endClock < TWO_TO_64 && !Pass(m, config, s, endClock).exited
    requires m.Interval(m.TickAt(s.cpu, s.dev, s.clock).dev, s.clock) <= NO_INTERVAL
    ensures
      var tick := m.TickAt(s.cpu, s.dev, s.clock);
      var reported := m.Interval(tick.dev, s.clock);
      var halted := m.Halted(m.Exec(tick.cpu, tick.dev, s.clock).cpu);
      var after, next := Pass(m, config, s, endClock), Round(m, config, s, endClock);
      && next == after.(clock := next.clock)
      && if config.enableSkip && halted && m.CanSkip(after.dev, after.clock) && reported != NO_INTERVAL
         then after.clock == s.clock && next.clock == (s.clock + Min(config.lead(s.clock), reported)) % TWO_TO_64
         else next.clock == after.clock + 1
  {
  }

  /** What the loop needs to end: reports that the clock can be added to, and a lead of at least one clock. */
  ghost predicate Advances<C(!new), D(!new), E>(m: Target<C, D, E>, config: Config) {
    ReportsAreSound(m) && forall t: nat :: 1 <= config.lead(t)
  }

  ghost predicate Configured<C(!new), D(!new), E>(m: Target<C, D, E>, config: Config) {
    && Meets(m) && config.stopsAfterFirstTouch && Advances(m, config)
    && (config.enableSkip ==> HaltMovesNoEventUp(m))
  }

  /** Whatever the devices do, a round that does not exit advances the clock, by no more than the interval it took,
      and the 64-bit addition does not wrap. */
  lemma RoundAdvances<C(!new), D(!new), E>(m: Target<C, D, E>, config: Config, s: Run<C, D, E>, endClock: nat)
    requires ReportsAreSound(m) && 1 <= config.lead(s.clock) && !s.exited && s.clock < endClock < TWO_TO_64
    ensures
      var next := Round(m, config, s, endClock);
      && (next.exited ==> s.clock <= next.clock < endClock && next.clock < s.clock + Ticked(m, config, s).interval)
      && (!next.exited ==>
            s.clock < next.clock <= s.clock + Ticked(m, config, s).interval && next.clock < TWO_TO_64)
  {
    var k := m.TickAt(s.cpu, s.dev, s.clock);
    assert 1 <= m.Interval(k.dev, s.clock) <= NO_INTERVAL;
  }

  /** A pass does what the reference does in the same clocks. */
  lemma PassInStep<C(!new), D(!new), E>(m: Target<C, D, E>, config: Config, start: Run<C, D, E>, s: Run<C, D, E>,
                                        endClock: nat)
    requires Configured(m, config) && !s.exited && InStep(m, start, s, s.clock) && s.clock < endClock < TWO_TO_64
    ensures
      var after := Pass(m, config, s, endClock);
      InStep(m, start, after, after.clock + 1)
  {
    TickedInStep(m, config, start, s);
    var first := Ticked(m, config, s);
    if Batches(m, config, first) {
      BatchedInStep(m, config, start, first, endClock);
    }
  }

  /** Where a round leaves the scheduler: in step with the reference at the same clock, or at
      `endClock` if a skip overshoots it; the clock has advanced, but by no more than `interval`. */
  ghost predicate RoundEnd<C, D, E>(m: Target<C, D, E>, start: Run<C, D, E>, from: nat, next: Run<C, D, E>,
                                    interval: nat, endClock: nat) {
    if next.exited then
      from <= next.clock < endClock && InStep(m, start, next, next.clock + 1)
    else
      from < next.clock <= from + interval && next.clock < TWO_TO_64
        && InStep(m, start, next, Min(next.clock, endClock))
  }

  lemma RoundEndAt<C, D, E>(m: Target<C, D, E>, start: Run<C, D, E>, from: nat, ahead: Run<C, D, E>, next: Run<C, D, E>,
                            interval: nat, endClock: nat)
    requires !ahead.exited && from <= ahead.clock && InStep(m, start, ahead, ahead.clock + 1)
    requires next == ahead.(clock := next.clock)
    requires ahead.clock + 1 == Min(next.clock, endClock) && next.clock < TWO_TO_64 && next.clock <= from + interval
    ensures RoundEnd(m, start, from, next, interval, endClock)
  {
  }

  /** A round that adds more than one clock is a skip from a halted first instruction, and reaches no event. */
  lemma SkipReachesNoEvent<C(!new), D(!new), E>(m: Target<C, D, E>, config: Config, s: Run<C, D, E>, endClock: nat)
    requires Configured(m, config) && !s.exited && s.clock < endClock < TWO_TO_64
    requires !Pass(m, config, s, endClock).exited && Stride(m, config, s, endClock) != 1
    ensures
      var after := Pass(m, config, s, endClock);
      && m.Halted(after.cpu) && after.clock == s.clock && s.clock + Stride(m, config, s, endClock) <= m.Due(after.dev)
  {
    HaltedIsCovered(m, config, s);
  }

  /** The skip of a halted CPU, up to the end clock. */
  lemma SkipInStep<C(!new), D(!new), E>(m: Target<C, D, E>, start: Run<C, D, E>, after: Run<C, D, E>,
                                        next: Run<C, D, E>, interval: nat, endClock: nat)
    requires Meets(m) && !after.exited && m.Halted(after.cpu) && InStep(m, start, after, after.clock + 1)
    requires next == after.(clock := next.clock) && after.clock + 1 < next.clock <= m.Due(after.dev)
    requires after.clock < endClock && next.clock < TWO_TO_64 && next.clock <= after.clock + interval
    ensures RoundEnd(m, start, after.clock, next, interval, endClock)
  {
    var n := Min(next.clock, endClock) - 1 - after.clock;
    HaltedInStep(m, start, after, n);
    RoundEndAt(m, start, after.clock, after.(clock := after.clock + n), next, interval, endClock);
  }

  lemma RoundInStep<C(!new), D(!new), E>(m: Target<C, D, E>, config: Config, start: Run<C, D, E>,
                                         s: Run<C, D, E>, endClock: nat)
    requires Configured(m, config) && !s.exited && InStep(m, start, s, s.clock) && s.clock < endClock < TWO_TO_64
    ensures RoundEnd(m, start, s.clock, Round(m, config, s, endClock), Ticked(m, config, s).interval, endClock)
  {
    PassInStep(m, config, start, s, endClock);
    RoundAdvances(m, config, s, endClock);
    var after := Pass(m, config, s, endClock);
    if !after.exited {
      var next := Round(m, config, s, endClock);
      if Stride(m, config, s, endClock) == 1 {
        RoundEndAt(m, start, s.clock, after, next, Ticked(m, config, s).interval, endClock);
      } else {
        SkipReachesNoEvent(m, config, s, endClock);
        SkipInStep(m, start, after, next, Ticked(m, config, s).interval, endClock);
      }
    }
  }

  lemma ExitInStep<C, D, E>(m: Target<C, D, E>, start: Run<C, D, E>, s: Run<C, D, E>, t: nat, later: nat)
    requires s.exited && t <= later && InStep(m, start, s, t)
    ensures InStep(m, start, s, later)
  {
    ExitIsFinal(m, start, t - start.clock, later - start.clock);
  }

  /** cpuemu_thread_run up to the end clock (the process then exits). */
  ghost function Loop<C(!new), D(!new), E>(m: Target<C, D, E>, config: Config, s: Run<C, D, E>,
                                           endClock: nat): (r: Run<C, D, E>)
    requires Advances(m, config) && s.clock < TWO_TO_64 && endClock < TWO_TO_64
    ensures r.exited || endClock <= r.clock
    decreases if s.exited then 0 else 1, endClock - s.clock
  {
    if s.exited || endClock <= s.clock then s
    else
      RoundAdvances(m, config, s, endClock);
      Loop(m, config, Round(m, config, s, endClock), endClock)
  }

  lemma {:induction false} LoopInStep<C(!new), D(!new), E>(m: Target<C, D, E>, config: Config, start: Run<C, D, E>,
                                                           s: Run<C, D, E>, endClock: nat)
    requires Configured(m, config) && s.clock < TWO_TO_64 && start.clock <= endClock < TWO_TO_64
    requires !s.exited && InStep(m, start, s, Min(s.clock, endClock))
    ensures InStep(m, start, Loop(m, config, s, endClock), endClock)
    decreases endClock - s.clock
  {
    if s.clock < endClock {
      RoundInStep(m, config, start, s, endClock);
      var next := Round(m, config, s, endClock);
      if next.exited {
        ExitInStep(m, start, next, next.clock + 1, endClock);
      } else {
        LoopInStep(m, config, start, next, endClock);
      }
    }
  }

  /** The claim above cpuemu_run_batch: the same clocks and events as one tick per clock, for every
      target that meets the contract, every maximum batch size, with and without clock skip. */
  lemma SameClocksAndEvents<C(!new), D(!new), E>(m: Target<C, D, E>, config: Config, start: Run<C, D, E>, endClock: nat)
    requires Configured(m, config) && !start.exited && start.clock <= endClock < TWO_TO_64
    ensures
      var last := Loop(m, config, start, endClock);
      var reference := Clocks(m, start, endClock - start.clock);
      && last.log == reference.log && last.cpu == reference.cpu && last.exited == reference.exited
      && (last.exited ==> last.clock == reference.clock)
      && (!last.exited ==> Lags(m, last.dev, reference.dev, endClock))
  {
    LoopInStep(m, config, start, start, endClock);
  }

  /** DEBUG_FUNC_MAX_BATCH_CLOCKS, the skip switch and the world-time lead cannot be told apart
      from the log or from the CPU. */
  lemma SettingsAreInvisible<C(!new), D(!new), E>(m: Target<C, D, E>, one: Config, other: Config,
                                                  start: Run<C, D, E>, endClock: nat)
    requires Configured(m, one) && Configured(m, other) && !start.exited && start.clock <= endClock < TWO_TO_64
    ensures
      var a := Loop(m, one, start, endClock);
      var b := Loop(m, other, start, endClock);
      a.log == b.log && a.cpu == b.cpu && a.exited == b.exited
  {
    SameClocksAndEvents(m, one, start, endClock);
    SameClocksAndEvents(m, other, start, endClock);
  }

  class CpuEmu<C(!new), D(!new), E(!new)> {
    const target: Target<C, D, E>
    const config: Config
    var clock: nat
    var minInterval: nat
    var isHalt: bool
    var cpu: C
    var dev: D
    var exited: bool
    var log: seq<Item<C, E>>

    constructor (target: Target<C, D, E>, config: Config, cpu: C, dev: D)
      ensures this.target == target && this.config == config
      ensures Now() == Run(0, cpu, dev, [], false)
    {
      this.target, this.config := target, config;
      clock, minInterval, isHalt, exited := 0, 0, false, false;
      this.cpu, this.dev, log := cpu, dev, [];
    }

    function Now(): Run<C, D, E>
      reads this
    {
      Run(clock, cpu, dev, log, exited)
    }

    /** One pass of the loop in cpu_supply_clocks: advance the clock, then run one instruction. */
    method FurtherInstruction() returns (stop: bool)
      modifies `clock, `cpu, `dev, `exited, `log
      ensures Now() == Unticked(target, old(Now())) && stop == EndsBatch(target, old(Now()))
    {
      clock := clock + 1;
      var x := target.Exec(cpu, dev, clock);
      log := log + Executed(target, clock, cpu);
      cpu, dev, exited := x.cpu, x.dev, x.status.Fatal?;
      stop := x.status != Ok || target.Halted(cpu) || x.touched;
    }

    /** cpu_supply_clocks as its header comment specifies it. */
    method SupplyClocks(maxClocks: nat, touchedBefore: bool) returns (executed: nat)
      modifies `clock, `cpu, `dev, `exited, `log
      ensures Now() == if touchedBefore && config.stopsAfterFirstTouch then old(Now())
                       else Batch(target, old(Now()), maxClocks)
      ensures executed == clock - old(clock)
    {
      executed := 0;
      if touchedBefore && config.stopsAfterFirstTouch {
        return;
      }
      var stop := false;
      while executed < maxClocks && !stop
        invariant executed <= maxClocks && clock == old(clock) + executed
        invariant Batch(target, old(Now()), maxClocks) ==
                  if stop then Now() else Batch(target, Now(), maxClocks - executed)
      {
        stop := FurtherInstruction();
        executed := executed + 1;
      }
    }

    /** cpuemu_run_batch */
    method RunBatch(endClock: nat, touchedBefore: bool) returns (halt: bool)
      requires clock < endClock
      modifies `clock, `cpu, `dev, `exited, `log
      ensures Now() == Batched(target, config, First(old(Now()), minInterval, touchedBefore), endClock) && !halt
    {
      var budget := config.maxBatch;
      if minInterval < budget {
        budget := minInterval;
      }
      if endClock - clock < budget {
        budget := endClock - clock;
      }
      if budget > 1 {
        var n := SupplyClocks(budget - 1, touchedBefore);
      }
      return false;
    }

    /** cpuemu_thread_run_nodbg */
    method ThreadRunNodbg(endClock: nat) returns (halt: bool)
      requires clock < endClock
      modifies this
      ensures Now() == Pass(target, config, old(Now()), endClock)
      ensures minInterval == Ticked(target, config, old(Now())).interval
      ensures !exited ==> halt == isHalt == target.Halted(Ticked(target, config, old(Now())).run.cpu)
    {
      var k := target.TickAt(cpu, dev, clock);
      cpu, dev, log := k.cpu, k.dev, log + Events(clock, k.events);
      minInterval := Cap(config.lead(clock), target.Interval(dev, clock));
      var x := target.Exec(cpu, dev, clock);
      log := log + Executed(target, clock, cpu);
      cpu, dev, exited := x.cpu, x.dev, x.status.Fatal?;
      if exited {
        return true;
      }
      halt := target.Halted(cpu);
      if !halt && config.coreNum == 1 && config.maxBatch > 1 {
        halt := RunBatch(endClock, x.touched);
      }
      isHalt := halt;
    }

    /** cpuemu_thread_run */
    method ThreadRun(endClock: nat)
      requires Advances(target, config) && !exited && clock < TWO_TO_64 && endClock < TWO_TO_64
      modifies this
      ensures Now() == Loop(target, config, old(Now()), endClock)
    {
      while !exited && clock < endClock
        invariant clock < TWO_TO_64
        invariant Loop(target, config, Now(), endClock) == Loop(target, config, old(Now()), endClock)
        decreases if exited then 0 else 1, endClock - clock
      {
        RoundAdvances(target, config, Now(), endClock);
        var halt := ThreadRunNodbg(endClock);
        if !exited {
          if config.enableSkip && halt && target.CanSkip(dev, clock) && minInterval != NO_INTERVAL {
            clock := Add64(clock, minInterval);
          } else {
            clock := Add64(clock, 1);
          }
        }
      }
    }
  }
}
