/**
  A small target with a timer: it meets the contract, its device falls behind between ticks, and it
  shows why a batch must also stop when its first instruction, the one run by cpu_supply_clock,
  touched a device.
 */
module FirstTouch {
  import opened Numbers
  import opened WorldTime
  import opened Scheduler

  datatype Cpu = Cpu(pc: nat, halted: bool, interrupted: bool)

  /** A timer whose counter register is brought up to the clock only when it is ticked or accessed. */
  datatype Timer = Timer(deadline: nat, counter: nat)

  const NEVER: nat := TWO_TO_64

  function CaughtUp(d: Timer, t: nat): Timer {
    d.(counter := t)
  }

  /** Instruction 0 programs the timer to fire on the next clock, and halts if `halting`; the others
      compute. */
  function Step(halting: bool, c: Cpu, d: Timer, t: nat): Execution<Cpu, Timer> {
    if c.halted then Execution(c, d, false, Ok)
    else if c.pc == 0 then Execution(c.(pc := 1, halted := halting), CaughtUp(d, t).(deadline := t + 1), true, Ok)
    else Execution(c.(pc := c.pc + 1), d, false, Ok)
  }

  function Fire(c: Cpu, d: Timer, t: nat): Tick<Cpu, Timer, ()> {
    if t < d.deadline then Tick(c, CaughtUp(d, t), [])
    else Tick(c.(interrupted := true, halted := false), CaughtUp(d, t).(deadline := NEVER), [()])
  }

  function Remaining(d: Timer, t: nat): nat {
    if d.deadline >= TWO_TO_64 || d.deadline <= t then NO_INTERVAL else Min(d.deadline - t, NO_INTERVAL - 1)
  }

  function Machine(halting: bool): Target<Cpu, Timer, ()> {
    Target((c, d, t) => Step(halting, c, d, t), (c: Cpu) => c.halted, Fire, Remaining,
           (d, t) => true, CaughtUp, (d: Timer) => d.deadline)
  }

  lemma MachineMeetsContract(halting: bool)
    ensures Meets(Machine(halting))
  {
    var m := Machine(halting);
    forall c, d, t: nat | t < TWO_TO_64
      ensures
        var after := m.TickAt(c, d, t).dev;
        && 1 <= m.Interval(after, t) <= NO_INTERVAL && t < m.Due(after)
        && (m.Interval(after, t) == NO_INTERVAL ==> TWO_TO_64 <= m.Due(after))
        && (m.Interval(after, t) < NO_INTERVAL ==>
              t + m.Interval(after, t) <= m.Due(after) && t + m.Interval(after, t) < TWO_TO_64)
    {
    }
    forall c, d, t: nat | t < m.Due(d)
      ensures
        var lazy := m.Exec(c, d, t);
        var eager := m.Exec(c, m.Sync(d, t), t);
        && lazy.cpu == eager.cpu && lazy.touched == eager.touched && lazy.status == eager.status
        && (if lazy.touched then lazy.dev == eager.dev else lazy.dev == d && eager.dev == m.Sync(d, t))
    {
      assert m.Exec(c, d, t) == Step(halting, c, d, t);
      assert m.Exec(c, m.Sync(d, t), t) == Step(halting, c, CaughtUp(d, t), t);
    }
    assert QuietTicksCanBeOmitted(m) && QuietBeforeDue(m) && HaltIsIdle(m);
  }

  const RESET := Cpu(0, false, false)

  /** The reference's first clock: the timer is programmed to fire on the next. */
  lemma FirstClock(m: Target<Cpu, Timer, ()>, halting: bool, start: Run<Cpu, Timer, ()>, deadline: nat)
    requires m == Machine(halting) && 0 < deadline && start == Run(0, RESET, Timer(deadline, 0), [], false)
    ensures OneClock(m, start) == Run(1, Cpu(1, halting, false), Timer(1, 0), [Instruction(0, RESET)], false)
  {
  }

  /** The second: it fires, and wakes the CPU if it was halted. */
  lemma SecondClock(m: Target<Cpu, Timer, ()>, halting: bool, s: Run<Cpu, Timer, ()>)
    requires m == Machine(halting)
    requires s == Run(1, Cpu(1, halting, false), Timer(1, 0), [Instruction(0, RESET)], false)
    ensures OneClock(m, s).log == [Instruction(0, RESET), DeviceEvents(1, [()]), Instruction(1, Cpu(1, false, true))]
  {
  }

  /** With a target that ignores the first touch, a batch of two runs the second instruction without the timer
      interrupt that the reference delivers before it. */
  lemma IgnoringFirstTouchLosesEvent(m: Target<Cpu, Timer, ()>, start: Run<Cpu, Timer, ()>, config: Config)
    requires m == Machine(false) && start == Run(0, RESET, Timer(NEVER, 0), [], false)
    requires config.maxBatch == 2 && config.coreNum == 1 && !config.enableSkip && !config.stopsAfterFirstTouch
    ensures
      var batched := Round(m, config, start, 2);
      && batched.clock == 2 && !batched.exited
      && batched.log == [Instruction(0, RESET), Instruction(1, Cpu(1, false, false))]
      && OneClock(m, OneClock(m, start)).log ==
         [Instruction(0, RESET), DeviceEvents(1, [()]), Instruction(1, Cpu(1, false, true))]
  {
    FirstClock(m, false, start, NEVER);
    SecondClock(m, false, OneClock(m, start));
    var first := Ticked(m, config, start);
    assert first.run == Run(0, Cpu(1, false, false), Timer(1, 0), [Instruction(0, RESET)], false);
    assert first.interval == NO_INTERVAL;
    assert Batch(m, first.run, 1) == Unticked(m, first.run);
  }

  /** A CPU that only computes: one clock of the reference brings the timer up to date. */
  lemma ComputingClock(m: Target<Cpu, Timer, ()>, s: Run<Cpu, Timer, ()>)
    requires m == Machine(false) && !s.exited && 0 < s.cpu.pc && !s.cpu.halted && s.clock < s.dev.deadline
    ensures OneClock(m, s) ==
            Run(s.clock + 1, s.cpu.(pc := s.cpu.pc + 1), CaughtUp(s.dev, s.clock),
              s.log + [Instruction(s.clock, s.cpu)], false)
  {
    assert s.log + [] == s.log;
  }

  /** A batch leaves the timer behind: after three clocks its counter register still reads 0, where the
      reference has counted to 2; the next tick makes up for it. */
  lemma BatchLeavesDeviceBehind(m: Target<Cpu, Timer, ()>, start: Run<Cpu, Timer, ()>, config: Config)
    requires m == Machine(false) && start == Run(0, Cpu(5, false, false), Timer(NEVER, 0), [], false)
    requires config.maxBatch == 3 && config.coreNum == 1 && !config.enableSkip
    ensures
      var batched := Round(m, config, start, 3);
      var reference := OneClock(m, OneClock(m, OneClock(m, start)));
      && batched.clock == 3 && batched.log == reference.log
      && batched.dev == Timer(NEVER, 0) && reference.dev == Timer(NEVER, 2)
      && m.TickAt(batched.cpu, batched.dev, 3) == m.TickAt(reference.cpu, reference.dev, 3)
  {
    var one := OneClock(m, start);
    ComputingClock(m, start);
    ComputingClock(m, one);
    ComputingClock(m, OneClock(m, one));
    var first := Ticked(m, config, start).run;
    assert first == one.(clock := 0);
    var further := Unticked(m, first);
    assert further == Run(1, Cpu(7, false, false), Timer(NEVER, 0), OneClock(m, one).log, false);
    assert Batch(m, first, 2) == Batch(m, further, 1) == Unticked(m, further);
  }
}
