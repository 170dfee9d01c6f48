/**
  Clock skip after an instruction that halts and touches a device: the main loop jumps by the interval
  reported before that instruction.
 */
module ClockSkip {
  import opened Numbers
  import opened WorldTime
  import opened Scheduler
  import opened FirstTouch

  /** The timer would have fired at clock 100; the halting instruction moves it to clock 1.  The skip still
      goes to clock 100, past the interrupt that wakes the CPU in the reference. */
  lemma HaltingTouchLosesEvent(m: Target<Cpu, Timer, ()>, start: Run<Cpu, Timer, ()>, config: Config)
    requires m == Machine(true) && start == Run(0, RESET, Timer(100, 0), [], false)
    requires config.maxBatch == 1 && config.enableSkip && config.stopsAfterFirstTouch && 100 <= config.lead(0)
    ensures
      var skipped := Round(m, config, start, 5000);
      && skipped.clock == 100 && skipped.log == [Instruction(0, RESET)]
      && OneClock(m, OneClock(m, start)).log ==
         [Instruction(0, RESET), DeviceEvents(1, [()]), Instruction(1, Cpu(1, false, true))]
  {
    FirstClock(m, true, start, 100);
    SecondClock(m, true, OneClock(m, start));
    var first := Ticked(m, config, start);
    assert first.run == Run(0, Cpu(1, true, false), Timer(1, 0), [Instruction(0, RESET)], false);
    assert first.interval == 100;
  }

  /** It is the one clause that machine breaks. */
  lemma HaltingMachineMovesEventUp()
    ensures Meets(Machine(true)) && !HaltMovesNoEventUp(Machine(true))
  {
    MachineMeetsContract(true);
    var x := Machine(true).Exec(RESET, Timer(100, 0), 0);
    assert x.touched && x.cpu.halted && x.dev.deadline == 1;
  }

  /** The due clock is not only a lower bound: a tick at or after it raises an event. */
  ghost predicate DueIsExact<C(!new), D(!new), E>(m: Target<C, D, E>) {
    forall c, d, t: nat {:trigger m.TickAt(c, d, t)} :: m.Due(d) <= t ==> m.TickAt(c, d, t).events != []
  }

  lemma {:induction false} LogGrows<C, D, E>(m: Target<C, D, E>, s: Run<C, D, E>, a: nat, b: nat)
    requires a <= b
    ensures |Clocks(m, s, a).log| <= |Clocks(m, s, b).log|
    decreases b
  {
    if a < b {
      LogGrows(m, s, a, b - 1);
    }
  }

  /** The clock field of a running state plays no part in being in step. */
  lemma Restamped<C, D, E>(m: Target<C, D, E>, start: Run<C, D, E>, s: Run<C, D, E>, clock: nat, t: nat)
    requires !s.exited && InStep(m, start, s, t)
    ensures InStep(m, start, s.(clock := clock), t)
  {
  }

  /** When the event is due, the reference logs more than the halted scheduler has. */
  lemma EventAt<C(!new), D(!new), E>(m: Target<C, D, E>, start: Run<C, D, E>, s: Run<C, D, E>, e: nat)
    requires Meets(m) && DueIsExact(m) && !s.exited && InStep(m, start, s, e) && m.Due(s.dev) <= e
    ensures |s.log| < |Clocks(m, start, e + 1 - start.clock).log|
  {
    var r := Clocks(m, start, e - start.clock);
    LagEndsAtTick(m, r.cpu, s.dev, r.dev, e);
    assert Clocks(m, start, e + 1 - start.clock) == OneClock(m, r);
  }

  lemma ShorterLogIsOut<C, D, E>(m: Target<C, D, E>, start: Run<C, D, E>, s: Run<C, D, E>, e: nat, t: nat)
    requires start.clock <= e <= t && |s.log| < |Clocks(m, start, e - start.clock).log|
    ensures !InStep(m, start, s.(clock := t), t)
  {
    LogGrows(m, start, e - start.clock, t - start.clock);
  }

  lemma PastDueIsOut<C(!new), D(!new), E>(m: Target<C, D, E>, start: Run<C, D, E>, s: Run<C, D, E>, e: nat, t: nat)
    requires Meets(m) && DueIsExact(m) && !s.exited && InStep(m, start, s, e) && m.Due(s.dev) <= e < t
    ensures !InStep(m, start, s.(clock := t), t)
  {
    EventAt(m, start, s, e);
    ShorterLogIsOut(m, start, s, e + 1, t);
  }

  /** From an in-step state with the CPU halted, the clock may go on to `t` without ticks exactly when no event
      is due before: one further clock always, later ones up to the due clock. */
  lemma HaltedInStepIff<C(!new), D(!new), E>(m: Target<C, D, E>, start: Run<C, D, E>, s: Run<C, D, E>, t: nat)
    requires Meets(m) && DueIsExact(m) && !s.exited && m.Halted(s.cpu) && InStep(m, start, s, s.clock + 1)
    requires s.clock < t
    ensures InStep(m, start, s.(clock := t), t) <==> t <= s.clock + 1 || t <= m.Due(s.dev)
  {
    var due := m.Due(s.dev);
    var e := if t <= due then t else if due <= s.clock + 1 then s.clock + 1 else due;
    HaltedInStep(m, start, s, e - 1 - s.clock);
    var ahead := s.(clock := e - 1);
    if t <= e {
      Restamped(m, start, ahead, t, t);
    } else {
      PastDueIsOut(m, start, ahead, e, t);
    }
  }

  /** A round whose first instruction halts the CPU and which then skips is in step with the reference exactly
      when the device, as that instruction left it, has no event due before the clock the skip goes to. */
  lemma SkipInStepIff<C(!new), D(!new), E>(m: Target<C, D, E>, config: Config, start: Run<C, D, E>,
                                           s: Run<C, D, E>, endClock: nat)
    requires Meets(m) && DueIsExact(m) && config.enableSkip && 1 <= config.lead(s.clock)
    requires !s.exited && InStep(m, start, s, s.clock) && s.clock < endClock < TWO_TO_64
    requires !Ticked(m, config, s).run.exited && m.Halted(Ticked(m, config, s).run.cpu)
    requires m.CanSkip(Ticked(m, config, s).run.dev, s.clock) && Ticked(m, config, s).interval != NO_INTERVAL
    ensures
      var next := Round(m, config, s, endClock);
      var t := Min(next.clock, endClock);
      InStep(m, start, next, t) <==> t <= s.clock + 1 || t <= m.Due(Ticked(m, config, s).run.dev)
  {
    TickedInStep(m, config, start, s);
    var first := Ticked(m, config, s).run;
    var next := Round(m, config, s, endClock);
    var t := Min(next.clock, endClock);
    var k := m.TickAt(s.cpu, s.dev, s.clock);
    assert s.clock + m.Interval(k.dev, s.clock) < TWO_TO_64;
    assert next == first.(clock := next.clock) && first.clock == s.clock < next.clock;
    HaltedInStepIff(m, start, first, t);
    if InStep(m, start, next, t) {
      Restamped(m, start, next, t, t);
    } else if InStep(m, start, first.(clock := t), t) {
      Restamped(m, start, first.(clock := t), next.clock, t);
    }
  }
}
