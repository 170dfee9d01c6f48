/**
  The scheduler under the Hakoniwa cap: when a round stays at or below the world-time limit,
  and when it does not.
 */
module Lockstep {
  import opened Numbers
  import opened WorldTime
  import opened Scheduler
  import Hakoniwa

  /** The clocks a round really adds are within what the lockstep model allows it. */
  lemma RoundWithinMaxClocks<C(!new), D(!new), E>(m: Target<C, D, E>, config: Config, s: Run<C, D, E>, endClock: nat)
    requires ReportsAreSound(m) && 1 <= config.lead(s.clock) && !s.exited && s.clock < endClock < TWO_TO_64
    ensures
      var reported := m.Interval(m.TickAt(s.cpu, s.dev, s.clock).dev, s.clock);
      var batches := Batches(m, config, Ticked(m, config, s));
      var round := Hakoniwa.Round([], reported, batches, config.maxBatch, endClock, 0);
      var next := Round(m, config, s, endClock);
      !next.exited ==> s.clock < next.clock <= s.clock + Hakoniwa.MaxClocks(config.lead(s.clock), round, s.clock)
  {
    RoundAdvances(m, config, s, endClock);
  }

  /** Steps, skips and batches end at or below the world limit when a device event is scheduled; without one,
      single steps do, and so do batches that are no longer than the lead. */
  lemma RoundKeepsLimit<C(!new), D(!new), E>(m: Target<C, D, E>, config: Config, s: Run<C, D, E>, endClock: nat)
    requires ReportsAreSound(m) && 1 <= config.lead(s.clock) && !s.exited && s.clock < endClock < TWO_TO_64
    requires
      || m.Interval(m.TickAt(s.cpu, s.dev, s.clock).dev, s.clock) != NO_INTERVAL
      || !Batches(m, config, Ticked(m, config, s))
      || Min(config.maxBatch, endClock - s.clock) <= config.lead(s.clock)
    ensures Round(m, config, s, endClock).clock <= s.clock + config.lead(s.clock)
  {
    RoundAdvances(m, config, s, endClock);
  }

  /** The cap leaves "no event scheduled" alone.  Such a round passes the world limit exactly when it runs a batch
      (one core, not halted after its first instruction, batches enabled) whose first instruction touched no
      device, the batch size and the end clock lie beyond the lead, and the CPU then computes up to the limit. */
  lemma UnscheduledRoundPassesLimitIff<C, D, E>(m: Target<C, D, E>, config: Config, s: Run<C, D, E>, endClock: nat)
    requires config.stopsAfterFirstTouch && 1 <= config.lead(s.clock) && !s.exited && s.clock < endClock < TWO_TO_64
    requires m.Interval(m.TickAt(s.cpu, s.dev, s.clock).dev, s.clock) == NO_INTERVAL
    requires !Round(m, config, s, endClock).exited
    ensures
      var lead := config.lead(s.clock);
      var first := Ticked(m, config, s);
      s.clock + lead < Round(m, config, s, endClock).clock <==>
      && config.coreNum == 1 && lead < config.maxBatch && s.clock + lead < endClock
      && !m.Halted(first.run.cpu) && !first.touched && RunsOn(m, first.run.cpu, first.run.dev, s.clock, lead - 1)
  {
    PassLengthIff(m, config, s, endClock, config.lead(s.clock) - 1);
  }

  /** A CPU that computes without halting, on a target whose devices schedule no event. */
  function Free(): Target<(), (), ()> {
    Target((c, d, t) => Execution(c, d, false, Ok), c => false, (c, d, t) => Tick(c, d, []),
           (d, t) => NO_INTERVAL, (d, t) => true, (d, t) => d, d => TWO_TO_64)
  }

  lemma FreeMeetsContract()
    ensures Meets(Free())
  {
  }

  lemma {:induction false} FreeBatch(s: Run<(), (), ()>, n: nat)
    requires !s.exited
    ensures Batch(Free(), s, n).clock == s.clock + n && !Batch(Free(), s, n).exited
    decreases n
  {
    if n > 0 {
      FreeBatch(Unticked(Free(), s), n - 1);
    }
  }

  /** A world 10 clocks ahead and a batch of 1024: the clock ends 1014 clocks past the limit. */
  lemma BatchOverrunsWorldLimit()
    ensures
      var config := Config(1024, 1, false, true, t => 10);
      var start := Run(0, (), (), [], false);
      Configured(Free(), config) && Round(Free(), config, start, 5000).clock == 1024
  {
    FreeMeetsContract();
    var config := Config(1024, 1, false, true, t => 10);
    var first := Ticked(Free(), config, Run(0, (), (), [], false));
    FreeBatch(first.run, 1023);
  }
}
