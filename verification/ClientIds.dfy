/** The lock-free generator of client message ids, as callers that interleave at every load and compare-and-swap. */
module ClientIds {
  import opened Decimal

  /** Where one call stands: about to load, loaded and about to swap, or returned. */
  datatype Call =
    | Ready(clock: nat, now: nat)
    | Loaded(clock: nat, now: nat, prev: nat)
    | Returned(clock: nat, id: nat)

  /** The shared counter and the calls so far. */
  datatype State = State(counter: nat, calls: map<nat, Call>)

  datatype Step = Start(caller: nat, clock: nat) | Load(caller: nat) | Swap(caller: nat)

  /** Unsigned 64-bit addition. */
  function Next(n: nat): nat {
    (n + 1) % TWO_64
  }

  predicate Enabled(s: State, step: Step) {
    match step
    case Start(c, clock) => c !in s.calls && clock < TWO_64
    case Load(c) => c in s.calls && s.calls[c].Ready?
    case Swap(c) => c in s.calls && s.calls[c].Loaded?
  }

  /** A failed swap goes back to loading and keeps the raised `now`. */
  function Take(s: State, step: Step): State
    requires Enabled(s, step)
  {
    match step
    case Start(c, clock) => s.(calls := s.calls[c := Ready(clock, clock)])
    case Load(c) =>
      var call := s.calls[c];
      var now := if call.now <= s.counter then Next(s.counter) else call.now;
      s.(calls := s.calls[c := Loaded(call.clock, now, s.counter)])
    case Swap(c) =>
      var call := s.calls[c];
      if s.counter == call.prev then State(call.now, s.calls[c := Returned(call.clock, call.now)])
      else s.(calls := s.calls[c := Ready(call.clock, call.now)])
  }

  predicate Run(s: State, steps: seq<Step>)
    decreases |steps|
  {
    steps == [] || (Enabled(s, steps[0]) && Run(Take(s, steps[0]), steps[1..]))
  }

  function After(s: State, steps: seq<Step>): State
    requires Run(s, steps)
    decreases |steps|
  {
    if steps == [] then s else After(Take(s, steps[0]), steps[1..])
  }

  /** No number in use is above `limit`. */
  predicate Bounded(s: State, limit: int) {
    && s.counter <= limit
    && forall c | c in s.calls :: s.calls[c].clock <= limit && (!s.calls[c].Returned? ==> s.calls[c].now <= limit)
  }

  const TOP: nat := 0xFFFF_FFFF_FFFF_FFFF

  predicate CallSound(s: State, call: Call) {
    match call
    case Ready(clock, now) => clock <= now
    case Loaded(clock, now, prev) => clock <= now && prev < now && prev <= s.counter
    case Returned(clock, id) => clock <= id <= s.counter
  }

  /** Every call has a number at least its clock reading and above what it loaded; returned ids are not above the
      counter, and no two are the same. */
  predicate Sound(s: State) {
    && (forall c | c in s.calls :: CallSound(s, s.calls[c]))
    && (forall a, b | a in s.calls && b in s.calls && a != b && s.calls[a].Returned? && s.calls[b].Returned? ::
          s.calls[a].id != s.calls[b].id)
  }

  /** The step loads the counter at its largest value. */
  predicate LoadsTop(s: State, step: Step) {
    step.Load? && s.counter == TOP
  }

  /** Every load and swap keeps the calls sound, except a load of the largest counter value, which never does. */
  lemma StepKeepsSoundIff(s: State, step: Step)
    requires Sound(s) && Bounded(s, TOP) && Enabled(s, step)
    ensures Bounded(Take(s, step), TOP)
    ensures Sound(Take(s, step)) <==> !LoadsTop(s, step)
    ensures s.counter <= Take(s, step).counter
  {
    if LoadsTop(s, step) {
      assert !CallSound(Take(s, step), Take(s, step).calls[step.caller]);
    } else {
      StepKeepsCalls(s, step);
      StepKeepsDistinct(s, step);
    }
    if step.Swap? {
      assert CallSound(s, s.calls[step.caller]);
    }
  }

  lemma StepKeepsCalls(s: State, step: Step)
    requires Sound(s) && Bounded(s, TOP) && Enabled(s, step) && !LoadsTop(s, step)
    ensures var t := Take(s, step);
            && (forall c | c in t.calls :: CallSound(t, t.calls[c]))
            && s.counter <= t.counter && Bounded(t, TOP)
  {
    var t := Take(s, step);
    assert s.counter < TOP ==> s.counter + 1 == Next(s.counter);
    assert step.Start? || CallSound(s, s.calls[step.caller]);
    forall c | c in t.calls && c != step.caller ensures CallSound(t, t.calls[c]) {
      assert CallSound(s, s.calls[c]);
    }
  }

  lemma StepKeepsDistinct(s: State, step: Step)
    requires Sound(s) && Enabled(s, step)
    ensures var calls := Take(s, step).calls;
            forall a, b | a in calls && b in calls && a != b && calls[a].Returned? && calls[b].Returned? ::
              calls[a].id != calls[b].id
  {
    if step.Swap? {
      assert CallSound(s, s.calls[step.caller]);
      forall c | c in s.calls && s.calls[c].Returned? ensures s.calls[c].id <= s.counter {
        assert CallSound(s, s.calls[c]);
      }
    }
  }

  /** A swap that succeeds raises the counter to the id it returns; one that fails does so because another call
      raised the counter since the load. */
  lemma SwapRaisesOrLost(s: State, c: nat)
    requires Sound(s) && Enabled(s, Swap(c))
    ensures var t := Take(s, Swap(c));
            if t.calls[c].Returned? then t.counter == t.calls[c].id > s.counter
            else t.counter == s.counter > s.calls[c].prev
  {
    assert CallSound(s, s.calls[c]);
  }

  /** A load leaves the call with a number above the counter unless the counter is the largest 64-bit number. */
  lemma LoadGoesAboveIff(s: State, c: nat)
    requires Enabled(s, Load(c)) && s.counter <= TOP
    ensures var t := Take(s, Load(c));
            t.calls[c].now > t.calls[c].prev <==> s.counter != TOP || s.calls[c].now > s.counter
  {
  }

  // ----- whole runs

  /** No load of the run meets the largest counter value. */
  predicate NeverLoadsTop(s: State, steps: seq<Step>)
    requires Run(s, steps)
    decreases |steps|
  {
    steps == [] || (!LoadsTop(s, steps[0]) && NeverLoadsTop(Take(s, steps[0]), steps[1..]))
  }

  /** Every state of the run is sound. */
  predicate SoundThroughout(s: State, steps: seq<Step>)
    requires Run(s, steps)
    decreases |steps|
  {
    Sound(s) && (steps == [] || SoundThroughout(Take(s, steps[0]), steps[1..]))
  }

  /** A run of any length stays sound exactly when no load meets the largest counter value. */
  lemma {:induction false} SoundThroughoutIff(s: State, steps: seq<Step>)
    requires Run(s, steps) && Sound(s) && Bounded(s, TOP)
    ensures SoundThroughout(s, steps) <==> NeverLoadsTop(s, steps)
    ensures NeverLoadsTop(s, steps) ==>
              Sound(After(s, steps)) && Bounded(After(s, steps), TOP) && s.counter <= After(s, steps).counter
    decreases |steps|
  {
    hide Sound, Bounded, Take, Enabled, LoadsTop;
    if steps != [] {
      StepKeepsSoundIff(s, steps[0]);
      var t := Take(s, steps[0]);
      if Sound(t) {
        SoundThroughoutIff(t, steps[1..]);
      }
    }
  }

  function ClockOf(step: Step): nat {
    if step.Start? then step.clock else 0
  }

  /** A run whose clock readings leave room for its steps never gets there. */
  lemma {:induction false} RoomBelowTop(s: State, steps: seq<Step>, limit: nat)
    requires Run(s, steps) && Bounded(s, limit)
    requires forall i | 0 <= i < |steps| :: ClockOf(steps[i]) <= limit
    requires limit + |steps| <= TOP
    ensures NeverLoadsTop(s, steps)
    decreases |steps|
  {
    if steps != [] {
      assert ClockOf(steps[0]) <= limit;
      assert Bounded(Take(s, steps[0]), limit + 1);
      forall i | 0 <= i < |steps[1..]| ensures ClockOf(steps[1..][i]) <= limit + 1 {
        assert steps[1..][i] == steps[i + 1];
      }
      RoomBelowTop(Take(s, steps[0]), steps[1..], limit + 1);
    }
  }

  /** From any counter value, over any interleaving of any length in which no load meets the largest one, all returned
      ids print differently and each is at least its caller's clock reading. */
  lemma IdsAreDistinct(counter: nat, steps: seq<Step>)
    requires counter < TWO_64 && Run(State(counter, map[]), steps) && NeverLoadsTop(State(counter, map[]), steps)
    ensures var calls := After(State(counter, map[]), steps).calls;
            && (forall c | c in calls && calls[c].Returned? :: calls[c].clock <= calls[c].id < TWO_64)
            && (forall a, b | a in calls && b in calls && a != b && calls[a].Returned? && calls[b].Returned? ::
                  FormatUint(calls[a].id) != FormatUint(calls[b].id))
  {
    var s := State(counter, map[]);
    assert Sound(s);
    SoundThroughoutIff(s, steps);
    var t := After(s, steps);
    forall c | c in t.calls && t.calls[c].Returned? ensures t.calls[c].clock <= t.calls[c].id < TWO_64 {
      assert CallSound(t, t.calls[c]);
    }
    forall a, b | a in t.calls && b in t.calls && a != b && t.calls[a].Returned? && t.calls[b].Returned?
      ensures FormatUint(t.calls[a].id) != FormatUint(t.calls[b].id)
    {
      if FormatUint(t.calls[a].id) == FormatUint(t.calls[b].id) {
        FormatInjective(t.calls[a].id, t.calls[b].id);
      }
    }
  }

  /** At the largest counter value the next id wraps around to zero, below the one before it. */
  lemma WrapsAtTheEnd(c: nat, clock: nat)
    requires clock < TWO_64
    ensures var s := State(TOP, map[c := Ready(clock, clock)]);
            && Run(s, [Load(c), Swap(c)])
            && var calls := After(s, [Load(c), Swap(c)]).calls;
               c in calls && calls[c] == Returned(clock, 0)
  {
    var s := State(TOP, map[c := Ready(clock, clock)]);
    var t := Take(s, Load(c));
    assert [Load(c), Swap(c)][1..] == [Swap(c)];
    assert Take(t, Swap(c)).calls[c] == Returned(clock, 0);
    assert [Swap(c)][1..] == [];
    assert Run(t, [Swap(c)]);
    assert After(t, [Swap(c)]) == Take(t, Swap(c));
  }
}
