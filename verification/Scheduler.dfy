/** The per-thread schedule of pollDueThreads. Times are int64 nanoseconds. */
module Scheduler {
  import opened Int64
  import opened PollBackoff
  import opened Text
  import opened Model
  import opened Reactions
  import opened SyncState
  import opened Delivery
  import OnePoll

  const DISCOVERY_INTERVAL: int := 30_000_000_000
  const MAX_WAIT: int := 5_000_000_000

  datatype PollState = PollState(backoff: Backoff, nextPoll: int)

  /** What polling a thread in this round results in. */
  type PollResults = string -> Outcome

  predicate Due(states: map<string, PollState>, t: string, now: int) {
    t !in states || now >= states[t].nextPoll
  }

  function BackoffOf(states: map<string, PollState>, t: string): Backoff {
    if t in states then states[t].backoff else FIRST_BACKOFF
  }

  /** The state of a listed thread after the round. */
  function Updated(states: map<string, PollState>, now: int, t: string, results: PollResults): PollState {
    if Due(states, t, now) then
      var b := Apply(BackoffOf(states, t), results(t));
      PollState(b, now + b.delay)
    else
      states[t]
  }

  function AfterRound(states: map<string, PollState>, now: int, listed: seq<string>, results: PollResults)
    : map<string, PollState>
  {
    states + map t | t in listed && t != "" :: Updated(states, now, t, results)
  }

  predicate NoDuplicates(listed: seq<string>) {
    forall i, j | 0 <= i < j < |listed| :: listed[i] != listed[j]
  }

  /** The threads a round polls, in listing order. */
  function DueThreads(states: map<string, PollState>, now: int, listed: seq<string>): seq<string> {
    if listed == [] then []
    else
      var last := listed[|listed| - 1];
      DueThreads(states, now, listed[..|listed| - 1]) + if last != "" && Due(states, last, now) then [last] else []
  }

  /** `wake` is the earliest of now + 5s and the next poll times of the listed threads. */
  predicate EarliestWake(states: map<string, PollState>, now: int, listed: seq<string>, wake: int) {
    && wake <= now + 5_000_000_000
    && (forall i | 0 <= i < |listed| && listed[i] in states && listed[i] != "" :: wake <= states[listed[i]].nextPoll)
    && (|| wake == now + 5_000_000_000
        || exists i | 0 <= i < |listed| && listed[i] in states && listed[i] != "" :: wake == states[listed[i]].nextPoll)
  }

  predicate DiscoveryDue(nextDiscovery: int, now: int) {
    nextDiscovery == 0 || now >= nextDiscovery
  }

  function AfterDiscoveryStep(nextDiscovery: int, now: int): int {
    if DiscoveryDue(nextDiscovery, now) then now + DISCOVERY_INTERVAL else nextDiscovery
  }

  function FirstDiscovery(start: int, initialDiscoverySucceeded: bool): int {
    if initialDiscoverySucceeded then start + DISCOVERY_INTERVAL else 0
  }

  class PollLoop {
    var states: map<string, PollState>
    /** 0 stands for Go's zero time: discover at once. */
    var nextDiscovery: int

    constructor (threads: seq<string>, start: int, initialDiscoverySucceeded: bool)
      ensures states == map t | t in threads && t != "" :: PollState(FIRST_BACKOFF, start)
      ensures nextDiscovery == FirstDiscovery(start, initialDiscoverySucceeded)
    {
      states := map t | t in threads && t != "" :: PollState(FIRST_BACKOFF, start);
      nextDiscovery := if initialDiscoverySucceeded then start + DISCOVERY_INTERVAL else 0;
    }

    method DiscoveryStep(now: int) returns (discover: bool)
      modifies this`nextDiscovery
      ensures discover <==> DiscoveryDue(old(nextDiscovery), now)
      ensures nextDiscovery == AfterDiscoveryStep(old(nextDiscovery), now)
    {
      discover := nextDiscovery == 0 || now >= nextDiscovery;
      if discover {
        nextDiscovery := now + DISCOVERY_INTERVAL;
      }
    }

    /** One pass over the listed threads: exactly the due ones are polled, each once, and the wake-up time is the
        earliest of five seconds from now and every listed thread's next poll. */
    method Round(now: int, listed: seq<string>, results: PollResults) returns (wake: int, polled: seq<string>)
      requires NoDuplicates(listed)
      modifies this`states
      ensures states == AfterRound(old(states), now, listed, results)
      ensures polled == DueThreads(old(states), now, listed)
      ensures EarliestWake(states, now, listed, wake)
    {
      hide Apply, AfterRound, Updated, Due, EarliestWake;
      wake, polled := now + MAX_WAIT, [];
      EmptyRound(states, now, results);
      for i := 0 to |listed|
        invariant states == AfterRound(old(states), now, listed[..i], results)
        invariant polled == DueThreads(old(states), now, listed[..i])
        invariant EarliestWake(states, now, listed[..i], wake)
      {
        var t := listed[i];
        assert listed[..i + 1] == listed[..i] + [t];
        assert listed[..i + 1][..i] == listed[..i];
        ghost var before, was := states, wake;
        RoundNext(old(states), now, listed[..i], t, results);
        if t == "" {
          BlankWake(states, now, listed[..i], wake);
          continue;
        }
        var pollNow, nextPoll := PollIfDue(now, t, results);
        if pollNow {
          polled := polled + [t];
        }
        if nextPoll < wake {
          wake := nextPoll;
        }
        WakeNext(before, states, now, listed[..i], t, was, wake);
      }
      assert listed[..|listed|] == listed;
    }

    /** The loop body for one thread: poll it if it is due, else leave it. */
    method PollIfDue(now: int, t: string, results: PollResults) returns (polled: bool, nextPoll: int)
      requires t != ""
      modifies this`states
      ensures states == old(states)[t := Updated(old(states), now, t, results)]
      ensures polled <==> Due(old(states), t, now)
      ensures nextPoll == states[t].nextPoll
    {
      hide Apply;
      var ps := if t in states then states[t] else PollState(FIRST_BACKOFF, now);
      polled := now >= ps.nextPoll;
      if polled {
        var b := Apply(ps.backoff, results(t));
        ps := PollState(b, now + b.delay);
      }
      states := states[t := ps];
      nextPoll := ps.nextPoll;
    }

    lemma EmptyRound(states: map<string, PollState>, now: int, results: PollResults)
      ensures AfterRound(states, now, [], results) == states
      ensures EarliestWake(states, now, [], now + MAX_WAIT)
    {
    }

    lemma BlankWake(states: map<string, PollState>, now: int, listed: seq<string>, wake: int)
      requires EarliestWake(states, now, listed, wake)
      ensures EarliestWake(states, now, listed + [""], wake)
    {
      var all := listed + [""];
      assert forall i | 0 <= i < |listed| :: all[i] == listed[i];
    }

    lemma RoundNext(states: map<string, PollState>, now: int, listed: seq<string>, t: string, results: PollResults)
      requires t !in listed
      ensures var done := AfterRound(states, now, listed, results);
              && AfterRound(states, now, listed + [t], results)
                 == (if t == "" then done else done[t := Updated(done, now, t, results)])
              && Due(done, t, now) == Due(states, t, now)
              && forall u | u in listed && u != "" :: u in done
    {
      RoundAppends(states, now, listed, t, results);
      RoundLeaves(states, now, listed, t, results);
      hide AfterRound, Apply;
    }

    lemma RoundAppends(states: map<string, PollState>, now: int, listed: seq<string>, t: string, results: PollResults)
      ensures var done := AfterRound(states, now, listed, results);
              && AfterRound(states, now, listed + [t], results)
                 == (if t == "" then done else done[t := Updated(states, now, t, results)])
              && forall u | u in listed && u != "" :: u in done
    {
      hide Updated;
      assert forall u :: u in listed + [t] <==> u in listed || u == t;
    }

    lemma RoundLeaves(states: map<string, PollState>, now: int, listed: seq<string>, t: string, results: PollResults)
      requires t !in listed
      ensures var done := AfterRound(states, now, listed, results);
              (t in done <==> t in states) && (t in done ==> done[t] == states[t])
    {
      hide Updated;
    }

    lemma WakeNext(before: map<string, PollState>, after: map<string, PollState>, now: int, listed: seq<string>,
                   t: string, was: int, wake: int)
      requires t !in listed && t != "" && t in after
      requires after == before[t := after[t]]
      requires EarliestWake(before, now, listed, was)
      requires wake == if after[t].nextPoll < was then after[t].nextPoll else was
      ensures EarliestWake(after, now, listed + [t], wake)
    {
      var all := listed + [t];
      forall i | 0 <= i < |all| && all[i] in after && all[i] != ""
        ensures wake <= after[all[i]].nextPoll
      {
        if i < |listed| {
          assert listed[i] in listed;
        }
      }
      if wake != now + MAX_WAIT {
        if after[t].nextPoll < was {
          assert all[|listed|] == t;
        } else {
          var i :| 0 <= i < |listed| && listed[i] in before && listed[i] != "" && was == before[listed[i]].nextPoll;
          assert listed[i] in listed && all[i] == listed[i];
        }
      }
    }
  }

  /** A thread is among the polled ones iff it is listed and due, and then once. */
  lemma {:induction false} DueThreadsExactly(states: map<string, PollState>, now: int, listed: seq<string>, t: string)
    requires NoDuplicates(listed)
    ensures multiset(DueThreads(states, now, listed))[t]
         == if t in listed && t != "" && Due(states, t, now) then 1 else 0
  {
    hide Due;
    if listed != [] {
      var n := |listed| - 1;
      DueThreadsExactly(states, now, listed[..n], t);
      assert forall u :: u in listed <==> u in listed[..n] || u == listed[n];
    }
  }

  // ----- whole runs

  datatype RoundInput = RoundInput(now: int, listed: seq<string>, results: PollResults)

  function StatesBefore(start: map<string, PollState>, rounds: seq<RoundInput>, k: nat): map<string, PollState>
    requires k <= |rounds|
  {
    if k == 0 then start
    else
      var r := rounds[k - 1];
      AfterRound(StatesBefore(start, rounds, k - 1), r.now, r.listed, r.results)
  }

  /** Round `k` polls thread `t`. */
  predicate PolledIn(start: map<string, PollState>, rounds: seq<RoundInput>, k: nat, t: string)
    requires k < |rounds|
  {
    t in rounds[k].listed && t != "" && Due(StatesBefore(start, rounds, k), t, rounds[k].now)
  }

  /** The delay returned by the backoff for the poll of `t` in round `k`. */
  function DelayIn(start: map<string, PollState>, rounds: seq<RoundInput>, k: nat, t: string): int
    requires k < |rounds|
  {
    Apply(BackoffOf(StatesBefore(start, rounds, k), t), rounds[k].results(t)).delay
  }

  /** Between two polls the scheduled time does not move. */
  lemma {:induction false} ScheduleHolds(start: map<string, PollState>, rounds: seq<RoundInput>, i: nat, j: nat,
                                         t: string)
    requires i < j <= |rounds| && PolledIn(start, rounds, i, t)
    requires forall k | i < k < j :: !PolledIn(start, rounds, k, t)
    ensures t in StatesBefore(start, rounds, j)
    ensures StatesBefore(start, rounds, j)[t].nextPoll == rounds[i].now + DelayIn(start, rounds, i, t)
  {
    hide Apply;
    if j > i + 1 {
      ScheduleHolds(start, rounds, i, j - 1, t);
      assert !PolledIn(start, rounds, j - 1, t);
    }
  }

  /** After being polled in round `i`, a thread is next polled in round `j` iff it is listed there and the delay
      returned in round `i` has passed: never earlier, and no later than the first such round. */
  lemma PolledAgainIff(start: map<string, PollState>, rounds: seq<RoundInput>, i: nat, j: nat, t: string)
    requires i < j < |rounds| && PolledIn(start, rounds, i, t)
    requires forall k | i < k < j :: !PolledIn(start, rounds, k, t)
    ensures PolledIn(start, rounds, j, t)
       <==> t in rounds[j].listed && rounds[j].now >= rounds[i].now + DelayIn(start, rounds, i, t)
  {
    hide Apply;
    ScheduleHolds(start, rounds, i, j, t);
  }

  /** Once the exponential has overflowed, a failing thread is polled again in the very next round that lists it. */
  lemma OverflowPollsAtOnce(start: map<string, PollState>, rounds: seq<RoundInput>, i: nat, t: string)
    requires i + 1 < |rounds| && PolledIn(start, rounds, i, t)
    requires ComputesDelay(rounds[i].results(t))
    requires var n := BackoffOf(StatesBefore(start, rounds, i), t).failures + 1; n > 33 && !LuckyCount(n)
    requires t in rounds[i + 1].listed && rounds[i].now <= rounds[i + 1].now
    ensures PolledIn(start, rounds, i + 1, t)
  {
    FailureDelayAsIntendedIff(BackoffOf(StatesBefore(start, rounds, i), t).failures + 1);
    assert DelayIn(start, rounds, i, t) <= 0;
    hide Apply;
    PolledAgainIff(start, rounds, i, i + 1, t);
  }

  /** A thread that is new to the loop is polled in the first round that lists it. */
  lemma {:induction false} NewThreadPolledAtOnce(start: map<string, PollState>, rounds: seq<RoundInput>, j: nat,
                                                 t: string)
    requires j < |rounds| && t !in start && t != ""
    requires forall k | 0 <= k < j :: t !in rounds[k].listed
    ensures t !in StatesBefore(start, rounds, j)
    ensures PolledIn(start, rounds, j, t) <==> t in rounds[j].listed
  {
    hide Apply;
    if j > 0 {
      NewThreadPolledAtOnce(start, rounds, j - 1, t);
    }
  }

  // ----- discovery

  function NextDiscoveryBefore(first: int, times: seq<int>, k: nat): int
    requires k <= |times|
  {
    if k == 0 then first else AfterDiscoveryStep(NextDiscoveryBefore(first, times, k - 1), times[k - 1])
  }

  /** The round at time `times[k]` discovers. */
  predicate DiscoversIn(first: int, times: seq<int>, k: nat)
    requires k < |times|
  {
    DiscoveryDue(NextDiscoveryBefore(first, times, k), times[k])
  }

  /** Over all rounds, on a clock after Go's zero time: after a discovery the next one is in the first round 30 seconds
      later or more, and never before. */
  lemma DiscoversAgainIff(first: int, times: seq<int>, i: nat, j: nat)
    requires i < j < |times| && DiscoversIn(first, times, i) && times[i] > 0
    requires forall k | i < k < j :: !DiscoversIn(first, times, k)
    ensures DiscoversIn(first, times, j) <==> times[j] >= times[i] + 30_000_000_000
  {
    DiscoveryHolds(first, times, i, j);
  }

  /** Between two discoveries the time of the next one does not move. */
  lemma {:induction false} DiscoveryHolds(first: int, times: seq<int>, i: nat, j: nat)
    requires i < j <= |times| && DiscoversIn(first, times, i)
    requires forall k | i < k < j :: !DiscoversIn(first, times, k)
    ensures NextDiscoveryBefore(first, times, j) == times[i] + DISCOVERY_INTERVAL
  {
    if j > i + 1 {
      DiscoveryHolds(first, times, i, j - 1);
      assert !DiscoversIn(first, times, j - 1);
    }
  }

  /** Any two discoveries are at least 30 seconds apart. */
  lemma {:induction false} DiscoveriesKeepDistance(first: int, times: seq<int>, i: nat, j: nat)
    requires forall k | 0 <= k < |times| :: times[k] > 0
    requires i < j < |times| && DiscoversIn(first, times, i) && DiscoversIn(first, times, j)
    ensures times[j] >= times[i] + 30_000_000_000
    decreases j - i
  {
    if k :| i < k < j && DiscoversIn(first, times, k) {
      DiscoveriesKeepDistance(first, times, i, k);
      DiscoveriesKeepDistance(first, times, k, j);
    } else {
      DiscoversAgainIff(first, times, i, j);
    }
  }

  /** The first round discovers when the initial discovery failed; otherwise only 30 seconds after the start. */
  lemma FirstRoundDiscoversIff(start: int, succeeded: bool, times: seq<int>)
    requires times != [] && start > 0
    ensures DiscoversIn(FirstDiscovery(start, succeeded), times, 0) <==>
              !succeeded || times[0] >= start + 30_000_000_000
  {
  }

  function Max(a: int, b: int): int {
    if a >= b then a else b
  }

  /** A round that ends at `end` sleeps until its wake-up time, but at least 100ms. If the next round starts within
      `slack` of that, no listed thread is overslept by more than the slack and the minimum sleep. */
  lemma NoOversleep(states: map<string, PollState>, now: int, listed: seq<string>, results: PollResults, wake: int,
                    end: int, slack: nat, next: int, t: string)
    requires EarliestWake(AfterRound(states, now, listed, results), now, listed, wake)
    requires t in listed && t != ""
    requires next <= end + Max(wake - end, 100_000_000) + slack
    ensures next <= Max(AfterRound(states, now, listed, results)[t].nextPoll, end + 100_000_000) + slack
  {
    var i :| 0 <= i < |listed| && listed[i] == t;
  }

  /** A completed poll is rewarded with the fast delay exactly when it queued a message event. */
  lemma FastDelayIffMessageQueued(b: Backoff, st: ClientState, s: Settings, th: ThreadState, msgs: seq<Message>,
                                  input: PollInput)
    ensures var (after, count) := PollListed(st, s, th, msgs, input);
            var next, thread := Apply(b, Polled(count)), TrimSpace(th.threadID);
            var queued := |Delivered(after.queue, thread)| > |Delivered(st.queue, thread)|;
            && next.failures == 0
            && (queued ==> next.delay == 2_000_000_000)
            && (!queued && b.delay < LIMIT ==> next.delay != 2_000_000_000)
            && (!queued && 0 < b.delay <= 28_000_000_000 ==> next.delay == b.delay + 2_000_000_000)
            && (!queued && 28_000_000_000 < b.delay < LIMIT - 2_000_000_000 ==> next.delay == 30_000_000_000)
  {
    hide TrimSpace, PollListed, Delivered;
    OnePoll.CountIsPositiveIffQueued(st, s, th, msgs, input);
    if b.delay < LIMIT {
      IdleDelayFitsIff(b.delay);
    }
  }
}
