/** Read receipts over whole runs of the poll loop: they only move forward, and fetches keep their distance. */
module HorizonRuns {
  import opened Text
  import SequenceOrder
  import opened Model
  import opened ListMessages
  import opened Reactions
  import opened SyncState
  import ExactlyOnce
  import opened SyncRuns

  /** The times of the receipts queued for one remote user of one thread, in queue order. */
  function Receipts(queue: seq<Event>, thread: string, user: string): seq<int> {
    if queue == [] then []
    else
      var last := queue[|queue| - 1];
      Receipts(queue[..|queue| - 1], thread, user)
      + if last.ReceiptEvent? && last.thread == thread && last.sender == user then [last.readUpTo] else []
  }

  predicate Increasing(ts: seq<int>) {
    forall i, j | 0 <= i < j < |ts| :: ts[i] < ts[j]
  }

  /** The receipts of every remote user increase, and the stored horizon is the latest of them. */
  predicate Monotone(st: ClientState, thread: string, user: string) {
    var ts := Receipts(st.queue, thread, user);
    && Increasing(ts)
    && (ts != [] ==> (thread, user) in st.horizons && st.horizons[(thread, user)] == ts[|ts| - 1])
  }

  lemma ReceiptsAfter(queue: seq<Event>, e: Event, thread: string, user: string)
    ensures Receipts(queue + [e], thread, user)
         == Receipts(queue, thread, user)
            + if e.ReceiptEvent? && e.thread == thread && e.sender == user then [e.readUpTo] else []
  {
    assert (queue + [e])[..|queue|] == queue;
  }

  /** A receipt is queued only for the one remote entry of the reply, with a positive time later than the stored one. */
  lemma ReceiptIsJustified(st: ClientState, s: Settings, threadID: string, now: int, reply: HorizonReply,
                           lookup: LastSentLookup)
    ensures var after := PollHorizons(st, s, threadID, now, reply, lookup);
            after.queue != st.queue ==>
              && reply.Horizons?
              && var remote := RemoteEntries(s, TrimSpace(threadID), reply.entries);
              && |remote| == 1
              && var key := (TrimSpace(threadID), TrimSpace(remote[0].id));
              && LatestReadTS(remote[0].horizon).Some?
              && var ts := LatestReadTS(remote[0].horizon).value;
              && ts > 0
              && (key in st.horizons ==> st.horizons[key] < ts)
              && lookup.Some?
              && after.queue == st.queue + [ReceiptEvent(key.0, key.1, ts, lookup.value)]
              && after.horizons == st.horizons[key := ts]
  {
    hide TrimSpace, RemoteEntries, LatestReadTS, ReceiptPollDue;
  }

  lemma HorizonsStayMonotone(st: ClientState, s: Settings, threadID: string, now: int, reply: HorizonReply,
                             lookup: LastSentLookup, thread: string, user: string)
    requires Monotone(st, thread, user)
    ensures Monotone(PollHorizons(st, s, threadID, now, reply, lookup), thread, user)
  {
    var after := PollHorizons(st, s, threadID, now, reply, lookup);
    ReceiptIsJustified(st, s, threadID, now, reply, lookup);
    hide TrimSpace, NewReceipt, ReceiptPollDue, RemoteEntries, LatestReadTS, Receipts;
    if after.queue != st.queue {
      var e := after.queue[|st.queue|];
      ReceiptsAfter(st.queue, e, thread, user);
    }
  }

  /** Message ingestion touches neither receipts nor horizons nor fetch times. */
  lemma {:induction false} IngestKeepsReceipts(st: ClientState, s: Settings, view: BridgeView, threadID: string,
                                               cursor: string, msgs: seq<Message>, thread: string, user: string)
    ensures var after := IngestAll(st, s, view, threadID, cursor, msgs).st;
            && Receipts(after.queue, thread, user) == Receipts(st.queue, thread, user)
            && after.horizons == st.horizons
            && after.receiptPoll == st.receiptPoll
  {
    hide TrimSpace, FromUser, EffectiveID, EventID, SyncReactions, SequenceOrder.CompareSequenceID, Receipts;
    if msgs != [] {
      var n := |msgs| - 1;
      IngestKeepsReceipts(st, s, view, threadID, cursor, msgs[..n], thread, user);
      var p, m := IngestAll(st, s, view, threadID, cursor, msgs[..n]), msgs[n];
      var id := EffectiveID(m);
      if TrimSpace(m.messageID) != "" && !Fresh(m, cursor) {
        SyncKeepsReceipts(p.st, s, view, threadID, m, id, thread, user);
      } else if TrimSpace(m.messageID) != "" && FromUser(m, threadID) {
        var marked := if id != "" && m.reactions != [] then p.st.(reactionSeen := p.st.reactionSeen + {id}) else p.st;
        var queued := marked.(queue := marked.queue + [ToEvent(s, threadID, m)]);
        ReceiptsAfter(marked.queue, ToEvent(s, threadID, m), thread, user);
        SyncKeepsReceipts(queued, s, view, threadID, m, EventID(m), thread, user);
      }
    }
  }

  lemma SyncKeepsReceipts(st: ClientState, s: Settings, view: BridgeView, threadID: string, m: Message,
                          messageID: string, thread: string, user: string)
    ensures var after := SyncReactions(st, s, view, threadID, m, messageID);
            && Receipts(after.queue, thread, user) == Receipts(st.queue, thread, user)
            && after.horizons == st.horizons
            && after.receiptPoll == st.receiptPoll
  {
    hide TrimSpace, ResolveTarget, Mappable, SyncMessageID, WantsEmptySync, Grouped, Receipts;
    var after := SyncReactions(st, s, view, threadID, m, messageID);
    if after.queue != st.queue {
      ReceiptsAfter(st.queue, after.queue[|st.queue|], thread, user);
    }
  }

  lemma StepKeepsMonotone(w: World, s: Settings, step: Step, thread: string, user: string)
    requires Enabled(w, step) && Monotone(w.st, thread, user)
    ensures Monotone(Next(w, s, step).st, thread, user)
  {
    hide TrimSpace, Listing, ExactlyOnce.HonestWindow, IngestAll, PollHorizons, Receipts, Upsert, UpdateCursor,
         PolledThread;
    match step
    case Arrive(_, _) =>
    case ListThreads(_) =>
    case Discover(t, row) =>
      ReceiptsAfter(w.st.queue, ResyncEvent(TrimSpace(t)), thread, user);
    case Poll(index, raw, msgs, input) =>
      var th := w.listed[index];
      var cursor := TrimSpace(th.row.lastSequenceID);
      IngestKeepsReceipts(w.st, s, input.view, th.threadID, cursor, msgs, thread, user);
      var done := IngestAll(w.st, s, input.view, th.threadID, cursor, msgs);
      var saved := if done.maxSeq == "" then done.st
                   else done.st.(rows := UpdateCursor(done.st.rows, th.threadID, done.maxSeq, done.maxTS));
      HorizonsStayMonotone(saved, s, th.threadID, input.now, input.reply, input.lookup, thread, user);
  }

  /** On every run the receipts of one remote user in one thread strictly increase and the stored read time is the
      latest of them, although the store itself overwrites whatever it is given. */
  lemma {:induction false} ReceiptsMonotone(w: World, s: Settings, steps: seq<Step>, thread: string, user: string)
    requires Run(w, s, steps) && Monotone(w.st, thread, user)
    ensures Monotone(After(w, s, steps).st, thread, user)
    decreases |steps|
  {
    hide Enabled, Next, Monotone;
    if steps != [] {
      StepKeepsMonotone(w, s, steps[0], thread, user);
      ReceiptsMonotone(Next(w, s, steps[0]), s, steps[1..], thread, user);
    }
  }

  // ----- the distance between fetches

  /** The times at which a run fetches the horizons of a thread. */
  ghost function FetchTimes(w: World, s: Settings, steps: seq<Step>, thread: string): seq<int>
    requires Run(w, s, steps)
    decreases |steps|
  {
    if steps == [] then []
    else
      (if Fetches(w, steps[0], thread) then [steps[0].input.now] else [])
      + FetchTimes(Next(w, s, steps[0]), s, steps[1..], thread)
  }

  predicate Fetches(w: World, step: Step, thread: string)
    requires step.Poll? ==> step.index < |w.listed|
  {
    && step.Poll?
    && TrimSpace(w.listed[step.index].threadID) == thread && thread != ""
    && ReceiptPollDue(w.st.receiptPoll, thread, step.input.now)
  }

  predicate Spaced(ts: seq<int>) {
    forall i | 0 <= i < |ts| - 1 :: ts[i + 1] - ts[i] >= 30_000_000_000
  }

  lemma StepFetches(w: World, s: Settings, step: Step, thread: string)
    requires Enabled(w, step)
    ensures Next(w, s, step).st.receiptPoll
         == if Fetches(w, step, thread) then w.st.receiptPoll[thread := step.input.now]
            else Next(w, s, step).st.receiptPoll
    ensures !Fetches(w, step, thread) ==>
              && (thread in Next(w, s, step).st.receiptPoll <==> thread in w.st.receiptPoll)
              && (thread in w.st.receiptPoll ==> Next(w, s, step).st.receiptPoll[thread] == w.st.receiptPoll[thread])
  {
    hide TrimSpace, IngestAll, NewReceipt, Upsert, UpdateCursor, PolledThread, Listing, ExactlyOnce.HonestWindow;
    if step.Poll? {
      var th := w.listed[step.index];
      IngestKeepsReceipts(w.st, s, step.input.view, th.threadID, TrimSpace(th.row.lastSequenceID), step.msgs,
                          thread, "");
    }
  }

  /** The last fetch the client remembers, if any. */
  function LastFetch(st: ClientState, thread: string): seq<int> {
    if thread in st.receiptPoll && st.receiptPoll[thread] != 0 then [st.receiptPoll[thread]] else []
  }

  /** Two horizon fetches of one thread are at least 30 seconds apart, for any clock readings after Go's zero time. */
  lemma {:induction false} FetchesKeepDistance(w: World, s: Settings, steps: seq<Step>, thread: string)
    requires Run(w, s, steps)
    requires forall i | 0 <= i < |steps| && steps[i].Poll? :: steps[i].input.now != 0
    ensures Spaced(LastFetch(w.st, thread) + FetchTimes(w, s, steps, thread))
    decreases |steps|
  {
    hide Next, TrimSpace, Listing, ExactlyOnce.HonestWindow;
    if steps != [] {
      var w' := Next(w, s, steps[0]);
      StepFetches(w, s, steps[0], thread);
      FetchesKeepDistance(w', s, steps[1..], thread);
      var rest := FetchTimes(w', s, steps[1..], thread);
      if Fetches(w, steps[0], thread) {
        var now := steps[0].input.now;
        assert LastFetch(w'.st, thread) == [now];
        assert FetchTimes(w, s, steps, thread) == [now] + rest;
        SpacedCons(LastFetch(w.st, thread), now, rest);
      } else {
        assert LastFetch(w'.st, thread) == LastFetch(w.st, thread);
        assert FetchTimes(w, s, steps, thread) == rest;
      }
    }
  }

  lemma SpacedCons(before: seq<int>, now: int, rest: seq<int>)
    requires Spaced([now] + rest)
    requires |before| <= 1 && (before != [] ==> now - before[0] >= 30_000_000_000)
    ensures Spaced(before + ([now] + rest))
  {
    var all := before + ([now] + rest);
    forall i | 0 <= i < |all| - 1
      ensures all[i + 1] - all[i] >= 30_000_000_000
    {
      if i >= |before| {
        assert all[i] == ([now] + rest)[i - |before|] && all[i + 1] == ([now] + rest)[i - |before| + 1];
      }
    }
  }
}
