/** Whole runs: the server logs grow, discovery upserts rows, listings are taken and threads are polled,
    in any interleaving. */
module SyncRuns {
  import opened Text
  import Decimal
  import opened SequenceOrder
  import opened Model
  import opened ListMessages
  import opened Reactions
  import opened SyncState
  import opened Delivery
  import opened ExactlyOnce
  import opened OnePoll

  /** The client, the server's log of each thread, and the listing the poll loop is working through. */
  datatype World = World(st: ClientState, logs: map<string, seq<Message>>, listed: seq<ThreadState>)

  datatype Step =
    | Arrive(thread: string, messages: seq<Message>)
    | Discover(thread: string, row: Row)
    | ListThreads(order: seq<string>)
    | Poll(index: nat, raw: seq<RawMessage>, msgs: seq<Message>, input: PollInput)

  function LogOf(w: World, thread: string): seq<Message> {
    if thread in w.logs then w.logs[thread] else []
  }

  /** The rows in the given order, each once. */
  function Snapshot(rows: map<string, Row>, order: seq<string>): seq<ThreadState>
    requires forall i | 0 <= i < |order| :: order[i] in rows
  {
    seq(|order|, i requires 0 <= i < |order| => ThreadState(order[i], rows[order[i]]))
  }

  ghost predicate EachRowOnce(rows: map<string, Row>, order: seq<string>) {
    && (forall i | 0 <= i < |order| :: order[i] in rows)
    && (forall t | t in rows :: t in order)
    && forall i, j | 0 <= i < j < |order| :: order[i] != order[j]
  }

  /** Steps the server and the poll loop can take: logs stay well formed, discovery carries no cursor,
      and a poll response shows copies of logged messages. */
  ghost predicate Enabled(w: World, step: Step) {
    match step
    case Arrive(thread, messages) => WellFormedLog(LogOf(w, thread) + messages)
    case Discover(_, row) => row.lastSequenceID == "" && row.lastMessageTS == 0
    case ListThreads(order) => EachRowOnce(w.st.rows, order)
    case Poll(index, raw, msgs, _) =>
      index < |w.listed| && Listing(raw, msgs) && HonestWindow(raw, LogOf(w, w.listed[index].threadID))
  }

  /** In addition, a poll response holds everything above the cursor it was asked for. */
  ghost predicate Covering(w: World, step: Step) {
    step.Poll? && step.index < |w.listed| ==>
      var th := w.listed[step.index];
      CoveringWindow(step.raw, LogOf(w, th.threadID), TrimSpace(th.row.lastSequenceID))
  }

  ghost function Next(w: World, s: Settings, step: Step): World
    requires Enabled(w, step)
  {
    match step
    case Arrive(thread, messages) => w.(logs := w.logs[thread := LogOf(w, thread) + messages])
    case Discover(thread, row) =>
      w.(st := w.st.(rows := Upsert(w.st.rows, thread, row), queue := w.st.queue + [ResyncEvent(TrimSpace(thread))]))
    case ListThreads(order) => w.(listed := Snapshot(w.st.rows, order))
    case Poll(index, raw, msgs, input) =>
      var th := w.listed[index];
      w.(st := PollListed(w.st, s, th, msgs, input).0,
         listed := w.listed[index := PolledThread(w.st, s, th, msgs, input)])
  }

  function MaxOf(st: ClientState, s: Settings, th: ThreadState, msgs: seq<Message>, input: PollInput): string {
    IngestAll(st, s, input.view, th.threadID, TrimSpace(th.row.lastSequenceID), msgs).maxSeq
  }

  /** The row's cursor; a thread without a row has none. */
  function Cursor(w: World, thread: string): string {
    if thread in w.st.rows then w.st.rows[thread].lastSequenceID else ""
  }

  predicate Start(w: World) {
    w.st.rows == map[] && w.st.queue == [] && w.logs == map[] && w.listed == []
  }

  // ----- the invariants

  /** Keys are trimmed, logs are well formed, and every cursor is the sequence id of a logged message. */
  ghost predicate Tidy(w: World) {
    && (forall t | t in w.logs :: WellFormedLog(w.logs[t]))
    && (forall t | t in w.st.rows :: TrimSpace(t) == t && t != "")
    && (forall t :: CursorFromLog(LogOf(w, t), Cursor(w, t)))
  }

  ghost predicate CursorFromLog(log: seq<Message>, cursor: string) {
    cursor == "" || exists k | 0 <= k < |log| :: IsNumber(log[k].sequenceID) && log[k].sequenceID == cursor
  }

  /** The listing being worked through still shows the stored cursors, although rows may have been upserted since. */
  ghost predicate ListingCurrent(w: World) {
    && (forall i | 0 <= i < |w.listed| ::
          && w.listed[i].threadID in w.st.rows
          && w.listed[i].row.lastSequenceID == Cursor(w, w.listed[i].threadID))
    && forall i, j | 0 <= i < j < |w.listed| :: w.listed[i].threadID != w.listed[j].threadID
  }

  /** Delivered messages are in order, at or below the cursor, and each is in the log. */
  ghost predicate InOrder(w: World, t: string) {
    var delivered := Delivered(w.st.queue, t);
    && CursorOK(Cursor(w, t))
    && Ascending(delivered)
    && NotAbove(delivered, Cursor(w, t))
    && forall x | x in delivered :: exists m | m in LogOf(w, t) :: Deliverable(m, t) && TicketOf(m) == x
  }

  /** Delivered messages are all user-sent messages of the log up to the cursor. */
  predicate UpToDate(w: World, t: string) {
    Delivered(w.st.queue, t) == TicketsUpTo(LogOf(w, t), t, Cursor(w, t))
  }

  ghost predicate Safe(w: World) {
    Tidy(w) && ListingCurrent(w) && forall t :: InOrder(w, t)
  }

  // ----- every step keeps the invariants

  lemma UpsertKeepsCursors(rows: map<string, Row>, thread: string, row: Row)
    requires row.lastSequenceID == ""
    requires forall t | t in rows :: TrimSpace(t) == t && t != ""
    ensures var after := Upsert(rows, thread, row);
            && (forall t | t in rows :: t in after && after[t].lastSequenceID == rows[t].lastSequenceID)
            && (forall t | t in after && t !in rows :: after[t].lastSequenceID == "")
            && (forall t | t in after :: TrimSpace(t) == t && t != "")
  {
    hide TrimSpace;
    TrimTwice(thread);
  }

  lemma ArriveKeepsSafe(w: World, s: Settings, thread: string, messages: seq<Message>)
    requires Safe(w) && Enabled(w, Arrive(thread, messages))
    ensures Safe(Next(w, s, Arrive(thread, messages)))
  {
    hide TrimSpace, Decimal.ParseUint, Deliverable, EventID, WellFormedLog, Delivered;
    var after := Next(w, s, Arrive(thread, messages));
    forall t
      ensures CursorFromLog(LogOf(after, t), Cursor(after, t)) && InOrder(after, t)
    {
      assert CursorFromLog(LogOf(w, t), Cursor(w, t)) && InOrder(w, t);
      assert LogOf(w, t) <= LogOf(after, t);
      assert forall m | m in LogOf(w, t) :: m in LogOf(after, t);
    }
  }

  lemma DiscoverKeepsSafe(w: World, s: Settings, thread: string, row: Row)
    requires Safe(w) && Enabled(w, Discover(thread, row))
    ensures Safe(Next(w, s, Discover(thread, row)))
    ensures forall t :: Delivered(Next(w, s, Discover(thread, row)).st.queue, t) == Delivered(w.st.queue, t)
    ensures forall t :: Cursor(Next(w, s, Discover(thread, row)), t) == Cursor(w, t)
  {
    hide TrimSpace, Decimal.ParseUint, Deliverable, EventID, WellFormedLog, Upsert;
    var after := Next(w, s, Discover(thread, row));
    UpsertKeepsCursors(w.st.rows, thread, row);
    assert after.st.queue[..|after.st.queue| - 1] == w.st.queue;
    forall t
      ensures CursorFromLog(LogOf(after, t), Cursor(after, t)) && InOrder(after, t)
    {
      assert CursorFromLog(LogOf(w, t), Cursor(w, t)) && InOrder(w, t);
    }
  }

  lemma ListKeepsSafe(w: World, s: Settings, order: seq<string>)
    requires Safe(w) && Enabled(w, ListThreads(order))
    ensures Safe(Next(w, s, ListThreads(order)))
  {
    hide TrimSpace, Decimal.ParseUint, Deliverable, EventID, WellFormedLog, Delivered;
    var after := Next(w, s, ListThreads(order));
    forall t
      ensures CursorFromLog(LogOf(after, t), Cursor(after, t)) && InOrder(after, t)
    {
      assert CursorFromLog(LogOf(w, t), Cursor(w, t)) && InOrder(w, t);
    }
  }

  /** The polled thread's cursor is `max` now, unless that is blank, in its row and in the loop's copy; nothing else
      has moved. */
  ghost predicate CursorMoved(w: World, after: World, index: nat, max: string)
    requires index < |w.listed|
  {
    var t, cursor := w.listed[index].threadID, w.listed[index].row.lastSequenceID;
    && after.logs == w.logs
    && after.st.rows.Keys == w.st.rows.Keys
    && Cursor(after, t) == NewCursor(cursor, max)
    && (forall u | u != t :: Cursor(after, u) == Cursor(w, u))
    && |after.listed| == |w.listed|
    && (forall i | 0 <= i < |w.listed| :: after.listed[i].threadID == w.listed[i].threadID)
    && after.listed[index].row.lastSequenceID == NewCursor(cursor, max)
    && (forall i | 0 <= i < |w.listed| && i != index :: after.listed[i] == w.listed[i])
  }

  /** What one poll does, in terms of the thread it polls. */
  lemma PollEffect(w: World, s: Settings, step: Step)
    requires Safe(w) && step.Poll? && Enabled(w, step)
    ensures var after, th := Next(w, s, step), w.listed[step.index];
            var t, cursor := th.threadID, th.row.lastSequenceID;
            var max := MaxOf(w.st, s, th, step.msgs, step.input);
            && t in w.st.rows && TrimSpace(t) == t && TrimSpace(cursor) == cursor && cursor == Cursor(w, t)
            && WellFormedLog(LogOf(w, t)) && CursorOK(cursor)
            && Faithful(step.msgs, LogOf(w, t))
            && HighestAbove(step.msgs, cursor, max)
            && CursorMoved(w, after, step.index, max)
            && (forall u :: Delivered(after.st.queue, u) == Delivered(w.st.queue, u)
                            + (if u == t then TicketsAbove(step.msgs, t, cursor) else []))
  {
    PolledThreadIsTidy(w, step);
    PollListsFaithfully(w, s, step);
    PollMovesCursor(w, s, step);
    PollQueues(w, s, step);
    hide *;
  }

  lemma PollListsFaithfully(w: World, s: Settings, step: Step)
    requires Safe(w) && step.Poll? && Enabled(w, step)
    ensures var th := w.listed[step.index];
            && Faithful(step.msgs, LogOf(w, th.threadID))
            && HighestAbove(step.msgs, th.row.lastSequenceID, MaxOf(w.st, s, th, step.msgs, step.input))
  {
    PolledThreadIsTidy(w, step);
    PollIsHonest(w, step);
    var th := w.listed[step.index];
    hide Safe, Enabled, Listing, HonestWindow, LogOf, TrimSpace, IngestAll, WellFormedLog, HighestAbove;
    HonestListing(step.raw, step.msgs, LogOf(w, th.threadID));
    MaxIsHighest(w.st, s, step.input.view, th.threadID, th.row.lastSequenceID, step.msgs);
  }

  lemma PollQueues(w: World, s: Settings, step: Step)
    requires Safe(w) && step.Poll? && Enabled(w, step)
    ensures var t, cursor := w.listed[step.index].threadID, w.listed[step.index].row.lastSequenceID;
            forall u :: Delivered(Next(w, s, step).st.queue, u) == Delivered(w.st.queue, u)
                        + (if u == t then TicketsAbove(step.msgs, t, cursor) else [])
  {
    PolledThreadIsTidy(w, step);
    var th := w.listed[step.index];
    hide TrimSpace, Delivered, TicketsAbove, PollListed, PolledThread, Safe, Listing, HonestWindow, WellFormedLog;
    forall u
      ensures Delivered(Next(w, s, step).st.queue, u) == Delivered(w.st.queue, u)
                + (if u == th.threadID then TicketsAbove(step.msgs, th.threadID, th.row.lastSequenceID) else [])
    {
      PollDelivers(w.st, s, th, step.msgs, step.input, u);
    }
  }

  lemma PollIsHonest(w: World, step: Step)
    requires step.Poll? && Enabled(w, step)
    ensures step.index < |w.listed|
    ensures Listing(step.raw, step.msgs) && HonestWindow(step.raw, LogOf(w, w.listed[step.index].threadID))
  {
  }

  lemma PolledThreadIsTidy(w: World, step: Step)
    requires Safe(w) && step.Poll? && Enabled(w, step)
    ensures var th := w.listed[step.index];
            var t, cursor := th.threadID, th.row.lastSequenceID;
            && t in w.st.rows && TrimSpace(t) == t && t != "" && TrimSpace(cursor) == cursor && cursor == Cursor(w, t)
            && WellFormedLog(LogOf(w, t)) && CursorOK(cursor)
  {
    var th := w.listed[step.index];
    var cursor := th.row.lastSequenceID;
    assert InOrder(w, th.threadID);
    if cursor != "" {
      Decimal.NumeralIsTrimmed(cursor);
    } else {
      assert TrimSpace("") == "";
    }
    hide TrimSpace, Decimal.ParseUint, Deliverable, EventID, Delivered, Listing, HonestWindow, WellFormedLog;
    assert WellFormedLog(LogOf(w, th.threadID)) by {
      EmptyLogWellFormed();
    }
  }

  lemma PollMovesCursor(w: World, s: Settings, step: Step)
    requires Safe(w) && step.Poll? && Enabled(w, step)
    ensures CursorMoved(w, Next(w, s, step), step.index, MaxOf(w.st, s, w.listed[step.index], step.msgs, step.input))
  {
    PolledThreadIsTidy(w, step);
    var th := w.listed[step.index];
    NextOfPoll(w, s, step);
    NewRowsMoveCursor(w.st, s, th, step.msgs, step.input);
    PolledThreadMovesCursor(w.st, s, th, step.msgs, step.input);
    hide *;
    RowMoves(w, Next(w, s, step), step.index, PolledThread(w.st, s, th, step.msgs, step.input),
             MaxOf(w.st, s, th, step.msgs, step.input));
  }

  lemma NextOfPoll(w: World, s: Settings, step: Step)
    requires step.Poll? && Enabled(w, step)
    ensures var th, after := w.listed[step.index], Next(w, s, step);
            && after.logs == w.logs
            && after.st.rows == NewRows(w.st, s, th, step.msgs, step.input)
            && after.listed == w.listed[step.index := PolledThread(w.st, s, th, step.msgs, step.input)]
  {
    var th := w.listed[step.index];
    PollDelivers(w.st, s, th, step.msgs, step.input, th.threadID);
    hide NewRows, PolledThread, PollListed, Listing, HonestWindow, Delivered, TicketsAbove, TrimSpace;
  }

  lemma RowMoves(w: World, after: World, index: nat, th: ThreadState, max: string)
    requires index < |w.listed| && w.listed[index].threadID in w.st.rows
    requires after.logs == w.logs && after.listed == w.listed[index := th]
    requires th.threadID == w.listed[index].threadID
    requires th.row.lastSequenceID == NewCursor(w.listed[index].row.lastSequenceID, max)
    requires after.st.rows.Keys == w.st.rows.Keys
    requires after.st.rows[th.threadID].lastSequenceID == NewCursor(w.listed[index].row.lastSequenceID, max)
    requires forall u | u in w.st.rows && u != th.threadID :: after.st.rows[u] == w.st.rows[u]
    ensures CursorMoved(w, after, index, max)
  {
    hide NewCursor;
    assert forall u :: u in after.st.rows <==> u in w.st.rows;
  }

  lemma NewRowsMoveCursor(st: ClientState, s: Settings, th: ThreadState, msgs: seq<Message>, input: PollInput)
    requires th.threadID in st.rows && TrimSpace(th.threadID) == th.threadID && th.threadID != ""
    requires st.rows[th.threadID].lastSequenceID == th.row.lastSequenceID
    ensures var after, max := NewRows(st, s, th, msgs, input), MaxOf(st, s, th, msgs, input);
            && after.Keys == st.rows.Keys
            && after[th.threadID].lastSequenceID == NewCursor(th.row.lastSequenceID, max)
            && forall u | u in st.rows && u != th.threadID :: after[u] == st.rows[u]
  {
    hide TrimSpace, IngestAll;
  }

  lemma PolledThreadMovesCursor(st: ClientState, s: Settings, th: ThreadState, msgs: seq<Message>, input: PollInput)
    ensures var after, max := PolledThread(st, s, th, msgs, input), MaxOf(st, s, th, msgs, input);
            after.threadID == th.threadID && after.row.lastSequenceID == NewCursor(th.row.lastSequenceID, max)
  {
    hide TrimSpace, IngestAll;
  }

  lemma EmptyLogWellFormed()
    ensures WellFormedLog([])
  {
  }

  lemma PollKeepsSafe(w: World, s: Settings, step: Step)
    requires Safe(w) && step.Poll? && Enabled(w, step)
    ensures Safe(Next(w, s, step))
  {
    hide TrimSpace, Decimal.ParseUint, Deliverable, EventID, IngestAll, PollListed, PolledThread, Delivered,
         TicketsAbove, HighestAbove, Listing, HonestWindow, WellFormedLog, Faithful;
    PollEffect(w, s, step);
    var after, th := Next(w, s, step), w.listed[step.index];
    var t, cursor, log := th.threadID, th.row.lastSequenceID, LogOf(w, th.threadID);
    var max := MaxOf(w.st, s, th, step.msgs, step.input);
    forall u
      ensures CursorFromLog(LogOf(after, u), Cursor(after, u)) && InOrder(after, u)
    {
      assert CursorFromLog(LogOf(w, u), Cursor(w, u)) && InOrder(w, u);
      if u == t {
        AscendingAppend(Delivered(w.st.queue, t), step.msgs, log, t, cursor, max);
        MaxIsLogged(step.msgs, log, cursor, max);
        NewTicketsAreLogged(step.msgs, log, t, cursor);
      }
    }
  }

  lemma MaxIsLogged(msgs: seq<Message>, log: seq<Message>, cursor: string, max: string)
    requires Faithful(msgs, log) && HighestAbove(msgs, cursor, max)
    ensures CursorFromLog(log, max)
  {
    hide TrimSpace, Decimal.ParseUint, Fresh, Sorted, NoRepeats;
    if max != "" {
      var m :| m in msgs && HasID(m) && Fresh(m, cursor) && m.sequenceID == max;
      var k :| 0 <= k < |log| && Copies(m, log[k]);
      assert IsNumber(log[k].sequenceID) && log[k].sequenceID == max;
    }
  }

  lemma NewTicketsAreLogged(msgs: seq<Message>, log: seq<Message>, thread: string, cursor: string)
    requires Faithful(msgs, log)
    ensures forall x | x in TicketsAbove(msgs, thread, cursor) ::
              exists m | m in log :: Deliverable(m, thread) && TicketOf(m) == x
  {
    hide TrimSpace, FromUser, EventID, Fresh, Sorted, NoRepeats, Numeric;
    TicketsAboveMembers(msgs, thread, cursor);
    forall x | x in TicketsAbove(msgs, thread, cursor)
      ensures exists m | m in log :: Deliverable(m, thread) && TicketOf(m) == x
    {
      var m :| m in msgs && Deliverable(m, thread) && Fresh(m, cursor) && TicketOf(m) == x;
      var k :| 0 <= k < |log| && Copies(m, log[k]);
      CopiesAgree(m, log[k], thread, cursor);
      assert log[k] in log;
    }
  }

  lemma StepKeepsSafe(w: World, s: Settings, step: Step)
    requires Safe(w) && Enabled(w, step)
    ensures Safe(Next(w, s, step))
  {
    hide Safe, Enabled, Next;
    match step
    case Arrive(thread, messages) => ArriveKeepsSafe(w, s, thread, messages);
    case Discover(thread, row) => DiscoverKeepsSafe(w, s, thread, row);
    case ListThreads(order) => ListKeepsSafe(w, s, order);
    case Poll(_, _, _, _) => PollKeepsSafe(w, s, step);
  }

  /** A thread's cursor never moves back, and its row never disappears. */
  lemma StepAdvancesCursor(w: World, s: Settings, step: Step, t: string)
    requires Safe(w) && Enabled(w, step)
    ensures t in w.st.rows ==> t in Next(w, s, step).st.rows
    ensures NotBefore(Cursor(Next(w, s, step), t), Cursor(w, t))
  {
    hide TrimSpace, Decimal.ParseUint, Deliverable, EventID, IngestAll, PollListed, PolledThread, Delivered,
         TicketsAbove, HighestAbove, Listing, HonestWindow, WellFormedLog, Faithful, Upsert;
    assert InOrder(w, t);
    match step
    case Arrive(_, _) =>
    case ListThreads(_) =>
    case Discover(thread, row) =>
      UpsertKeepsCursors(w.st.rows, thread, row);
    case Poll(index, raw, msgs, input) =>
      PollEffect(w, s, step);
      var th := w.listed[index];
      var max := MaxOf(w.st, s, th, msgs, input);
      if t == th.threadID && max != "" {
        MaxIsNumber(msgs, th.row.lastSequenceID, max);
        if th.row.lastSequenceID != "" {
          CursorAdvances(msgs, th.row.lastSequenceID, max);
        }
      }
  }

  predicate NotBefore(later: string, earlier: string) {
    earlier != "" ==> later != "" && IsNumber(earlier) && IsNumber(later) && Number(earlier) <= Number(later)
  }

  /** New messages lie above the cursor, so they do not change what is visible up to it. */
  lemma {:induction false} ArrivalsInvisible(log: seq<Message>, added: seq<Message>, thread: string, cursor: string)
    requires WellFormedLog(log + added) && CursorFromLog(log, cursor)
    ensures TicketsUpTo(log + added, thread, cursor) == TicketsUpTo(log, thread, cursor)
  {
    hide TrimSpace, Decimal.ParseUint, Deliverable, EventID, CompareSequenceID, NoRepeats;
    if added == [] {
      assert log + added == log;
    } else {
      var all, n := log + added, |added| - 1;
      assert all[..|all| - 1] == log + added[..n];
      PrefixWellFormed(all, |all| - 1);
      ArrivalsInvisible(log, added[..n], thread, cursor);
      if cursor != "" {
        var k :| 0 <= k < |log| && IsNumber(log[k].sequenceID) && log[k].sequenceID == cursor;
        assert all[k] == log[k];
        FreshIsAbove(all[|all| - 1], cursor);
      }
    }
  }

  lemma StepKeepsUpToDate(w: World, s: Settings, step: Step, t: string)
    requires Safe(w) && Enabled(w, step) && Covering(w, step) && UpToDate(w, t)
    ensures UpToDate(Next(w, s, step), t)
  {
    hide TrimSpace, Decimal.ParseUint, Deliverable, EventID, IngestAll, PollListed, PolledThread, Delivered,
         TicketsAbove, HighestAbove, Listing, HonestWindow, WellFormedLog, Faithful, Upsert, CoveringWindow,
         TicketsUpTo;
    match step
    case Arrive(thread, messages) =>
      if t == thread {
        assert CursorFromLog(LogOf(w, t), Cursor(w, t));
        ArrivalsInvisible(LogOf(w, t), messages, t, Cursor(w, t));
      }
    case ListThreads(_) =>
    case Discover(thread, row) =>
      DiscoverKeepsSafe(w, s, thread, row);
    case Poll(index, raw, msgs, input) =>
      PollEffect(w, s, step);
      var th := w.listed[index];
      if t == th.threadID {
        CatchesUp(raw, msgs, LogOf(w, t), t, th.row.lastSequenceID, MaxOf(w.st, s, th, msgs, input));
      }
  }

  // ----- whole runs

  /** A run is a list of steps, each enabled where it is taken. */
  ghost predicate Run(w: World, s: Settings, steps: seq<Step>)
    decreases |steps|
  {
    steps == [] || (Enabled(w, steps[0]) && Run(Next(w, s, steps[0]), s, steps[1..]))
  }

  ghost predicate CoveringRun(w: World, s: Settings, steps: seq<Step>)
    requires Run(w, s, steps)
    decreases |steps|
  {
    steps == [] || (Covering(w, steps[0]) && CoveringRun(Next(w, s, steps[0]), s, steps[1..]))
  }

  ghost function After(w: World, s: Settings, steps: seq<Step>): World
    requires Run(w, s, steps)
    decreases |steps|
  {
    if steps == [] then w else After(Next(w, s, steps[0]), s, steps[1..])
  }

  lemma {:induction false} RunsFromSafe(w: World, s: Settings, steps: seq<Step>)
    requires Safe(w) && Run(w, s, steps)
    ensures Safe(After(w, s, steps))
    ensures forall t :: NotBefore(Cursor(After(w, s, steps), t), Cursor(w, t))
    ensures CoveringRun(w, s, steps) ==> forall t | UpToDate(w, t) :: UpToDate(After(w, s, steps), t)
    decreases |steps|
  {
    hide Enabled, Covering, UpToDate, Next, Tidy, ListingCurrent, Decimal.ParseUint;
    if steps == [] {
      forall t
        ensures NotBefore(Cursor(w, t), Cursor(w, t))
      {
        assert InOrder(w, t);
      }
    } else {
      var w' := Next(w, s, steps[0]);
      StepKeepsSafe(w, s, steps[0]);
      RunsFromSafe(w', s, steps[1..]);
      forall t
        ensures NotBefore(Cursor(After(w, s, steps), t), Cursor(w, t))
      {
        StepAdvancesCursor(w, s, steps[0], t);
      }
      if CoveringRun(w, s, steps) {
        forall t | UpToDate(w, t)
          ensures UpToDate(w', t)
        {
          StepKeepsUpToDate(w, s, steps[0], t);
        }
      }
    }
  }

  /** Whatever windows the server shows, as long as they hold copies of logged messages: on every run each
      user-sent message is delivered at most once and in log order. */
  lemma AtMostOnceInOrder(w: World, s: Settings, steps: seq<Step>, t: string)
    requires Start(w) && Run(w, s, steps)
    ensures InOrder(After(w, s, steps), t)
  {
    StartIsSafe(w);
    RunsFromSafe(w, s, steps);
  }

  /** When moreover every window holds what is above the cursor it was asked for, the message events of a thread
      are exactly the user-sent messages of its log up to the cursor, in order and each once. */
  lemma ExactlyOnceDelivery(w: World, s: Settings, steps: seq<Step>, t: string)
    requires Start(w) && Run(w, s, steps) && CoveringRun(w, s, steps)
    ensures UpToDate(After(w, s, steps), t)
  {
    StartIsSafe(w);
    assert forall u :: UpToDate(w, u);
    RunsFromSafe(w, s, steps);
  }

  /** A poll whose window covers what is above the cursor leaves nothing behind: all user-sent messages of the log
      have been delivered then. */
  lemma PollLeavesNothingBehind(w: World, s: Settings, steps: seq<Step>)
    requires Start(w) && Run(w, s, steps) && CoveringRun(w, s, steps)
    requires steps != [] && steps[|steps| - 1].Poll?
    ensures var before := BeforeLast(w, s, steps);
            && Enabled(before, steps[|steps| - 1])
            && var t := before.listed[steps[|steps| - 1].index].threadID;
               Delivered(After(w, s, steps).st.queue, t) == TicketsAbove(LogOf(After(w, s, steps), t), t, "")
  {
    StartIsSafe(w);
    var n := |steps| - 1;
    var before := BeforeLast(w, s, steps);
    LastStep(w, s, steps);
    ExactlyOnceDelivery(w, s, steps[..n], before.listed[steps[n].index].threadID);
    RunsFromSafe(w, s, steps[..n]);
    LastPollLeavesNothing(before, s, steps[n]);
  }

  /** The world before the last step of a run. */
  ghost function BeforeLast(w: World, s: Settings, steps: seq<Step>): World
    requires Run(w, s, steps) && steps != []
    decreases |steps|
  {
    if |steps| == 1 then w else BeforeLast(Next(w, s, steps[0]), s, steps[1..])
  }

  lemma {:induction false} LastStep(w: World, s: Settings, steps: seq<Step>)
    requires Run(w, s, steps) && steps != []
    ensures var n := |steps| - 1;
            && Run(w, s, steps[..n]) && After(w, s, steps[..n]) == BeforeLast(w, s, steps)
            && Enabled(BeforeLast(w, s, steps), steps[n])
            && Next(BeforeLast(w, s, steps), s, steps[n]) == After(w, s, steps)
            && (CoveringRun(w, s, steps) ==>
                  CoveringRun(w, s, steps[..n]) && Covering(BeforeLast(w, s, steps), steps[n]))
    decreases |steps|
  {
    hide Enabled, Next, Covering;
    var n := |steps| - 1;
    if n == 0 {
      assert steps[..n] == [] && steps[1..] == [];
    } else {
      LastStep(Next(w, s, steps[0]), s, steps[1..]);
      assert steps[..n][1..] == steps[1..][..n - 1];
    }
  }

  lemma LastPollLeavesNothing(w: World, s: Settings, step: Step)
    requires Safe(w) && step.Poll? && Enabled(w, step) && Covering(w, step)
    requires UpToDate(w, w.listed[step.index].threadID)
    ensures var t, after := w.listed[step.index].threadID, Next(w, s, step);
            Delivered(after.st.queue, t) == TicketsAbove(LogOf(after, t), t, "")
  {
    var th := w.listed[step.index];
    var log, cursor := LogOf(w, th.threadID), th.row.lastSequenceID;
    var max := MaxOf(w.st, s, th, step.msgs, step.input);
    PollIsHonest(w, step);
    PollEffect(w, s, step);
    StepKeepsUpToDate(w, s, step, th.threadID);
    hide Safe, Enabled, Next, Listing, HonestWindow, CoveringWindow, WellFormedLog, Fresh, HighestAbove, NewCursor,
         TicketsUpTo, TicketsAbove, Delivered, TrimSpace, Faithful, MaxOf, HasID;
    forall o | o in log && HasID(o)
      ensures !Fresh(o, NewCursor(cursor, max))
    {
      var k :| 0 <= k < |log| && log[k] == o;
      NothingAbove(step.raw, step.msgs, log, cursor, max, k);
    }
    AllVisible(log, th.threadID, NewCursor(cursor, max));
  }

  /** Along a run the cursor of a thread never decreases from any point on. */
  lemma CursorNeverDecreases(w: World, s: Settings, steps: seq<Step>, n: nat, t: string)
    requires Start(w) && Run(w, s, steps) && n <= |steps|
    ensures Run(w, s, steps[..n])
    ensures NotBefore(Cursor(After(w, s, steps), t), Cursor(After(w, s, steps[..n]), t))
  {
    StartIsSafe(w);
    RunSplits(w, s, steps, n);
    RunsFromSafe(w, s, steps[..n]);
    RunsFromSafe(After(w, s, steps[..n]), s, steps[n..]);
  }

  /** A run can be cut anywhere. */
  lemma {:induction false} RunSplits(w: World, s: Settings, steps: seq<Step>, n: nat)
    requires Run(w, s, steps) && n <= |steps|
    ensures Run(w, s, steps[..n]) && Run(After(w, s, steps[..n]), s, steps[n..])
    ensures After(After(w, s, steps[..n]), s, steps[n..]) == After(w, s, steps)
    decreases |steps|
  {
    hide Enabled, Next;
    if n == 0 {
      assert steps[..n] == [] && steps[n..] == steps;
    } else {
      RunSplits(Next(w, s, steps[0]), s, steps[1..], n - 1);
      assert steps[..n][1..] == steps[1..][..n - 1] && steps[1..][n - 1..] == steps[n..];
    }
  }

  lemma StartIsSafe(w: World)
    requires Start(w)
    ensures Safe(w)
  {
  }
}
