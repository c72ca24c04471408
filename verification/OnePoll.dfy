/** One poll of one thread: what it queues, where the cursor goes, and why nothing is skipped or repeated. */
module OnePoll {
  import opened Text
  import Decimal
  import opened SequenceOrder
  import opened Model
  import opened ListMessages
  import opened Reactions
  import opened SyncState
  import opened Delivery
  import opened ExactlyOnce

  // ----- one poll

  lemma PollDelivers(st: ClientState, s: Settings, th: ThreadState, msgs: seq<Message>, input: PollInput, t: string)
    ensures var cursor := TrimSpace(th.row.lastSequenceID);
            var (after, count) := PollListed(st, s, th, msgs, input);
            && Delivered(after.queue, t) == Delivered(st.queue, t)
               + (if t == TrimSpace(th.threadID) then TicketsAbove(msgs, th.threadID, cursor) else [])
            && count == 2 * |TicketsAbove(msgs, th.threadID, cursor)|
            && after.rows == NewRows(st, s, th, msgs, input)
  {
    hide TrimSpace, IngestAll, PollHorizons, UpdateCursor;
    var cursor := TrimSpace(th.row.lastSequenceID);
    IngestDelivers(st, s, input.view, th.threadID, cursor, msgs, t);
    var done := IngestAll(st, s, input.view, th.threadID, cursor, msgs);
    var saved := if done.maxSeq == "" then done.st
                 else done.st.(rows := UpdateCursor(done.st.rows, th.threadID, done.maxSeq, done.maxTS));
    PollHorizonsQueuesNoMessage(saved, s, th.threadID, input.now, input.reply, input.lookup, t);
  }

  function NewRows(st: ClientState, s: Settings, th: ThreadState, msgs: seq<Message>, input: PollInput)
    : map<string, Row>
  {
    var done := IngestAll(st, s, input.view, th.threadID, TrimSpace(th.row.lastSequenceID), msgs);
    if done.maxSeq == "" then st.rows else UpdateCursor(st.rows, th.threadID, done.maxSeq, done.maxTS)
  }

  /** The reported count is positive exactly when a message event was queued. */
  lemma CountIsPositiveIffQueued(st: ClientState, s: Settings, th: ThreadState, msgs: seq<Message>, input: PollInput)
    ensures var (after, count) := PollListed(st, s, th, msgs, input);
            count > 0 <==>
              |Delivered(after.queue, TrimSpace(th.threadID))| > |Delivered(st.queue, TrimSpace(th.threadID))|
  {
    PollDelivers(st, s, th, msgs, input, TrimSpace(th.threadID));
  }

  predicate CursorOK(cursor: string) {
    cursor == "" || IsNumber(cursor)
  }

  predicate NotAbove(ts: seq<Ticket>, cursor: string)
    requires CursorOK(cursor)
  {
    forall t | t in ts :: cursor != "" && IsNumber(t.sequenceID) && Number(t.sequenceID) <= Number(cursor)
  }

  /** What the cursor becomes. */
  function NewCursor(cursor: string, max: string): string {
    if max == "" then cursor else max
  }

  /** `max` is the highest sequence id above the cursor in the listing, or blank when nothing is above it. */
  ghost predicate HighestAbove(msgs: seq<Message>, cursor: string, max: string) {
    if max == "" then forall m | m in msgs && HasID(m) :: !Fresh(m, cursor)
    else
      && (exists m | m in msgs && HasID(m) && Fresh(m, cursor) :: m.sequenceID == max)
      && IsNumber(max)
      && forall m | m in msgs && HasID(m) && Fresh(m, cursor) ::
          IsNumber(m.sequenceID) && Number(m.sequenceID) <= Number(max)
  }

  lemma MaxIsHighest(st: ClientState, s: Settings, view: BridgeView, thread: string, cursor: string, msgs: seq<Message>)
    requires Numeric(msgs)
    ensures HighestAbove(msgs, cursor, IngestAll(st, s, view, thread, cursor, msgs).maxSeq)
  {
    hide IngestAll, Decimal.ParseUint, TrimSpace, Fresh;
    MaxSeqIsHighest(st, s, view, thread, cursor, msgs);
    assert forall m | m in msgs :: exists i | 0 <= i < |msgs| :: msgs[i] == m;
  }

  /** On numerals, being above a numeric cursor is being the larger number. */
  lemma FreshIsAbove(m: Message, cursor: string)
    requires IsNumber(m.sequenceID) && IsNumber(cursor)
    ensures Fresh(m, cursor) <==> Number(m.sequenceID) > Number(cursor)
  {
    hide TrimSpace;
    Decimal.NumeralIsTrimmed(m.sequenceID);
    Decimal.NumeralIsTrimmed(cursor);
  }

  /** The cursor never goes back. */
  lemma CursorAdvances(msgs: seq<Message>, cursor: string, max: string)
    requires CursorOK(cursor) && HighestAbove(msgs, cursor, max) && max != "" && cursor != ""
    ensures Number(cursor) < Number(max)
  {
    hide TrimSpace, Decimal.ParseUint, Fresh;
    var m :| m in msgs && HasID(m) && Fresh(m, cursor) && m.sequenceID == max;
    FreshIsAbove(m, cursor);
  }

  /** New tickets ascend, lie above the old cursor and do not exceed the new one. */
  lemma NewTicketsBetween(msgs: seq<Message>, thread: string, cursor: string, max: string)
    requires CursorOK(cursor) && HighestAbove(msgs, cursor, max) && Numeric(msgs)
    ensures forall t | t in TicketsAbove(msgs, thread, cursor) ::
              && max != "" && IsNumber(t.sequenceID)
              && Number(t.sequenceID) <= Number(max)
              && (cursor != "" ==> Number(cursor) < Number(t.sequenceID))
  {
    hide TrimSpace, Decimal.ParseUint, FromUser, EventID, Fresh;
    TicketsAboveMembers(msgs, thread, cursor);
    forall t | t in TicketsAbove(msgs, thread, cursor)
      ensures max != "" && IsNumber(t.sequenceID) && Number(t.sequenceID) <= Number(max)
      ensures cursor != "" ==> Number(cursor) < Number(t.sequenceID)
    {
      var m :| m in msgs && Deliverable(m, thread) && Fresh(m, cursor) && TicketOf(m) == t;
      assert TicketOf(m).sequenceID == m.sequenceID;
      if cursor != "" {
        FreshIsAbove(m, cursor);
      }
    }
  }

  /** Appending tickets above the cursor to tickets up to it keeps the whole list ascending. */
  lemma AscendingAppend(earlier: seq<Ticket>, msgs: seq<Message>, log: seq<Message>, thread: string, cursor: string,
                        max: string)
    requires WellFormedLog(log) && Faithful(msgs, log)
    requires CursorOK(cursor) && HighestAbove(msgs, cursor, max)
    requires Ascending(earlier) && NotAbove(earlier, cursor)
    ensures Ascending(earlier + TicketsAbove(msgs, thread, cursor))
    ensures CursorOK(NewCursor(cursor, max))
    ensures NotAbove(earlier + TicketsAbove(msgs, thread, cursor), NewCursor(cursor, max))
  {
    hide TrimSpace, Decimal.ParseUint, Fresh, WellFormedLog, TicketsAbove, HighestAbove, Sorted, NoRepeats;
    TicketsAboveAscend(msgs, log, thread, cursor);
    NewTicketsBetween(msgs, thread, cursor, max);
    var added := TicketsAbove(msgs, thread, cursor);
    if max != "" {
      MaxIsNumber(msgs, cursor, max);
      if cursor != "" {
        CursorAdvances(msgs, cursor, max);
      }
    }
    forall i, j | 0 <= i < |earlier| && 0 <= j < |added|
      ensures Number(earlier[i].sequenceID) < Number(added[j].sequenceID)
    {
      assert earlier[i] in earlier && added[j] in added;
    }
  }

  lemma MaxIsNumber(msgs: seq<Message>, cursor: string, max: string)
    requires HighestAbove(msgs, cursor, max) && max != ""
    ensures IsNumber(max)
  {
  }

  /** A covering window closes the gap: what was visible up to the old cursor, followed by the new tickets,
      is what is visible up to the new cursor. */
  lemma CatchesUp(raw: seq<RawMessage>, msgs: seq<Message>, log: seq<Message>, thread: string, cursor: string,
                  max: string)
    requires WellFormedLog(log) && CursorOK(cursor) && HighestAbove(msgs, cursor, max)
    requires Listing(raw, msgs) && HonestWindow(raw, log) && CoveringWindow(raw, log, cursor)
    ensures TicketsUpTo(log, thread, cursor) + TicketsAbove(msgs, thread, cursor)
         == TicketsUpTo(log, thread, NewCursor(cursor, max))
  {
    hide TrimSpace, Decimal.ParseUint, Fresh, TicketsAbove, TicketsUpTo, HonestWindow, CoveringWindow, Listing,
         HighestAbove, Faithful, WellFormedLog;
    HonestListing(raw, msgs, log);
    var before, added, after :=
      TicketsUpTo(log, thread, cursor), TicketsAbove(msgs, thread, cursor),
      TicketsUpTo(log, thread, NewCursor(cursor, max));
    TicketsUpToAscend(log, thread, cursor);
    TicketsUpToAscend(log, thread, NewCursor(cursor, max));
    VisibleNotAbove(log, thread, cursor);
    AscendingAppend(before, msgs, log, thread, cursor, max);
    forall t
      ensures t in before + added <==> t in after
    {
      if t in before + added { StaysVisible(msgs, log, thread, cursor, max, t); }
      if t in after { BecomesVisible(raw, msgs, log, thread, cursor, max, t); }
    }
    AscendingUnique(before + added, after);
  }

  lemma VisibleNotAbove(log: seq<Message>, thread: string, cursor: string)
    requires WellFormedLog(log) && CursorOK(cursor)
    ensures NotAbove(TicketsUpTo(log, thread, cursor), cursor)
  {
    hide TrimSpace, Decimal.ParseUint, Deliverable, EventID, CompareSequenceID, NoRepeats;
    TicketsUpToMembers(log, thread, cursor);
    forall t | t in TicketsUpTo(log, thread, cursor)
      ensures cursor != "" && IsNumber(t.sequenceID) && Number(t.sequenceID) <= Number(cursor)
    {
      var m :| m in log && Deliverable(m, thread) && !Fresh(m, cursor) && TicketOf(m) == t;
      assert TicketOf(m).sequenceID == m.sequenceID;
      FreshIsAbove(m, cursor);
    }
  }

  lemma CopiesAgree(m: Message, o: Message, thread: string, cursor: string)
    requires Copies(m, o)
    ensures TicketOf(m) == TicketOf(o)
    ensures Deliverable(m, thread) == Deliverable(o, thread)
    ensures Fresh(m, cursor) == Fresh(o, cursor)
  {
    hide TrimSpace;
  }

  lemma StaysVisible(msgs: seq<Message>, log: seq<Message>, thread: string, cursor: string, max: string, t: Ticket)
    requires WellFormedLog(log) && CursorOK(cursor) && Faithful(msgs, log) && HighestAbove(msgs, cursor, max)
    requires t in TicketsUpTo(log, thread, cursor) || t in TicketsAbove(msgs, thread, cursor)
    ensures t in TicketsUpTo(log, thread, NewCursor(cursor, max))
  {
    hide TrimSpace, Decimal.ParseUint, FromUser, EventID, CompareSequenceID, NoRepeats;
    TicketsUpToMembers(log, thread, cursor);
    TicketsAboveMembers(msgs, thread, cursor);
    TicketsUpToMembers(log, thread, NewCursor(cursor, max));
    if t in TicketsUpTo(log, thread, cursor) {
      var o :| o in log && Deliverable(o, thread) && !Fresh(o, cursor) && TicketOf(o) == t;
      if max != "" {
        CursorAdvances(msgs, cursor, max);
        FreshIsAbove(o, cursor);
        FreshIsAbove(o, max);
      }
    } else {
      var m :| m in msgs && Deliverable(m, thread) && Fresh(m, cursor) && TicketOf(m) == t;
      var k :| 0 <= k < |log| && Copies(m, log[k]);
      CopiesAgree(m, log[k], thread, max);
      FreshIsAbove(m, max);
      assert log[k] in log;
    }
  }

  lemma BecomesVisible(raw: seq<RawMessage>, msgs: seq<Message>, log: seq<Message>, thread: string, cursor: string,
                       max: string, t: Ticket)
    requires WellFormedLog(log) && CursorOK(cursor) && HighestAbove(msgs, cursor, max)
    requires Listing(raw, msgs) && HonestWindow(raw, log) && CoveringWindow(raw, log, cursor)
    requires t in TicketsUpTo(log, thread, NewCursor(cursor, max))
    ensures t in TicketsUpTo(log, thread, cursor) || t in TicketsAbove(msgs, thread, cursor)
  {
    hide TrimSpace, Decimal.ParseUint, FromUser, EventID, CompareSequenceID, NoRepeats, Listing, HonestWindow,
         CoveringWindow, HighestAbove;
    TicketsUpToMembers(log, thread, cursor);
    TicketsAboveMembers(msgs, thread, cursor);
    TicketsUpToMembers(log, thread, NewCursor(cursor, max));
    var o :| o in log && Deliverable(o, thread) && !Fresh(o, NewCursor(cursor, max)) && TicketOf(o) == t;
    if Fresh(o, cursor) {
      var k :| 0 <= k < |log| && log[k] == o;
      var m := CoveredListing(raw, msgs, log, cursor, k);
      CopiesAgree(m, o, thread, cursor);
    }
  }

  /** After a poll with a covering window nothing in the log is above the new cursor. */
  lemma NothingAbove(raw: seq<RawMessage>, msgs: seq<Message>, log: seq<Message>, cursor: string, max: string, k: nat)
    requires WellFormedLog(log) && CursorOK(cursor) && HighestAbove(msgs, cursor, max)
    requires Listing(raw, msgs) && HonestWindow(raw, log) && CoveringWindow(raw, log, cursor)
    requires k < |log| && HasID(log[k])
    ensures !Fresh(log[k], NewCursor(cursor, max))
  {
    hide TrimSpace, Decimal.ParseUint, CompareSequenceID, NoRepeats, Listing, HonestWindow, CoveringWindow;
    var o := log[k];
    if Fresh(o, cursor) {
      var m := CoveredListing(raw, msgs, log, cursor, k);
      assert HasID(m) && Fresh(m, cursor) && m.sequenceID == o.sequenceID;
      FreshIsAbove(o, max);
    } else if max != "" {
      CursorAdvances(msgs, cursor, max);
      FreshIsAbove(o, cursor);
      FreshIsAbove(o, max);
    }
  }

  lemma {:induction false} AllVisible(log: seq<Message>, thread: string, cursor: string)
    requires forall o | o in log && HasID(o) :: !Fresh(o, cursor)
    ensures TicketsUpTo(log, thread, cursor) == TicketsAbove(log, thread, "")
  {
    hide FromUser, HasID, TicketOf, CompareSequenceID, TrimSpace;
    if log != [] {
      var n := |log| - 1;
      assert forall o | o in log[..n] :: o in log;
      AllVisible(log[..n], thread, cursor);
    }
  }
}
