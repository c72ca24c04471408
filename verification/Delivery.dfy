/** What one poll adds to the message events of a thread. */
module Delivery {
  import opened Text
  import Decimal
  import opened SequenceOrder
  import opened Model
  import opened Reactions
  import opened SyncState

  /** The identity of a delivered message: event id, sequence id and sender. */
  datatype Ticket = Ticket(id: string, sequenceID: string, sender: string)

  function TicketOf(m: Message): Ticket {
    Ticket(EventID(m), m.sequenceID, TrimSpace(m.senderID))
  }

  /** The message events of a thread, in queue order. */
  function Delivered(queue: seq<Event>, thread: string): seq<Ticket> {
    if queue == [] then []
    else
      var last := queue[|queue| - 1];
      Delivered(queue[..|queue| - 1], thread)
      + if last.MessageEvent? && last.thread == thread
        then [Ticket(last.id, last.message.sequenceID, last.sender)] else []
  }

  predicate HasID(m: Message) {
    TrimSpace(m.messageID) != ""
  }

  predicate Deliverable(m: Message, thread: string) {
    HasID(m) && FromUser(m, thread)
  }

  /** The tickets of the deliverable messages above the cursor. */
  function TicketsAbove(msgs: seq<Message>, thread: string, cursor: string): seq<Ticket> {
    if msgs == [] then []
    else
      var last := msgs[|msgs| - 1];
      TicketsAbove(msgs[..|msgs| - 1], thread, cursor)
      + if Deliverable(last, thread) && Fresh(last, cursor) then [TicketOf(last)] else []
  }

  /** The tickets of the deliverable messages at or below the cursor. */
  function TicketsUpTo(msgs: seq<Message>, thread: string, cursor: string): seq<Ticket> {
    if msgs == [] then []
    else
      var last := msgs[|msgs| - 1];
      TicketsUpTo(msgs[..|msgs| - 1], thread, cursor)
      + if Deliverable(last, thread) && !Fresh(last, cursor) then [TicketOf(last)] else []
  }

  // ----- what the operations do to the queue and to the rows

  lemma SyncReactionsQueuesNoMessage(st: ClientState, s: Settings, view: BridgeView, thread: string, m: Message,
                                     messageID: string, t: string)
    ensures var after := SyncReactions(st, s, view, thread, m, messageID);
            && Delivered(after.queue, t) == Delivered(st.queue, t)
            && after.rows == st.rows && after.horizons == st.horizons
  {
    hide TrimSpace, ResolveTarget, Grouped, Mappable, SyncMessageID, WantsEmptySync;
    var after := SyncReactions(st, s, view, thread, m, messageID);
    if after.queue != st.queue {
      assert after.queue[..|after.queue| - 1] == st.queue;
    }
  }

  lemma PollHorizonsQueuesNoMessage(st: ClientState, s: Settings, thread: string, now: int, reply: HorizonReply,
                                    lookup: LastSentLookup, t: string)
    ensures var after := PollHorizons(st, s, thread, now, reply, lookup);
            Delivered(after.queue, t) == Delivered(st.queue, t) && after.rows == st.rows
  {
    hide TrimSpace, NewReceipt, ReceiptPollDue;
    var after := PollHorizons(st, s, thread, now, reply, lookup);
    if after.queue != st.queue {
      assert after.queue[..|after.queue| - 1] == st.queue;
    }
  }

  /** The loop of pollThread queues a message event for exactly the deliverable messages above the cursor,
      in list order, and counts each of them twice. */
  lemma {:induction false} IngestDelivers(st: ClientState, s: Settings, view: BridgeView, thread: string,
                                          cursor: string, msgs: seq<Message>, t: string)
    ensures var done := IngestAll(st, s, view, thread, cursor, msgs);
            && Delivered(done.st.queue, t)
               == Delivered(st.queue, t) + (if t == TrimSpace(thread) then TicketsAbove(msgs, thread, cursor) else [])
            && done.ingested == 2 * |TicketsAbove(msgs, thread, cursor)|
            && done.st.rows == st.rows
            && done.st.horizons == st.horizons
  {
    hide TrimSpace, FromUser, EffectiveID, SyncReactions, CompareSequenceID;
    if msgs != [] {
      var n := |msgs| - 1;
      IngestDelivers(st, s, view, thread, cursor, msgs[..n], t);
      var p := IngestAll(st, s, view, thread, cursor, msgs[..n]);
      IngestDeliversOne(p, s, view, thread, cursor, msgs[n], t);
    }
  }

  lemma IngestDeliversOne(p: Progress, s: Settings, view: BridgeView, thread: string, cursor: string, m: Message,
                          t: string)
    ensures var after := Ingest(p, s, view, thread, cursor, m);
            && Delivered(after.st.queue, t) == Delivered(p.st.queue, t)
               + (if t == TrimSpace(thread) && Deliverable(m, thread) && Fresh(m, cursor) then [TicketOf(m)] else [])
            && after.ingested == p.ingested + (if Deliverable(m, thread) && Fresh(m, cursor) then 2 else 0)
            && after.st.rows == p.st.rows
            && after.st.horizons == p.st.horizons
  {
    hide TrimSpace, FromUser, EffectiveID, EventID, SyncReactions, CompareSequenceID;
    var id := EffectiveID(m);
    if HasID(m) && !Fresh(m, cursor) {
      SyncReactionsQueuesNoMessage(p.st, s, view, thread, m, id, t);
    } else if Deliverable(m, thread) {
      var marked := if id != "" && m.reactions != [] then p.st.(reactionSeen := p.st.reactionSeen + {id}) else p.st;
      var queued := marked.(queue := marked.queue + [ToEvent(s, thread, m)]);
      assert queued.queue[..|queued.queue| - 1] == p.st.queue;
      SyncReactionsQueuesNoMessage(queued, s, view, thread, m, EventID(m), t);
    }
  }

  // ----- the cursor candidate

  predicate Numeric(msgs: seq<Message>) {
    forall i | 0 <= i < |msgs| :: IsNumber(msgs[i].sequenceID)
  }

  /** After the loop maxSeq is the highest sequence id among the fresh messages that have an id, or blank. */
  lemma {:induction false} MaxSeqIsHighest(st: ClientState, s: Settings, view: BridgeView, thread: string,
                                           cursor: string, msgs: seq<Message>)
    requires Numeric(msgs)
    ensures var max := IngestAll(st, s, view, thread, cursor, msgs).maxSeq;
            if max == "" then forall m | m in msgs && HasID(m) :: !Fresh(m, cursor)
            else
              && (exists m | m in msgs && HasID(m) && Fresh(m, cursor) :: m.sequenceID == max)
              && forall m | m in msgs && HasID(m) && Fresh(m, cursor) :: Number(m.sequenceID) <= Number(max)
  {
    hide TrimSpace, FromUser, EffectiveID, EventID, SyncReactions, Decimal.ParseUint, ToEvent, Fresh;
    if msgs != [] {
      var n := |msgs| - 1;
      var before, last := msgs[..n], msgs[n];
      MaxSeqIsHighest(st, s, view, thread, cursor, before);
      Decimal.NumeralIsTrimmed(last.sequenceID);
      assert forall m | m in msgs :: m in before || m == last;
      assert forall m | m in before :: m in msgs;
      var p := IngestAll(st, s, view, thread, cursor, before);
      var max := IngestAll(st, s, view, thread, cursor, msgs).maxSeq;
      if HasID(last) && Fresh(last, cursor) {
        assert max == last.sequenceID || max == p.maxSeq;
      } else {
        assert max == p.maxSeq;
      }
    }
  }
}
