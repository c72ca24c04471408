/** What the message events of a poll hold, spelled out on the messages themselves. */
module EventContent {
  import opened Text
  import opened SequenceOrder
  import opened Model
  import opened Reactions
  import opened SyncState
  import opened Delivery

  /** `core` stands between two blank margins. */
  predicate Between(s: string, left: string, core: string, right: string) {
    s == left + core + right && AllSpace(left) && AllSpace(right) && Trimmed(core)
  }

  /** What is left of a trimmed id without the legacy "msg/" in front. */
  function WithoutLegacy(core: string): string {
    if |core| >= 4 && core[0] == 'm' && core[1] == 's' && core[2] == 'g' && core[3] == '/' then core[4..] else core
  }

  /** The id comes from the message id without blanks and legacy prefix, if that leaves anything; else from the
      sequence id in the same way; else it is the trimmed message id. */
  ghost predicate HoldsID(m: Message, id: string) {
    forall left, core, right, left', core', right' |
      Between(m.messageID, left, core, right) && Between(m.sequenceID, left', core', right') ::
      id == if WithoutLegacy(core) != "" then WithoutLegacy(core)
            else if WithoutLegacy(core') != "" then WithoutLegacy(core')
            else core
  }

  /** The sender is a user: not blank, not the thread itself whatever the case, and no thread id. */
  predicate SentByUser(sender: string, thread: string) {
    && sender != ""
    && ToLower(sender) != ToLower(TrimSpace(thread))
    && !Contains(ToLower(sender), "@thread.v2")
    && !Contains(ToLower(sender), "@thread.skype")
    && !Contains(ToLower(sender), "@unq.gbl.spaces")
  }

  /** A message that becomes an event: it has an id, is above the cursor and was sent by a user. */
  predicate BecomesEvent(m: Message, thread: string, cursor: string) {
    && TrimSpace(m.messageID) != ""
    && (cursor == "" || CompareSequenceID(TrimSpace(m.sequenceID), cursor) > 0)
    && SentByUser(TrimSpace(m.senderID), thread)
  }

  function Chosen(msgs: seq<Message>, thread: string, cursor: string): seq<Message> {
    if msgs == [] then []
    else
      var last := msgs[|msgs| - 1];
      Chosen(msgs[..|msgs| - 1], thread, cursor) + if BecomesEvent(last, thread, cursor) then [last] else []
  }

  ghost predicate HoldsMessage(e: Event, s: Settings, thread: string, m: Message) {
    && e.MessageEvent?
    && e.thread == TrimSpace(thread)
    && e.message == m
    && e.sender == TrimSpace(m.senderID)
    && (e.isFromMe <==> TrimSpace(s.selfID) != "" && TrimSpace(s.selfID) == TrimSpace(m.senderID))
    && HoldsID(m, e.id)
  }

  function MessageEvents(queue: seq<Event>): seq<Event> {
    if queue == [] then []
    else
      var last := queue[|queue| - 1];
      MessageEvents(queue[..|queue| - 1]) + if last.MessageEvent? then [last] else []
  }

  lemma NextEvent(queue: seq<Event>, e: Event)
    ensures MessageEvents(queue + [e]) == MessageEvents(queue) + if e.MessageEvent? then [e] else []
  {
    assert (queue + [e])[..|queue|] == queue;
  }

  lemma CoreIsTrimmed(s: string, left: string, core: string, right: string)
    requires Between(s, left, core, right)
    ensures TrimSpace(s) == core
  {
    TrimSpaceUnique(left, core, right);
  }

  lemma LegacyPrefix(core: string)
    ensures WithoutLegacy(core) == if HasPrefix(core, "msg/") then core[4..] else core
  {
    if HasPrefix(core, "msg/") {
      assert core[..4] == "msg/";
    } else if |core| >= 4 {
      assert core[..4] != "msg/";
    }
  }

  lemma EventIDHolds(m: Message)
    ensures HoldsID(m, EventID(m))
  {
    hide TrimSpace;
    forall left, core, right, left', core', right' |
      Between(m.messageID, left, core, right) && Between(m.sequenceID, left', core', right')
      ensures EventID(m) == if WithoutLegacy(core) != "" then WithoutLegacy(core)
                            else if WithoutLegacy(core') != "" then WithoutLegacy(core')
                            else core
    {
      CoreIsTrimmed(m.messageID, left, core, right);
      CoreIsTrimmed(m.sequenceID, left', core', right');
      LegacyPrefix(core);
      LegacyPrefix(core');
    }
  }

  lemma UserSent(m: Message, thread: string)
    ensures FromUser(m, thread) <==> SentByUser(TrimSpace(m.senderID), thread)
  {
    TrimTwice(m.senderID);
    hide TrimSpace, Contains, ToLower;
  }

  lemma SyncQueuesNoEvent(st: ClientState, s: Settings, view: BridgeView, thread: string, m: Message, id: string)
    ensures MessageEvents(SyncReactions(st, s, view, thread, m, id).queue) == MessageEvents(st.queue)
  {
    hide TrimSpace, ResolveTarget, Grouped, Mappable, SyncMessageID, WantsEmptySync, MessageEvents;
    var after := SyncReactions(st, s, view, thread, m, id);
    if after.queue != st.queue {
      NextEvent(st.queue, after.queue[|st.queue|]);
    }
  }

  /** The events `es` hold the chosen messages, one by one and in order. */
  ghost predicate HoldAll(es: seq<Event>, s: Settings, thread: string, ms: seq<Message>) {
    |es| == |ms| && forall k | 0 <= k < |es| :: HoldsMessage(es[k], s, thread, ms[k])
  }

  lemma IngestOne(p: Progress, s: Settings, view: BridgeView, thread: string, cursor: string, m: Message)
    ensures var after := Ingest(p, s, view, thread, cursor, m);
            MessageEvents(after.st.queue) == MessageEvents(p.st.queue)
              + if BecomesEvent(m, thread, cursor) then [ToEvent(s, thread, m)] else []
    ensures HoldsMessage(ToEvent(s, thread, m), s, thread, m)
  {
    EventIDHolds(m);
    UserSent(m, thread);
    hide TrimSpace, FromUser, SentByUser, EffectiveID, EventID, SyncReactions, CompareSequenceID, MessageEvents,
         HoldsID;
    var id := EffectiveID(m);
    if HasID(m) && !Fresh(m, cursor) {
      SyncQueuesNoEvent(p.st, s, view, thread, m, id);
    } else if Deliverable(m, thread) {
      var marked := if id != "" && m.reactions != [] then p.st.(reactionSeen := p.st.reactionSeen + {id}) else p.st;
      var queued := marked.(queue := marked.queue + [ToEvent(s, thread, m)]);
      NextEvent(p.st.queue, ToEvent(s, thread, m));
      SyncQueuesNoEvent(queued, s, view, thread, m, EventID(m));
    }
  }

  lemma HoldOneMore(added: seq<Event>, ms: seq<Message>, e: Event, m: Message, s: Settings, thread: string)
    requires HoldAll(added, s, thread, ms) && HoldsMessage(e, s, thread, m)
    ensures HoldAll(added + [e], s, thread, ms + [m])
  {
    hide HoldsMessage;
  }

  lemma {:induction false} IngestQueues(st: ClientState, s: Settings, view: BridgeView, thread: string, cursor: string,
                                        msgs: seq<Message>) returns (added: seq<Event>)
    ensures MessageEvents(IngestAll(st, s, view, thread, cursor, msgs).st.queue) == MessageEvents(st.queue) + added
    ensures HoldAll(added, s, thread, Chosen(msgs, thread, cursor))
  {
    if msgs == [] {
      added := [];
    } else {
      var n := |msgs| - 1;
      added := IngestQueues(st, s, view, thread, cursor, msgs[..n]);
      var m, e := msgs[n], ToEvent(s, thread, msgs[n]);
      IngestOne(IngestAll(st, s, view, thread, cursor, msgs[..n]), s, view, thread, cursor, m);
      HoldOneMore(added, Chosen(msgs[..n], thread, cursor), e, m, s, thread);
      hide Ingest, MessageEvents, BecomesEvent, HoldsMessage, HoldAll, ToEvent, TrimSpace;
      if BecomesEvent(m, thread, cursor) {
        added := added + [e];
      }
    }
  }

  /** One poll queues an event for exactly the messages with an id above the cursor that a user sent, in list order,
      and each event holds its message, the trimmed sender, whether that is the own user, and the right id. */
  lemma PollQueuesEvents(st: ClientState, s: Settings, th: ThreadState, msgs: seq<Message>, input: PollInput)
    returns (added: seq<Event>)
    ensures MessageEvents(PollListed(st, s, th, msgs, input).0.queue) == MessageEvents(st.queue) + added
    ensures HoldAll(added, s, th.threadID, Chosen(msgs, th.threadID, TrimSpace(th.row.lastSequenceID)))
  {
    hide TrimSpace, IngestAll, UpdateCursor, MessageEvents, NewReceipt, ReceiptPollDue, HoldAll, Chosen;
    var cursor := TrimSpace(th.row.lastSequenceID);
    added := IngestQueues(st, s, input.view, th.threadID, cursor, msgs);
    var done := IngestAll(st, s, input.view, th.threadID, cursor, msgs);
    var after := PollListed(st, s, th, msgs, input).0;
    if after.queue != done.st.queue {
      NextEvent(done.st.queue, after.queue[|done.st.queue|]);
    }
  }

  // ----- the target of a reaction sync

  /** The two ways an id may be written: without and with the legacy prefix. */
  function Spellings(value: string): seq<string> {
    var id := WithoutLegacy(TrimSpace(value));
    if id == "" then [] else [TrimSpace(id), "msg/" + id]
  }

  function AllSpellings(messageID: string, m: Message): seq<string> {
    Spellings(messageID) + Spellings(m.messageID) + Spellings(m.sequenceID) + Spellings(m.clientMessageID)
  }

  /** `c` is `all` with the repeats dropped, as far as looking for the first known one goes. */
  ghost predicate SameSearch(c: seq<string>, all: seq<string>, known: set<string>) {
    && (c == [] <==> all == [])
    && (c != [] ==> c[0] == all[0])
    && (forall v :: v in c <==> v in all)
    && FirstKnown(c, known) == FirstKnown(all, known)
  }

  lemma {:induction false} FirstKnownAppend(a: seq<string>, b: seq<string>, known: set<string>)
    ensures FirstKnown(a + b, known)
         == if FirstKnown(a, known).Some? then FirstKnown(a, known) else FirstKnown(b, known)
    ensures FirstKnown(a, known).None? <==> forall v | v in a :: v !in known
  {
    if a == [] {
      assert a + b == b;
    } else {
      assert (a + b)[1..] == a[1..] + b;
      FirstKnownAppend(a[1..], b, known);
      assert forall v :: v in a <==> v == a[0] || v in a[1..];
    }
  }

  lemma OneMore(c: seq<string>, all: seq<string>, v: string, known: set<string>)
    requires SameSearch(c, all, known) && v != "" && Trimmed(v)
    ensures SameSearch(AddCandidate(c, v), all + [v], known)
  {
    TrimSpaceOfTrimmed(v);
    hide TrimSpace;
    FirstKnownAppend(all, [v], known);
    FirstKnownAppend(c, [v], known);
    assert [v][1..] == [];
  }

  lemma BothSpellings(c: seq<string>, all: seq<string>, value: string, known: set<string>)
    requires SameSearch(c, all, known)
    ensures SameSearch(AddCanonicalAndLegacy(c, value), all + Spellings(value), known)
  {
    var id := WithoutLegacy(TrimSpace(value));
    BothAdded(c, value);
    BothTrimmed(value);
    hide TrimSpace, AddCandidate, AddCanonicalAndLegacy, SameSearch, WithoutLegacy;
    if id == "" {
      assert all + [] == all;
    } else {
      OneMore(c, all, TrimSpace(id), known);
      OneMore(AddCandidate(c, TrimSpace(id)), all + [TrimSpace(id)], "msg/" + id, known);
      assert all + Spellings(value) == all + [TrimSpace(id)] + ["msg/" + id];
    }
  }

  lemma BothAdded(c: seq<string>, value: string)
    ensures var id := WithoutLegacy(TrimSpace(value));
            AddCanonicalAndLegacy(c, value) ==
              if id == "" then c else AddCandidate(AddCandidate(c, TrimSpace(id)), "msg/" + id)
  {
    var v := TrimSpace(value);
    TrimTwice(value);
    LegacyPrefix(v);
    AddTrimmed(c, WithoutLegacy(v));
    hide TrimSpace, AddCandidate, WithoutLegacy;
  }

  lemma BothTrimmed(value: string)
    ensures var id := WithoutLegacy(TrimSpace(value));
            id != "" ==> TrimSpace(id) != "" && Trimmed(TrimSpace(id)) && Trimmed("msg/" + id)
  {
    var v := TrimSpace(value);
    var id := WithoutLegacy(v);
    TrimSpaceIsTrimmed(value);
    TrimSpaceIsTrimmed(id);
    hide TrimSpace;
    if id != "" {
      assert id[|id| - 1] == v[|v| - 1];
      assert ("msg/" + id)[|"msg/" + id| - 1] == id[|id| - 1] && ("msg/" + id)[0] == 'm';
      KeepsLast(id);
    }
  }

  lemma AddTrimmed(c: seq<string>, v: string)
    ensures AddCandidate(c, v) == AddCandidate(c, TrimSpace(v))
    ensures v == "" ==> AddCandidate(c, v) == c
  {
    TrimTwice(v);
  }

  lemma KeepsLast(s: string)
    ensures s != "" && !IsSpace(s[|s| - 1]) ==> TrimSpace(s) != ""
  {
    var left, right := TrimSpaceSplits(s);
    if s != "" && TrimSpace(s) == "" {
      assert AllSpace(left + "" + right);
    }
  }

  /** A sync targets the first spelling of the given id, the message id, the sequence id and the client id that the
      bridge knows, and the very first of them when it knows none. */
  lemma TargetIsFirstKnown(messageID: string, m: Message, known: set<string>)
    ensures var all := AllSpellings(messageID, m);
            ResolveTarget(messageID, m, known) ==
              if all == [] then "" else if FirstKnown(all, known).Some? then FirstKnown(all, known).value else all[0]
  {
    hide TrimSpace, AddCanonicalAndLegacy, Spellings;
    var c0 := AddCanonicalAndLegacy([], messageID);
    BothSpellings([], [], messageID, known);
    assert [] + Spellings(messageID) == Spellings(messageID);
    BothSpellings(c0, Spellings(messageID), m.messageID, known);
    var c1 := AddCanonicalAndLegacy(c0, m.messageID);
    BothSpellings(c1, Spellings(messageID) + Spellings(m.messageID), m.sequenceID, known);
    var c2 := AddCanonicalAndLegacy(c1, m.sequenceID);
    BothSpellings(c2, Spellings(messageID) + Spellings(m.messageID) + Spellings(m.sequenceID), m.clientMessageID,
                  known);
  }

  // ----- the saved row

  /** The latest timestamp among the messages above the cursor, and at least 0. */
  ghost predicate LatestTime(msgs: seq<Message>, cursor: string, ts: int) {
    && ts >= 0
    && (forall m | m in msgs && TrimSpace(m.messageID) != "" && Fresh(m, cursor) :: m.timestamp <= ts)
    && (ts > 0 ==>
          exists m | m in msgs && TrimSpace(m.messageID) != "" && Fresh(m, cursor) :: m.timestamp == ts)
  }

  lemma {:induction false} LoopFindsLatest(st: ClientState, s: Settings, view: BridgeView, thread: string,
                                           cursor: string, msgs: seq<Message>)
    ensures LatestTime(msgs, cursor, IngestAll(st, s, view, thread, cursor, msgs).maxTS)
  {
    hide TrimSpace, Fresh, SyncReactions, FromUser, EffectiveID, CompareSequenceID, ToEvent, EventID;
    if msgs != [] {
      var n := |msgs| - 1;
      LoopFindsLatest(st, s, view, thread, cursor, msgs[..n]);
      var before := IngestAll(st, s, view, thread, cursor, msgs[..n]).maxTS;
      assert forall m :: m in msgs <==> m in msgs[..n] || m == msgs[n];
      if m :| m in msgs[..n] && TrimSpace(m.messageID) != "" && Fresh(m, cursor) && m.timestamp == before {
        assert m in msgs;
      }
    }
  }

  /** When anything is above the cursor, the row of the thread keeps all but its cursor and its time, which becomes the
      latest one; a row of another thread stays as it is. */
  lemma PollSavesRow(st: ClientState, s: Settings, th: ThreadState, msgs: seq<Message>, input: PollInput)
    requires th.threadID in st.rows && TrimSpace(th.threadID) == th.threadID && th.threadID != ""
    ensures var cursor, after := TrimSpace(th.row.lastSequenceID), PollListed(st, s, th, msgs, input).0;
            && after.rows.Keys == st.rows.Keys
            && (forall t | t in st.rows && t != th.threadID :: after.rows[t] == st.rows[t])
            && var before, saved := st.rows[th.threadID], after.rows[th.threadID];
            && saved.conversation == before.conversation
            && saved.isOneToOne == before.isOneToOne && saved.name == before.name
            && (saved != before ==> LatestTime(msgs, cursor, saved.lastMessageTS))
  {
    hide TrimSpace, IngestAll, NewReceipt, ReceiptPollDue, LatestTime;
    var cursor := TrimSpace(th.row.lastSequenceID);
    IngestDelivers(st, s, input.view, th.threadID, cursor, msgs, "");
    LoopFindsLatest(st, s, input.view, th.threadID, cursor, msgs);
    hide Delivered, TicketsAbove;
  }
}
