/** The client object of one login: the thread rows, the event queue and the small caches, updated in place. */
module TeamsClient {
  import opened Text
  import opened Model
  import LM = ListMessages
  import opened Reactions
  import opened SyncState
  import SequenceOrder
  import SyncRuns

  /** The outcome of the HTTP exchange behind ListMessages. */
  datatype Fetch = FetchFailed | Fetched(body: seq<LM.RawMessage>)

  /** A conversation after NormalizeForSelf. */
  datatype Conversation = Conversation(threadID: string, conversationID: string, isOneToOne: bool, roomName: string)

  class Client {
    const settings: Settings
    var rows: map<string, Row>
    var queue: seq<Event>
    var reactionSeen: set<string>
    var receiptPoll: map<string, int>
    var horizons: map<(string, string), int>

    ghost function State(): ClientState
      reads this
    {
      ClientState(rows, queue, reactionSeen, receiptPoll, horizons)
    }

    constructor (settings: Settings)
      ensures this.settings == settings
      ensures State() == ClientState(map[], [], {}, map[], map[])
    {
      this.settings := settings;
      rows, queue, reactionSeen, receiptPoll, horizons := map[], [], {}, map[], map[];
    }

    method QueueRemoteEvent(e: Event)
      modifies this`queue
      ensures queue == old(queue) + [e]
    {
      queue := queue + [e];
    }

    // ----- thread rows

    /** A discovered thread keeps the cursor it has; a new one starts without. */
    method UpsertThread(thread: string, row: Row) returns (ok: bool)
      modifies this`rows
      ensures rows == Upsert(old(rows), thread, row)
      ensures ok <==> TrimSpace(thread) != "" && TrimSpace(row.conversation) != ""
    {
      var id, conversation := TrimSpace(thread), TrimSpace(row.conversation);
      if id == "" || conversation == "" {
        return false;
      }
      if id in rows {
        rows := rows[id := rows[id].(conversation := conversation, isOneToOne := row.isOneToOne, name := row.name)];
      } else {
        rows := rows[id := row.(conversation := conversation)];
      }
      ok := true;
    }

    method UpdateThreadCursor(thread: string, cursor: string, ts: int) returns (ok: bool)
      modifies this`rows
      ensures rows == UpdateCursor(old(rows), thread, cursor, ts)
      ensures ok <==> TrimSpace(thread) != ""
    {
      var id := TrimSpace(thread);
      if id == "" {
        return false;
      }
      if id in rows {
        rows := rows[id := rows[id].(lastSequenceID := cursor, lastMessageTS := ts)];
      }
      ok := true;
    }

    /** Every row once, in whatever order the table yields. */
    method ListForLogin() returns (listed: seq<ThreadState>)
      ensures exists order | SyncRuns.EachRowOnce(rows, order) :: listed == SyncRuns.Snapshot(rows, order)
    {
      listed := [];
      ghost var order: seq<string> := [];
      var left := rows.Keys;
      while left != {}
        invariant left <= rows.Keys
        invariant forall t | t in rows :: t in left <==> t !in order
        invariant forall i | 0 <= i < |order| :: order[i] in rows
        invariant forall i, j | 0 <= i < j < |order| :: order[i] != order[j]
        invariant listed == SyncRuns.Snapshot(rows, order)
      {
        var t :| t in left;
        listed := listed + [ThreadState(t, rows[t])];
        order := order + [t];
        left := left - {t};
      }
    }

    /** The discovery loop of refreshThreads: conversations without ids are skipped, the others upserted and
        resynced. */
    method RefreshThreads(conversations: seq<Conversation>)
      modifies this`rows, this`queue
      ensures (rows, queue) == Discovered(old(rows), old(queue), conversations)
    {
      hide TrimSpace, Upsert;
      for i := 0 to |conversations|
        invariant (rows, queue) == Discovered(old(rows), old(queue), conversations[..i])
      {
        assert conversations[..i + 1][..i] == conversations[..i];
        var c := conversations[i];
        if TrimSpace(c.threadID) == "" || TrimSpace(c.conversationID) == "" {
          continue;
        }
        var _ := UpsertThread(c.threadID, DiscoveredRow(c));
        QueueRemoteEvent(ResyncEvent(TrimSpace(c.threadID)));
      }
      assert conversations[..|conversations|] == conversations;
    }

    // ----- reactions

    method MarkReactionSeen(messageID: string, seen: bool) returns (existed: bool)
      modifies this`reactionSeen
      ensures existed <==> messageID in old(reactionSeen)
      ensures reactionSeen == if seen then old(reactionSeen) + {messageID} else old(reactionSeen) - {messageID}
    {
      existed := messageID in reactionSeen;
      if seen {
        reactionSeen := reactionSeen + {messageID};
      } else if existed {
        reactionSeen := reactionSeen - {messageID};
      }
    }

    method ShouldSendEmptyReactionSync(view: BridgeView, target: string) returns (send: bool)
      modifies this`reactionSeen
      ensures send <==> old(WantsEmptySync(State(), view, target))
      ensures reactionSeen == old(reactionSeen) - {target}
    {
      var remembered := MarkReactionSeen(target, false);
      if remembered {
        return true;
      }
      send := view.reactionsReadable && BridgedReactions(queue, target) != map[];
    }

    method QueueReactionSync(view: BridgeView, thread: string, m: Message, messageID: string)
      modifies this`queue, this`reactionSeen
      ensures State() == SyncReactions(old(State()), settings, view, thread, m, messageID)
    {
      hide TrimSpace, ResolveTarget, Grouped, Mappable, BridgedReactions;
      var id := TrimSpace(messageID);
      if id == "" {
        id := EffectiveID(m);
      }
      if id == "" {
        return;
      }
      var target := Resolve(id, m, view.messages);
      var users := BuildSyncData(settings, m.reactions);
      if users == map[] {
        var send := ShouldSendEmptyReactionSync(view, target);
        if !send {
          return;
        }
      }
      QueueRemoteEvent(ReactionEvent(TrimSpace(thread), target, users));
    }

    // ----- read horizons

    method ShouldPollReceipts(thread: string, now: int) returns (due: bool)
      modifies this`receiptPoll
      ensures due <==> ReceiptPollDue(old(receiptPoll), thread, now)
      ensures receiptPoll == if due then old(receiptPoll)[thread := now] else old(receiptPoll)
    {
      var last := if thread in receiptPoll then receiptPoll[thread] else 0;
      if last != 0 && now - last < RECEIPT_POLL_INTERVAL {
        return false;
      }
      receiptPoll := receiptPoll[thread := now];
      due := true;
    }

    /** The only entry of another user, found in one pass that stops at the second. */
    method OnlyRemote(thread: string, entries: seq<HorizonEntry>) returns (remote: Option<HorizonEntry>)
      ensures remote == if |RemoteEntries(settings, thread, entries)| == 1
                        then Some(RemoteEntries(settings, thread, entries)[0]) else None
    {
      hide RemoteEntry;
      remote := None;
      for i := 0 to |entries|
        invariant RemoteEntries(settings, thread, entries[..i])
               == match remote case None => [] case Some(e) => [e]
      {
        assert entries[..i + 1][..i] == entries[..i];
        if !RemoteEntry(settings, thread, entries[i]) {
          continue;
        }
        if remote.Some? {
          RemoteEntriesGrow(thread, entries, i + 1);
          return None;
        }
        remote := Some(entries[i]);
      }
      assert entries[..|entries|] == entries;
    }

    lemma {:induction false} RemoteEntriesGrow(thread: string, entries: seq<HorizonEntry>, n: nat)
      requires n <= |entries|
      ensures |RemoteEntries(settings, thread, entries[..n])| <= |RemoteEntries(settings, thread, entries)|
      decreases |entries|
    {
      hide RemoteEntry;
      if n < |entries| {
        var prefix := entries[..|entries| - 1];
        assert prefix[..n] == entries[..n];
        RemoteEntriesGrow(thread, prefix, n);
      } else {
        assert entries[..n] == entries;
      }
    }

    method PollConsumptionHorizons(threadID: string, now: int, reply: HorizonReply, lookup: LastSentLookup)
      modifies this`queue, this`receiptPoll, this`horizons
      ensures State() == PollHorizons(old(State()), settings, threadID, now, reply, lookup)
    {
      hide TrimSpace, RemoteEntries, LatestReadTS;
      var thread := TrimSpace(threadID);
      if thread == "" {
        return;
      }
      var due := ShouldPollReceipts(thread, now);
      if !due || !reply.Horizons? || TrimSpace(settings.selfID) == "" {
        return;
      }
      var remote := OnlyRemote(thread, reply.entries);
      if remote.None? {
        return;
      }
      var latest := LatestReadTS(remote.value.horizon);
      if latest.None? || latest.value <= 0 {
        return;
      }
      var user := TrimSpace(remote.value.id);
      if (thread, user) in horizons && latest.value <= horizons[(thread, user)] {
        return;
      }
      if lookup.None? {
        return;
      }
      QueueRemoteEvent(ReceiptEvent(thread, user, latest.value, lookup.value));
      horizons := horizons[(thread, user) := latest.value];
    }

    // ----- polling

    /** pollThread. A failed token refresh, a failed fetch and an undecodable body leave everything as it was. */
    method PollThread(th: ThreadState, authenticated: bool, fetch: Fetch, input: PollInput)
      returns (result: Option<nat>, polled: ThreadState, ghost msgs: seq<Message>)
      modifies this`rows, this`queue, this`reactionSeen, this`receiptPoll, this`horizons
      ensures result.Some? <==> authenticated && fetch.Fetched? && LM.Readable(fetch.body)
      ensures result.None? ==> State() == old(State()) && polled == th
      ensures result.Some? ==>
                && LM.Listing(fetch.body, msgs)
                && multiset(msgs) == multiset(LM.FirstCopies(fetch.body, |fetch.body|))
                && (State(), result.value) == PollListed(old(State()), settings, th, msgs, input)
                && polled == PolledThread(old(State()), settings, th, msgs, input)
    {
      hide TrimSpace, FromUser, EffectiveID, SyncReactions, Fresh, PollHorizons, UpdateCursor, LM.Listing,
           LM.Readable, LM.FirstCopies, ToEvent, EventID, SequenceOrder.CompareSequenceID;
      result, polled, msgs := None, th, [];
      if !authenticated || fetch.FetchFailed? {
        return;
      }
      var listing := LM.List(fetch.body);
      if listing.None? {
        return;
      }
      var list := listing.value;
      msgs := list;

      var cursor := TrimSpace(th.row.lastSequenceID);
      var maxSeq, maxTS, ingested := "", 0, 0;
      ghost var st0 := State();
      for i := 0 to |list|
        invariant Progress(State(), maxSeq, maxTS, ingested)
               == IngestAll(st0, settings, input.view, th.threadID, cursor, list[..i])
      {
        assert list[..i + 1][..i] == list[..i];
        var m := list[i];
        if TrimSpace(m.messageID) == "" {
          continue;
        }
        var id := EffectiveID(m);
        if !Fresh(m, cursor) {
          QueueReactionSync(input.view, th.threadID, m, id);
          continue;
        }
        var sequence := TrimSpace(m.sequenceID);
        if maxSeq == "" || SequenceOrder.CompareSequenceID(sequence, maxSeq) > 0 {
          maxSeq := sequence;
        }
        if m.timestamp > maxTS {
          maxTS := m.timestamp;
        }
        if !FromUser(m, th.threadID) {
          continue;
        }
        if id != "" && m.reactions != [] {
          var _ := MarkReactionSeen(id, true);
        }
        ingested := ingested + 1;
        QueueRemoteEvent(ToEvent(settings, th.threadID, m));
        QueueReactionSync(input.view, th.threadID, m, EventID(m));
        ingested := ingested + 1;
      }
      assert list[..|list|] == list;

      if maxSeq != "" {
        var _ := UpdateThreadCursor(th.threadID, maxSeq, maxTS);
        polled := th.(row := th.row.(lastSequenceID := maxSeq, lastMessageTS := maxTS));
      }
      PollConsumptionHorizons(th.threadID, input.now, input.reply, input.lookup);
      result := Some(ingested);
    }
  }

  function DiscoveredRow(c: Conversation): Row {
    Row(c.conversationID, c.isOneToOne, c.roomName, "", 0)
  }

  function Discovered(rows: map<string, Row>, queue: seq<Event>, conversations: seq<Conversation>)
    : (map<string, Row>, seq<Event>)
  {
    if conversations == [] then (rows, queue)
    else
      var last := conversations[|conversations| - 1];
      var (rows', queue') := Discovered(rows, queue, conversations[..|conversations| - 1]);
      if TrimSpace(last.threadID) == "" || TrimSpace(last.conversationID) == "" then (rows', queue')
      else (Upsert(rows', last.threadID, DiscoveredRow(last)), queue' + [ResyncEvent(TrimSpace(last.threadID))])
  }

  /** The conversation lists thread `t`: neither of its ids is blank. */
  predicate Lists(c: Conversation, t: string) {
    TrimSpace(c.threadID) == t && t != "" && TrimSpace(c.conversationID) != ""
  }

  predicate LastListing(conversations: seq<Conversation>, i: nat, t: string) {
    && i < |conversations| && Lists(conversations[i], t)
    && forall j | i < j < |conversations| :: !Lists(conversations[j], t)
  }

  /** How often the conversations list thread `t`. */
  function TimesListed(conversations: seq<Conversation>, t: string): nat {
    if conversations == [] then 0
    else
      var n := |conversations| - 1;
      TimesListed(conversations[..n], t) + if Lists(conversations[n], t) then 1 else 0
  }

  /** Rows of threads that are not listed stay as they are. */
  lemma {:induction false} UnlistedRowsStay(rows: map<string, Row>, queue: seq<Event>,
                                            conversations: seq<Conversation>, t: string)
    requires forall c | c in conversations :: !Lists(c, t)
    ensures var after := Discovered(rows, queue, conversations).0;
            (t in after <==> t in rows) && (t in after ==> after[t] == rows[t])
  {
    hide TrimSpace;
    if conversations != [] {
      var n := |conversations| - 1;
      assert !Lists(conversations[n], t);
      UnlistedRowsStay(rows, queue, conversations[..n], t);
    }
  }

  /** No row loses its cursor or its timestamp, and new rows have none. */
  lemma {:induction false} CursorsStay(rows: map<string, Row>, queue: seq<Event>, conversations: seq<Conversation>,
                                       t: string)
    ensures var after := Discovered(rows, queue, conversations).0;
            && (t in rows ==> t in after)
            && (t in after ==>
                  && after[t].lastSequenceID == (if t in rows then rows[t].lastSequenceID else "")
                  && after[t].lastMessageTS == (if t in rows then rows[t].lastMessageTS else 0))
  {
    hide TrimSpace;
    if conversations != [] {
      CursorsStay(rows, queue, conversations[..|conversations| - 1], t);
    }
  }

  /** After a discovery the row of a listed thread says what its last listing says, with the cursor and the timestamp it
      had before, or none if it is new. */
  lemma {:induction false} ListedRowExactly(rows: map<string, Row>, queue: seq<Event>,
                                            conversations: seq<Conversation>, i: nat, t: string)
    requires LastListing(conversations, i, t)
    ensures var after, c := Discovered(rows, queue, conversations).0, conversations[i];
            && t in after
            && after[t] == Row(TrimSpace(c.conversationID), c.isOneToOne, c.roomName,
                               if t in rows then rows[t].lastSequenceID else "",
                               if t in rows then rows[t].lastMessageTS else 0)
  {
    hide TrimSpace;
    var n := |conversations| - 1;
    CursorsStay(rows, queue, conversations[..n], t);
    if i < n {
      assert !Lists(conversations[n], t);
      assert forall j | i <= j < n :: conversations[..n][j] == conversations[j];
      ListedRowExactly(rows, queue, conversations[..n], i, t);
    }
  }

  /** It queues a resync for each listing and nothing else. */
  lemma {:induction false} DiscoveredResyncs(rows: map<string, Row>, queue: seq<Event>,
                                             conversations: seq<Conversation>, e: Event)
    ensures var after := Discovered(rows, queue, conversations).1;
            && queue <= after
            && multiset(after[|queue|..])[e] == if e.ResyncEvent? then TimesListed(conversations, e.thread) else 0
  {
    hide TrimSpace, Upsert;
    if conversations != [] {
      var n := |conversations| - 1;
      DiscoveredResyncs(rows, queue, conversations[..n], e);
      var before, after := Discovered(rows, queue, conversations[..n]).1, Discovered(rows, queue, conversations).1;
      if after != before {
        assert after[|queue|..] == before[|queue|..] + [after[|before|]];
      }
    }
  }
}
