/** Reactions converge: after a sync the bridge shows what Teams shows. */
module ReactionRuns {
  import opened Text
  import opened Model
  import opened Reactions
  import opened SyncState
  import opened Delivery

  lemma BridgedAfter(queue: seq<Event>, e: Event, target: string)
    ensures BridgedReactions(queue + [e], target)
         == if e.ReactionEvent? && e.target == target then e.users else BridgedReactions(queue, target)
  {
    assert (queue + [e])[..|queue|] == queue;
  }

  /** One sync of one message: the bridged reactions of its target become the mappable Teams reactions, down to
      none, except when there is nothing to map, the target is not remembered and its rows cannot be read while
      the bridge still shows something. Other messages are untouched. */
  lemma SyncConverges(st: ClientState, s: Settings, view: BridgeView, thread: string, m: Message, messageID: string)
    requires SyncMessageID(m, messageID) != ""
    ensures var target := ResolveTarget(SyncMessageID(m, messageID), m, view.messages);
            var after := SyncReactions(st, s, view, thread, m, messageID);
            && (BridgedReactions(after.queue, target) == Grouped(Mappable(s, m.reactions))
                <==> (|| Mappable(s, m.reactions) != []
                      || target in st.reactionSeen
                      || view.reactionsReadable
                      || BridgedReactions(st.queue, target) == map[]))
            && forall other | other != target ::
                BridgedReactions(after.queue, other) == BridgedReactions(st.queue, other)
  {
    hide TrimSpace, ResolveTarget, Mappable, SyncMessageID, BridgedReactions, Grouped;
    var target := ResolveTarget(SyncMessageID(m, messageID), m, view.messages);
    var after := SyncReactions(st, s, view, thread, m, messageID);
    if after.queue != st.queue {
      var e := after.queue[|st.queue|];
      assert after.queue == st.queue + [e];
      forall t {
        BridgedAfter(st.queue, e, t);
      }
    }
  }

  /** A state in which a removed last reaction stays bridged: the target is not remembered and the rows cannot be
      read. */
  lemma RemovedReactionStays(s: Settings, like: BridgedReaction)
    ensures var m := Message("1", "", "1", "8:ann", 0, []);
            var shown := map["8:bob" := [like]];
            var st := ClientState(map[], [ReactionEvent("t", "1", shown)], {}, map[], map[]);
            var after := SyncReactions(st, s, BridgeView({}, false), "t", m, "1");
            Mappable(s, m.reactions) == [] && BridgedReactions(after.queue, "1") == shown
  {
    var m := Message("1", "", "1", "8:ann", 0, []);
    TrimSpaceOfTrimmed("1");
    assert Mappable(s, m.reactions) == [] && Grouped([]) == map[];
    hide TrimSpace, Mappable, Grouped;
    FirstCandidate(m);
    assert SyncMessageID(m, "1") == "1";
  }

  lemma FirstCandidate(m: Message)
    requires m.messageID == "1" && m.sequenceID == "1" && m.clientMessageID == ""
    ensures ResolveTarget("1", m, {}) == "1"
  {
    TrimSpaceOfTrimmed("1");
    TrimSpaceOfTrimmed("");
    TrimSpaceOfTrimmed("msg/1");
    hide TrimSpace;
    var c0 := AddCanonicalAndLegacy([], "1");
    assert NormalizeReactionID("1") == "1";
    assert c0 == ["1", "msg/" + "1"];
    assert TargetCandidates("1", m) == c0;
    NoneKnown(c0);
  }

  lemma {:induction false} NoneKnown(candidates: seq<string>)
    ensures FirstKnown(candidates, {}) == None
  {
    if candidates != [] {
      NoneKnown(candidates[1..]);
    }
  }

  // ----- a whole poll

  /** The message id pollThread asks a sync for. */
  function SyncID(m: Message, cursor: string): string {
    SyncMessageID(m, if Fresh(m, cursor) then EventID(m) else EffectiveID(m))
  }

  /** Old messages are synced always, new ones when a user sent them. */
  predicate Synced(m: Message, thread: string, cursor: string) {
    HasID(m) && (!Fresh(m, cursor) || FromUser(m, thread)) && SyncID(m, cursor) != ""
  }

  function TargetOf(m: Message, cursor: string, view: BridgeView): string {
    ResolveTarget(SyncID(m, cursor), m, view.messages)
  }

  lemma IngestSyncs(p: Progress, s: Settings, view: BridgeView, thread: string, cursor: string, m: Message)
    requires view.reactionsReadable
    ensures var after := Ingest(p, s, view, thread, cursor, m).st;
            && (Synced(m, thread, cursor) ==>
                  BridgedReactions(after.queue, TargetOf(m, cursor, view)) == Grouped(Mappable(s, m.reactions)))
            && forall t | !Synced(m, thread, cursor) || t != TargetOf(m, cursor, view) ::
                 BridgedReactions(after.queue, t) == BridgedReactions(p.st.queue, t)
  {
    hide TrimSpace, FromUser, EffectiveID, EventID, ResolveTarget, Mappable, Grouped, BridgedReactions, SyncReactions,
         Fresh, SyncMessageID;
    var id := EffectiveID(m);
    if HasID(m) && !Fresh(m, cursor) {
      SyncsOrNot(p.st, s, view, thread, m, id);
    } else if Deliverable(m, thread) {
      var marked := if id != "" && m.reactions != [] then p.st.(reactionSeen := p.st.reactionSeen + {id}) else p.st;
      var queued := marked.(queue := marked.queue + [ToEvent(s, thread, m)]);
      forall t {
        BridgedAfter(marked.queue, ToEvent(s, thread, m), t);
      }
      SyncsOrNot(queued, s, view, thread, m, EventID(m));
    }
  }

  lemma SyncsOrNot(st: ClientState, s: Settings, view: BridgeView, thread: string, m: Message, messageID: string)
    requires view.reactionsReadable
    ensures var id := SyncMessageID(m, messageID);
            var target := ResolveTarget(id, m, view.messages);
            var after := SyncReactions(st, s, view, thread, m, messageID);
            && (id != "" ==> BridgedReactions(after.queue, target) == Grouped(Mappable(s, m.reactions)))
            && forall t | id == "" || t != target :: BridgedReactions(after.queue, t) == BridgedReactions(st.queue, t)
  {
    hide TrimSpace, ResolveTarget, Mappable, BridgedReactions, Grouped, SyncMessageID;
    if SyncMessageID(m, messageID) != "" {
      SyncConverges(st, s, view, thread, m, messageID);
    }
  }

  /** No later synced message has the same target. */
  predicate LastForTarget(msgs: seq<Message>, i: nat, thread: string, cursor: string, view: BridgeView)
    requires i < |msgs|
  {
    forall j | i < j < |msgs| && Synced(msgs[j], thread, cursor) ::
        TargetOf(msgs[j], cursor, view) != TargetOf(msgs[i], cursor, view)
  }

  /** The loop of pollThread leaves every synced message that has the last word on its target converged. */
  lemma {:induction false} IngestConverges(st: ClientState, s: Settings, view: BridgeView, thread: string,
                                           cursor: string, msgs: seq<Message>, i: nat)
    requires view.reactionsReadable
    requires i < |msgs| && Synced(msgs[i], thread, cursor) && LastForTarget(msgs, i, thread, cursor, view)
    ensures BridgedReactions(IngestAll(st, s, view, thread, cursor, msgs).st.queue, TargetOf(msgs[i], cursor, view))
         == Grouped(Mappable(s, msgs[i].reactions))
  {
    hide Synced, TargetOf, Mappable, Grouped, BridgedReactions, Ingest;
    var n := |msgs| - 1;
    IngestSyncs(IngestAll(st, s, view, thread, cursor, msgs[..n]), s, view, thread, cursor, msgs[n]);
    if i < n {
      IngestConverges(st, s, view, thread, cursor, msgs[..n], i);
    }
  }

  /** After a whole poll, including its horizon poll, the bridge shows the Teams reactions of every polled message
      that has the last word on its target. */
  lemma PollConverges(st: ClientState, s: Settings, th: ThreadState, msgs: seq<Message>, input: PollInput, i: nat)
    requires input.view.reactionsReadable
    requires var cursor := TrimSpace(th.row.lastSequenceID);
             && i < |msgs| && Synced(msgs[i], th.threadID, cursor)
             && LastForTarget(msgs, i, th.threadID, cursor, input.view)
    ensures BridgedReactions(PollListed(st, s, th, msgs, input).0.queue,
                             TargetOf(msgs[i], TrimSpace(th.row.lastSequenceID), input.view))
         == Grouped(Mappable(s, msgs[i].reactions))
  {
    hide TrimSpace, Synced, LastForTarget, TargetOf, Mappable, Grouped, BridgedReactions, IngestAll, NewReceipt,
         ReceiptPollDue, UpdateCursor;
    var cursor := TrimSpace(th.row.lastSequenceID);
    IngestConverges(st, s, input.view, th.threadID, cursor, msgs, i);
    var done := IngestAll(st, s, input.view, th.threadID, cursor, msgs);
    var after := PollListed(st, s, th, msgs, input).0;
    if after.queue != done.st.queue {
      var e := after.queue[|done.st.queue|];
      assert after.queue == done.st.queue + [e];
      BridgedAfter(done.st.queue, e, TargetOf(msgs[i], cursor, input.view));
    }
  }
}
