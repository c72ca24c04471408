/** When a horizon poll queues a read receipt and what the receipt says, spelled out on the reply. */
module ReadReceipts {
  import opened Text
  import opened Decimal
  import opened Model
  import opened Reactions
  import opened SyncState

  /** The horizon's second field, which ends at a semicolon or at the end, is a time when trimmed. */
  ghost predicate ReadsAt(horizon: string, ts: int) {
    exists first, second, tail :: Fields(horizon, first, second, tail) && ParseInt(TrimSpace(second)) == Some(ts)
  }

  predicate Fields(horizon: string, first: string, second: string, tail: string) {
    && horizon == first + ";" + second + tail
    && ';' !in first && ';' !in second
    && (tail == "" || tail[0] == ';')
  }

  /** The entry is of a user: not blank, not oneself, not the thread itself whatever the case, and no thread id. */
  predicate OfRemoteUser(s: Settings, thread: string, entry: HorizonEntry) {
    var id := TrimSpace(entry.id);
    && id != "" && id != TrimSpace(s.selfID)
    && ToLower(id) != ToLower(thread)
    && !Contains(ToLower(id), "@thread.v2")
    && !Contains(ToLower(id), "@thread.skype")
    && !Contains(ToLower(id), "@unq.gbl.spaces")
  }

  /** Entry `i` is the only one of a remote user and says that all up to `ts`, later than what is stored, is read. */
  ghost predicate Announces(st: ClientState, s: Settings, thread: string, entries: seq<HorizonEntry>, i: nat, ts: int)
    requires i < |entries|
  {
    && TrimSpace(s.selfID) != ""
    && (forall j | 0 <= j < |entries| :: OfRemoteUser(s, thread, entries[j]) <==> j == i)
    && ReadsAt(entries[i].horizon, ts) && ts > 0
    && var key := (thread, TrimSpace(entries[i].id)); key in st.horizons ==> st.horizons[key] < ts
  }

  lemma HorizonReads(horizon: string, ts: int)
    ensures LatestReadTS(horizon) == Some(ts) <==> ReadsAt(horizon, ts)
  {
    if LatestReadTS(horizon) == Some(ts) {
      FieldsThere(horizon);
      LatestIsRead(horizon, ts);
    }
    hide LatestReadTS, Fields, TrimSpace, ParseInt;
    if ReadsAt(horizon, ts) {
      var first, second, tail :| Fields(horizon, first, second, tail) && ParseInt(TrimSpace(second)) == Some(ts);
      FieldsFound(horizon, first, second, tail);
      ReadFrom(horizon, second);
    }
  }

  lemma LatestIsRead(horizon: string, ts: int)
    requires LatestReadTS(horizon) == Some(ts)
    requires var at := IndexOf(horizon, ';');
             at < |horizon| && var rest := horizon[at + 1..];
             var end := IndexOf(rest, ';'); Fields(horizon, horizon[..at], rest[..end], rest[end..])
    ensures ReadsAt(horizon, ts)
  {
    hide TrimSpace, ParseInt, IndexOf, Fields;
  }

  lemma ReadFrom(horizon: string, second: string)
    requires var at := IndexOf(horizon, ';');
             at < |horizon| && var rest := horizon[at + 1..]; rest[..IndexOf(rest, ';')] == second
    ensures LatestReadTS(horizon) == ParseInt(TrimSpace(second))
  {
    hide TrimSpace, ParseInt, IndexOf;
  }

  lemma FieldsThere(horizon: string)
    requires IndexOf(horizon, ';') < |horizon|
    ensures var at := IndexOf(horizon, ';');
            var rest := horizon[at + 1..];
            var end := IndexOf(rest, ';'); Fields(horizon, horizon[..at], rest[..end], rest[end..])
  {
    var at := IndexOf(horizon, ';');
    hide IndexOf;
    assert horizon == horizon[..at] + [horizon[at]] + horizon[at + 1..];
  }

  lemma FieldsFound(horizon: string, first: string, second: string, tail: string)
    requires Fields(horizon, first, second, tail)
    ensures var at := IndexOf(horizon, ';');
            at == |first| < |horizon| && var rest := horizon[at + 1..]; rest[..IndexOf(rest, ';')] == second
  {
    assert horizon == first + (";" + second + tail);
    FirstAt(first, ";" + second + tail);
    assert horizon[|first| + 1..] == second + tail;
    FirstAt(second, tail);
  }

  lemma FirstAt(a: string, b: string)
    requires ';' !in a && (b == "" || b[0] == ';')
    ensures IndexOf(a + b, ';') == |a|
  {
    var s, i := a + b, IndexOf(a + b, ';');
    assert forall k | 0 <= k < |a| :: s[k] == a[k];
    if b != "" {
      assert s[|a|] == ';';
    }
  }

  lemma RemoteMeans(s: Settings, thread: string, entry: HorizonEntry)
    ensures RemoteEntry(s, thread, entry) <==> OfRemoteUser(s, thread, entry)
  {
    TrimTwice(entry.id);
    hide TrimSpace, ToLower, Contains;
  }

  lemma {:induction false} NoneLeft(s: Settings, thread: string, entries: seq<HorizonEntry>)
    ensures RemoteEntries(s, thread, entries) == [] <==>
              forall j | 0 <= j < |entries| :: !RemoteEntry(s, thread, entries[j])
  {
    hide RemoteEntry;
    if entries != [] {
      var n := |entries| - 1;
      NoneLeft(s, thread, entries[..n]);
      assert forall j | 0 <= j < n :: entries[j] == entries[..n][j];
    }
  }

  /** Position `i` alone holds a remote entry. */
  predicate OnlyAt(s: Settings, thread: string, entries: seq<HorizonEntry>, i: nat) {
    i < |entries| && forall j | 0 <= j < |entries| :: RemoteEntry(s, thread, entries[j]) <==> j == i
  }

  lemma {:induction false} OneLeft(s: Settings, thread: string, entries: seq<HorizonEntry>, i: nat)
    requires OnlyAt(s, thread, entries, i)
    ensures RemoteEntries(s, thread, entries) == [entries[i]]
  {
    hide RemoteEntry;
    var n := |entries| - 1;
    assert forall j | 0 <= j < n :: entries[j] == entries[..n][j];
    if i == n {
      NoneLeft(s, thread, entries[..n]);
    } else {
      OneLeft(s, thread, entries[..n], i);
    }
  }

  lemma {:induction false} OneFound(s: Settings, thread: string, entries: seq<HorizonEntry>) returns (i: nat)
    requires |RemoteEntries(s, thread, entries)| == 1
    ensures OnlyAt(s, thread, entries, i)
  {
    hide RemoteEntry;
    var n := |entries| - 1;
    assert forall j | 0 <= j < n :: entries[j] == entries[..n][j];
    if RemoteEntry(s, thread, entries[n]) {
      i := n;
      NoneLeft(s, thread, entries[..n]);
    } else {
      i := OneFound(s, thread, entries[..n]);
    }
  }

  lemma OnlyMeans(s: Settings, thread: string, entries: seq<HorizonEntry>, i: nat)
    requires i < |entries|
    ensures OnlyAt(s, thread, entries, i) <==>
              forall j | 0 <= j < |entries| :: OfRemoteUser(s, thread, entries[j]) <==> j == i
  {
    hide OfRemoteUser, RemoteEntry;
    forall j | 0 <= j < |entries|
      ensures RemoteEntry(s, thread, entries[j]) <==> OfRemoteUser(s, thread, entries[j])
    {
      RemoteMeans(s, thread, entries[j]);
    }
  }

  lemma AnnouncedIsNew(st: ClientState, s: Settings, thread: string, entries: seq<HorizonEntry>, i: nat, ts: int)
    requires i < |entries| && Announces(st, s, thread, entries, i, ts)
    ensures NewReceipt(st, s, thread, entries) == Some((TrimSpace(entries[i].id), ts))
  {
    OnlyMeans(s, thread, entries, i);
    OneLeft(s, thread, entries, i);
    HorizonReads(entries[i].horizon, ts);
    hide OfRemoteUser, RemoteEntry, RemoteEntries, LatestReadTS, ReadsAt, TrimSpace;
  }

  lemma NewIsAnnounced(st: ClientState, s: Settings, thread: string, entries: seq<HorizonEntry>) returns (i: nat)
    requires NewReceipt(st, s, thread, entries).Some?
    ensures i < |entries| && Announces(st, s, thread, entries, i, NewReceipt(st, s, thread, entries).value.1)
  {
    i := OneFound(s, thread, entries);
    OnlyMeans(s, thread, entries, i);
    OneLeft(s, thread, entries, i);
    HorizonReads(entries[i].horizon, NewReceipt(st, s, thread, entries).value.1);
    hide OfRemoteUser, RemoteEntry, RemoteEntries, LatestReadTS, ReadsAt, TrimSpace;
  }

  /** A horizon poll asks the server exactly when it never has or 30 seconds have passed, and remembers that. It queues
      a receipt exactly when the reply announces one and the target can be looked up; then the receipt names that
      user, that time and the target, the time is stored, and nothing else changes. */
  lemma ReceiptExactly(st: ClientState, s: Settings, threadID: string, now: int, reply: HorizonReply,
                       lookup: LastSentLookup)
    ensures var thread, after := TrimSpace(threadID), PollHorizons(st, s, threadID, now, reply, lookup);
            var asks := thread != "" && (thread in st.receiptPoll && st.receiptPoll[thread] != 0 ==>
                                           now - st.receiptPoll[thread] >= 30 * 1_000_000_000);
            var polled := if asks then st.(receiptPoll := st.receiptPoll[thread := now]) else st;
            && (!asks || !reply.Horizons? || lookup.None? ==> after == polled)
            && (asks && reply.Horizons? && lookup.Some? ==>
                  && (forall i: nat, ts | i < |reply.entries| && Announces(st, s, thread, reply.entries, i, ts) ::
                        var user := TrimSpace(reply.entries[i].id);
                        after == polled.(queue := st.queue + [ReceiptEvent(thread, user, ts, lookup.value)],
                                         horizons := st.horizons[(thread, user) := ts]))
                  && ((forall i: nat, ts | i < |reply.entries| :: !Announces(st, s, thread, reply.entries, i, ts)) ==>
                        after == polled))
  {
    var thread := TrimSpace(threadID);
    hide TrimSpace, NewReceipt, Announces;
    if reply.Horizons? {
      var polled := st.(receiptPoll := st.receiptPoll[thread := now]);
      SameReceipt(st, polled, s, thread, reply.entries);
      forall i: nat, ts | i < |reply.entries| && Announces(st, s, thread, reply.entries, i, ts)
        ensures NewReceipt(st, s, thread, reply.entries) == Some((TrimSpace(reply.entries[i].id), ts))
      {
        AnnouncedIsNew(st, s, thread, reply.entries, i, ts);
      }
      if NewReceipt(st, s, thread, reply.entries).Some? {
        var i := NewIsAnnounced(st, s, thread, reply.entries);
      }
    }
  }

  lemma SameReceipt(a: ClientState, b: ClientState, s: Settings, thread: string, entries: seq<HorizonEntry>)
    requires a.horizons == b.horizons
    ensures NewReceipt(a, s, thread, entries) == NewReceipt(b, s, thread, entries)
  {
    hide TrimSpace, RemoteEntries, LatestReadTS;
  }
}
