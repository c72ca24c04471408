/** The cache of recently sent message ids that lets the poller recognise the bridge's own messages. */
module SelfEcho {
  import opened Text

  /** Five minutes, in nanoseconds. */
  const SELF_MESSAGE_TTL: int := 300_000_000_000

  type Entries = map<string, int>

  function Pruned(m: Entries, now: int): Entries {
    map id | id in m && now - m[id] <= SELF_MESSAGE_TTL :: m[id]
  }

  datatype Op = Record(id: string, at: int) | Consume(id: string, at: int)

  predicate Blank(op: Op) {
    TrimSpace(op.id) == ""
  }

  /** What one operation does to the entries, which are absent until the first one is recorded. */
  function Apply(m: Option<Entries>, op: Op): Option<Entries> {
    var id := TrimSpace(op.id);
    if id == "" then m
    else
      match op
      case Record(_, at) => Some(Pruned(if m.Some? then m.value else map[], at)[id := at])
      case Consume(_, at) => if m.None? then None else Some(Pruned(m.value, at) - {id})
  }

  /** What consuming an id answers. */
  predicate Recognised(m: Option<Entries>, id: string, now: int) {
    TrimSpace(id) != "" && m.Some? && TrimSpace(id) in Pruned(m.value, now)
  }

  class SelfMessages {
    var entries: Option<Entries>

    constructor ()
      ensures entries == None
    {
      entries := None;
    }

    method RecordSelfMessage(clientMessageID: string, now: int)
      modifies this
      ensures entries == Apply(old(entries), Record(clientMessageID, now))
    {
      hide TrimSpace;
      var id := TrimSpace(clientMessageID);
      if id == "" {
        return;
      }
      if entries.None? {
        entries := Some(map[]);
      }
      CleanupSelfMessagesLocked(now);
      entries := Some(entries.value[id := now]);
    }

    method ConsumeSelfMessage(clientMessageID: string, now: int) returns (found: bool)
      modifies this
      ensures entries == Apply(old(entries), Consume(clientMessageID, now))
      ensures found <==> Recognised(old(entries), clientMessageID, now)
    {
      hide TrimSpace;
      var id := TrimSpace(clientMessageID);
      if id == "" {
        return false;
      }
      if entries.None? {
        return false;
      }
      CleanupSelfMessagesLocked(now);
      found := id in entries.value;
      if found {
        entries := Some(entries.value - {id});
      } else {
        assert entries.value - {id} == entries.value;
      }
    }

    method CleanupSelfMessagesLocked(now: int)
      modifies this
      ensures entries == if old(entries).None? then None else Some(Pruned(old(entries).value, now))
    {
      if entries.None? {
        return;
      }
      ghost var before := entries.value;
      var left := entries.value.Keys;
      while left != {}
        invariant entries.Some? && left <= entries.value.Keys <= before.Keys
        invariant forall id | id in entries.value :: entries.value[id] == before[id]
        invariant forall id | id in before.Keys - left :: id in entries.value <==> now - before[id] <= SELF_MESSAGE_TTL
        decreases |left|
      {
        var id :| id in left;
        left := left - {id};
        if now - entries.value[id] > SELF_MESSAGE_TTL {
          entries := Some(entries.value - {id});
        }
      }
      assert entries.value == Pruned(before, now);
    }
  }

  // ----- whole runs

  function After(ops: seq<Op>): Option<Entries> {
    if ops == [] then None else Apply(After(ops[..|ops| - 1]), ops[|ops| - 1])
  }

  predicate ClockNeverGoesBack(ops: seq<Op>) {
    forall i, j | 0 <= i < j < |ops| :: ops[i].at <= ops[j].at
  }

  predicate For(op: Op, id: string) {
    TrimSpace(op.id) == id
  }

  /** Operation i recorded the id, and nobody asked to consume it after that. */
  predicate Outstanding(ops: seq<Op>, i: int, id: string) {
    && 0 <= i < |ops|
    && ops[i].Record? && For(ops[i], id)
    && forall j | i < j < |ops| :: !(ops[j].Consume? && For(ops[j], id))
  }

  /** The last outstanding record, in the log that nothing is ever pruned from. */
  function LastRecord(ops: seq<Op>, id: string): Option<int> {
    if ops == [] then None
    else
      var op := ops[|ops| - 1];
      if !For(op, id) then LastRecord(ops[..|ops| - 1], id)
      else if op.Record? then Some(op.at)
      else None
  }

  /** An entry is the last outstanding record; a last outstanding record that is no entry has expired. */
  ghost predicate Agrees(m: Option<Entries>, ops: seq<Op>) {
    var entries := if m.Some? then m.value else map[];
    && (forall id | id in entries :: LastRecord(ops, id) == Some(entries[id]))
    && (forall id | id != "" && LastRecord(ops, id).Some? && id !in entries ::
          ops[|ops| - 1].at - LastRecord(ops, id).value > SELF_MESSAGE_TTL)
    && "" !in entries
  }

  lemma {:induction false} CacheAgreesWithLog(ops: seq<Op>)
    requires ClockNeverGoesBack(ops)
    ensures Agrees(After(ops), ops)
  {
    hide TrimSpace;
    if ops != [] {
      var n := |ops| - 1;
      var before := ops[..n];
      CacheAgreesWithLog(before);
      assert forall id :: !For(ops[n], id) ==> LastRecord(ops, id) == LastRecord(before, id);
      assert before != [] ==> before[|before| - 1].at <= ops[n].at;
    }
  }

  /** With outstanding records, the last one is the latest. */
  lemma {:induction false} LastRecordIsLatest(ops: seq<Op>, id: string)
    requires ClockNeverGoesBack(ops)
    ensures LastRecord(ops, id).Some? ==>
      exists i :: Outstanding(ops, i, id) && ops[i].at == LastRecord(ops, id).value
    ensures forall i | Outstanding(ops, i, id) ::
      LastRecord(ops, id).Some? && ops[i].at <= LastRecord(ops, id).value
  {
    hide TrimSpace;
    if ops != [] {
      var n := |ops| - 1;
      var before := ops[..n];
      LastRecordIsLatest(before, id);
      forall i | Outstanding(ops, i, id)
        ensures LastRecord(ops, id).Some? && ops[i].at <= LastRecord(ops, id).value
      {
        if i < n {
          assert Outstanding(before, i, id);
        }
      }
      if For(ops[n], id) {
        assert ops[n].Record? ==> Outstanding(ops, n, id);
      } else if LastRecord(before, id).Some? {
        var i :| Outstanding(before, i, id) && before[i].at == LastRecord(before, id).value;
        assert Outstanding(ops, i, id);
      }
    }
  }

  /** On a clock that never goes back, an id is recognised if and only if it was recorded at most five minutes ago
      and not consumed since, whatever else was recorded, consumed and pruned in between. */
  lemma RecognisedIffRecordedRecently(ops: seq<Op>, id: string, now: int)
    requires ClockNeverGoesBack(ops + [Consume(id, now)])
    ensures Recognised(After(ops), id, now)
       <==> && TrimSpace(id) != ""
            && exists i :: Outstanding(ops, i, TrimSpace(id)) && now - ops[i].at <= 300 * 1_000_000_000
  {
    hide TrimSpace;
    var all := ops + [Consume(id, now)];
    assert forall i | 0 <= i < |ops| :: all[i] == ops[i] && all[i].at <= all[|ops|].at;
    assert ClockNeverGoesBack(ops);
    CacheAgreesWithLog(ops);
    LastRecordIsLatest(ops, TrimSpace(id));
  }

  /** After an operation that is not blank, nothing older than five minutes is kept. */
  lemma EntriesAreFresh(ops: seq<Op>)
    requires ClockNeverGoesBack(ops)
    requires ops != [] && !Blank(ops[|ops| - 1])
    ensures After(ops).Some? ==>
      forall id | id in After(ops).value :: 0 <= ops[|ops| - 1].at - After(ops).value[id] <= 300 * 1_000_000_000
  {
    hide TrimSpace;
    CacheAgreesWithLog(ops);
    forall id | After(ops).Some? && id in After(ops).value
      ensures After(ops).value[id] <= ops[|ops| - 1].at
    {
      LastRecordIsLatest(ops, id);
    }
  }

  /** A recognised id is recognised once: the same id is not recognised again until it is recorded again. */
  lemma RecognisedOnce(ops: seq<Op>, id: string, now: int, later: seq<Op>, again: int)
    requires ClockNeverGoesBack(ops + [Consume(id, now)] + later + [Consume(id, again)])
    requires forall op | op in later :: !(op.Record? && For(op, TrimSpace(id)))
    ensures !Recognised(After(ops + [Consume(id, now)] + later), id, again)
  {
    hide TrimSpace;
    var run := ops + [Consume(id, now)] + later;
    RecognisedIffRecordedRecently(run, id, again);
    forall i ensures !Outstanding(run, i, TrimSpace(id)) {
      if |ops| < i < |run| {
        assert run[i] in later;
      } else if 0 <= i < |ops| {
        assert run[|ops|] == Consume(id, now);
      }
    }
  }
}
