/** Exactly-once, in-order delivery over every run of the poll loop against an append-only server log. */
module ExactlyOnce {
  import opened Text
  import Decimal
  import opened SequenceOrder
  import opened Model
  import opened ListMessages
  import opened SyncState
  import opened Delivery

  // ----- the server

  /** A log of one thread: numeric sequence ids that strictly increase, and no id used twice. */
  predicate WellFormedLog(log: seq<Message>) {
    && Numeric(log)
    && (forall i, j | 0 <= i < j < |log| :: Number(log[i].sequenceID) < Number(log[j].sequenceID))
    && NoRepeats(log)
  }

  /** A later copy of a message keeps its id, sequence id and sender; everything else may have been edited. */
  predicate Copies(m: Message, original: Message) {
    && TrimSpace(m.messageID) == TrimSpace(original.messageID)
    && m.sequenceID == original.sequenceID
    && m.senderID == original.senderID
  }

  /** The window shows nothing but copies of logged messages, in any order and with any repeats;
      messages without an id may appear too. */
  ghost predicate HonestWindow(raw: seq<RawMessage>, log: seq<Message>) {
    forall i | 0 <= i < |raw| :: HonestEntry(raw[i], log)
  }

  ghost predicate HonestEntry(r: RawMessage, log: seq<Message>) {
    && r.sequence.Some?
    && IsNumber(r.sequence.value)
    && (TrimmedID(r) != "" ==> exists k | 0 <= k < |log| :: Copies(Decode(r), log[k]))
  }

  /** The window holds every logged message above the cursor. */
  ghost predicate CoveringWindow(raw: seq<RawMessage>, log: seq<Message>, cursor: string) {
    forall k | 0 <= k < |log| && HasID(log[k]) && Fresh(log[k], cursor) ::
      exists i | 0 <= i < |raw| :: raw[i].sequence.Some? && Copies(Decode(raw[i]), log[k])
  }

  // ----- the listed messages of an honest window

  /** What the rest of the proof needs to know about a listing. */
  ghost predicate Faithful(msgs: seq<Message>, log: seq<Message>) {
    && Numeric(msgs)
    && Sorted(msgs)
    && NoRepeats(msgs)
    && forall m | m in msgs && HasID(m) :: exists k | 0 <= k < |log| :: Copies(m, log[k])
  }

  lemma {:induction false} Place(b: seq<Message>, x: Message) returns (p: nat)
    requires x in multiset(b)
    ensures p < |b| && b[p] == x
  {
    p :| p < |b| && b[p] == x;
  }

  /** Two members, counted with multiplicity, sit at two positions. */
  lemma {:induction false} TwoPlaces(b: seq<Message>, x: Message, y: Message) returns (p: nat, q: nat)
    requires multiset{x, y} <= multiset(b)
    ensures p < |b| && q < |b| && p != q && b[p] == x && b[q] == y
  {
    p := Place(b, x);
    var rest := b[..p] + b[p + 1..];
    assert b == b[..p] + [x] + b[p + 1..];
    assert multiset(b) == multiset(rest) + multiset{x};
    q := Place(rest, y);
    q := if q < p then q else q + 1;
  }

  lemma SameIDSymmetric(x: Message, y: Message)
    ensures SameID(x, y) == SameID(y, x)
  {
  }

  lemma PermutationHasNoRepeats(a: seq<Message>, b: seq<Message>)
    requires multiset(a) == multiset(b) && NoRepeats(b)
    ensures NoRepeats(a)
  {
    hide SameID;
    forall i, j | 0 <= i < j < |a|
      ensures !SameID(a[i], a[j])
    {
      assert a == a[..i] + [a[i]] + a[i + 1..j] + [a[j]] + a[j + 1..];
      var p, q := TwoPlaces(b, a[i], a[j]);
      SameIDSymmetric(a[i], a[j]);
    }
  }

  lemma HonestListing(raw: seq<RawMessage>, msgs: seq<Message>, log: seq<Message>)
    requires Listing(raw, msgs) && HonestWindow(raw, log)
    ensures Faithful(msgs, log)
  {
    hide TrimSpace, Decimal.ParseUint;
    var distinct := Distinct(raw);
    DistinctHasFirstCopies(raw, |raw|);
    DistinctHasNoRepeats(raw, |raw|);
    PermutationHasNoRepeats(msgs, distinct);
    MembersOf(msgs, distinct);
    forall m | m in distinct
      ensures IsNumber(m.sequenceID)
      ensures HasID(m) ==> exists k | 0 <= k < |log| :: Copies(m, log[k])
    {
      var i :| 0 <= i < |raw| && Kept(raw, i) && m == Decode(raw[i]);
      assert HonestEntry(raw[i], log);
    }
    OneKindIsTransitive(distinct);
    assert forall i | 0 <= i < |msgs| :: msgs[i] in msgs;
  }

  /** Nothing above the cursor is missing from the listing of a covering window. */
  lemma CoveredListing(raw: seq<RawMessage>, msgs: seq<Message>, log: seq<Message>, cursor: string, k: nat)
    returns (m: Message)
    requires WellFormedLog(log) && k < |log| && HasID(log[k]) && Fresh(log[k], cursor)
    requires Listing(raw, msgs) && HonestWindow(raw, log) && CoveringWindow(raw, log, cursor)
    ensures m in msgs && Copies(m, log[k])
  {
    hide TrimSpace, Decimal.ParseUint, Fresh;
    var i :| 0 <= i < |raw| && raw[i].sequence.Some? && Copies(Decode(raw[i]), log[k]);
    var j := EveryIDIsKept(raw, i);
    assert HonestEntry(raw[j], log);
    m := Decode(raw[j]);
    var k' :| 0 <= k' < |log| && Copies(m, log[k']);
    assert SameID(log[k'], log[k]) && SameID(log[k], log[k']);
    assert k' == k;
    DistinctHasFirstCopies(raw, |raw|);
    MembersOf(msgs, Distinct(raw));
  }

  // ----- ascending tickets

  predicate Ascending(ts: seq<Ticket>) {
    && (forall i | 0 <= i < |ts| :: IsNumber(ts[i].sequenceID))
    && forall i, j | 0 <= i < j < |ts| :: Number(ts[i].sequenceID) < Number(ts[j].sequenceID)
  }

  /** Ascending lists with the same members are the same list. */
  lemma {:induction false} AscendingUnique(a: seq<Ticket>, b: seq<Ticket>)
    requires Ascending(a) && Ascending(b)
    requires forall t :: t in a <==> t in b
    ensures a == b
  {
    hide Ascending;
    assert a != [] ==> a[0] in b;
    assert b != [] ==> b[0] in a;
    if a != [] && b != [] {
      var n, m := |a| - 1, |b| - 1;
      assert a[n] in b && b[m] in a;
      WithoutLast(a);
      WithoutLast(b);
      LastsAgree(a, b);
      forall t ensures t in a[..n] <==> t in b[..m] {
        assert t in a <==> t in b;
      }
      AscendingUnique(a[..n], b[..m]);
      assert a == a[..n] + [a[n]] && b == b[..m] + [b[m]];
    }
  }

  lemma LastsAgree(a: seq<Ticket>, b: seq<Ticket>)
    requires Ascending(a) && Ascending(b) && a != [] && b != []
    requires a[|a| - 1] in b && b[|b| - 1] in a
    ensures a[|a| - 1] == b[|b| - 1]
  {
    hide Decimal.ParseUint;
    var i :| 0 <= i < |b| && b[i] == a[|a| - 1];
    var j :| 0 <= j < |a| && a[j] == b[|b| - 1];
  }

  lemma WithoutLast(a: seq<Ticket>)
    requires Ascending(a) && a != []
    ensures Ascending(a[..|a| - 1])
    ensures forall t :: t in a[..|a| - 1] <==> t in a && t != a[|a| - 1]
  {
    hide Decimal.ParseUint;
    var n := |a| - 1;
    assert forall i | 0 <= i < n :: a[..n][i] == a[i] && Number(a[i].sequenceID) < Number(a[n].sequenceID);
    assert a == a[..n] + [a[n]];
  }

  lemma {:induction false} TicketsAboveMembers(msgs: seq<Message>, thread: string, cursor: string)
    ensures forall t :: t in TicketsAbove(msgs, thread, cursor)
              <==> exists m | m in msgs :: Deliverable(m, thread) && Fresh(m, cursor) && TicketOf(m) == t
  {
    hide Deliverable, Fresh, TicketOf;
    if msgs != [] {
      var n := |msgs| - 1;
      TicketsAboveMembers(msgs[..n], thread, cursor);
      assert forall m :: m in msgs <==> m in msgs[..n] || m == msgs[n];
    }
  }

  lemma {:induction false} TicketsUpToMembers(msgs: seq<Message>, thread: string, cursor: string)
    ensures forall t :: t in TicketsUpTo(msgs, thread, cursor)
              <==> exists m | m in msgs :: Deliverable(m, thread) && !Fresh(m, cursor) && TicketOf(m) == t
  {
    hide Deliverable, Fresh, TicketOf;
    if msgs != [] {
      var n := |msgs| - 1;
      TicketsUpToMembers(msgs[..n], thread, cursor);
      assert forall m :: m in msgs <==> m in msgs[..n] || m == msgs[n];
    }
  }

  lemma {:induction false} TicketsUpToAscend(log: seq<Message>, thread: string, cursor: string)
    requires WellFormedLog(log)
    ensures Ascending(TicketsUpTo(log, thread, cursor))
  {
    hide Deliverable, Fresh, EventID, TrimSpace, Decimal.ParseUint, NoRepeats;
    if log != [] {
      var n := |log| - 1;
      PrefixWellFormed(log, n);
      TicketsUpToAscend(log[..n], thread, cursor);
      TicketsUpToMembers(log[..n], thread, cursor);
      var before := TicketsUpTo(log[..n], thread, cursor);
      forall i | 0 <= i < |before|
        ensures Number(before[i].sequenceID) < Number(log[n].sequenceID)
      {
        assert before[i] in before;
        var m :| m in log[..n] && TicketOf(m) == before[i];
      }
    }
  }

  lemma PrefixWellFormed(log: seq<Message>, n: nat)
    requires WellFormedLog(log) && n <= |log|
    ensures WellFormedLog(log[..n])
  {
    hide SameID, Decimal.ParseUint;
  }

  lemma PrefixFaithful(msgs: seq<Message>, log: seq<Message>, n: nat)
    requires Faithful(msgs, log) && n <= |msgs|
    ensures Faithful(msgs[..n], log)
  {
    hide SameID, Decimal.ParseUint, TrimSpace, CompareSequenceID;
    assert forall m | m in msgs[..n] :: m in msgs;
  }

  /** The tickets of a faithful listing ascend: equal numbers would be two copies of one logged message. */
  lemma {:induction false} TicketsAboveAscend(msgs: seq<Message>, log: seq<Message>, thread: string, cursor: string)
    requires WellFormedLog(log) && Faithful(msgs, log)
    ensures Ascending(TicketsAbove(msgs, thread, cursor))
  {
    hide Deliverable, Fresh, EventID, TrimSpace, Decimal.ParseUint, Faithful, WellFormedLog;
    if msgs != [] {
      var n := |msgs| - 1;
      PrefixFaithful(msgs, log, n);
      TicketsAboveAscend(msgs[..n], log, thread, cursor);
      if Deliverable(msgs[n], thread) {
        LastIsHighest(msgs, log, thread, cursor);
      }
    }
  }

  lemma LastIsHighest(msgs: seq<Message>, log: seq<Message>, thread: string, cursor: string)
    requires WellFormedLog(log) && Faithful(msgs, log)
    requires msgs != [] && Deliverable(msgs[|msgs| - 1], thread)
    ensures IsNumber(msgs[|msgs| - 1].sequenceID)
    ensures forall t | t in TicketsAbove(msgs[..|msgs| - 1], thread, cursor) && IsNumber(t.sequenceID) ::
              Number(t.sequenceID) < Number(msgs[|msgs| - 1].sequenceID)
  {
    hide FromUser, Fresh, EventID, TrimSpace, Decimal.ParseUint, WellFormedLog;
    var n := |msgs| - 1;
    TicketsAboveMembers(msgs[..n], thread, cursor);
    forall t | t in TicketsAbove(msgs[..n], thread, cursor) && IsNumber(t.sequenceID)
      ensures Number(t.sequenceID) < Number(msgs[n].sequenceID)
    {
      var m :| m in msgs[..n] && Deliverable(m, thread) && TicketOf(m) == t;
      var j :| 0 <= j < n && msgs[j] == m;
      EarlierIsSmaller(msgs, log, j, n);
      assert TicketOf(m).sequenceID == m.sequenceID;
    }
  }

  lemma EarlierIsSmaller(msgs: seq<Message>, log: seq<Message>, i: nat, j: nat)
    requires WellFormedLog(log) && Faithful(msgs, log)
    requires i < j < |msgs| && HasID(msgs[i]) && HasID(msgs[j])
    ensures Number(msgs[i].sequenceID) < Number(msgs[j].sequenceID)
  {
    hide TrimSpace, Decimal.ParseUint;
    assert msgs[i] in msgs && msgs[j] in msgs;
    var a :| 0 <= a < |log| && Copies(msgs[i], log[a]);
    var b :| 0 <= b < |log| && Copies(msgs[j], log[b]);
    CompareIsNumeric(msgs[i].sequenceID, msgs[j].sequenceID);
    assert !SameID(msgs[i], msgs[j]);
  }
}
