/** Client.ListMessages after the HTTP exchange: drop repeated ids, decode sequence ids, sort. */
module ListMessages {
  import opened Text
  import opened SequenceOrder
  import opened Model

  /** A message of the response body; its sequence id is None when it is neither a string nor a number. */
  datatype RawMessage = RawMessage(message: Message, sequence: Option<string>)

  function Decode(raw: RawMessage): Message
    requires raw.sequence.Some?
  {
    raw.message.(sequenceID := raw.sequence.value)
  }

  function TrimmedID(raw: RawMessage): string {
    TrimSpace(raw.message.messageID)
  }

  /** The ids of the first `n` messages. */
  function IDs(raw: seq<RawMessage>, n: nat): set<string>
    requires n <= |raw|
  {
    if n == 0 then {} else IDs(raw, n - 1) + {TrimmedID(raw[n - 1])}
  }

  lemma {:induction false} IDOccurs(raw: seq<RawMessage>, n: nat, i: nat)
    requires i < n <= |raw|
    ensures TrimmedID(raw[i]) in IDs(raw, n)
  {
    hide TrimSpace;
    if i < n - 1 {
      IDOccurs(raw, n - 1, i);
    }
  }

  lemma {:induction false} Occurrence(raw: seq<RawMessage>, n: nat, id: string) returns (i: nat)
    requires n <= |raw| && id in IDs(raw, n)
    ensures i < n && TrimmedID(raw[i]) == id
  {
    hide TrimSpace;
    if id == TrimmedID(raw[n - 1]) {
      i := n - 1;
    } else {
      i := Occurrence(raw, n - 1, id);
    }
  }

  /** Position `i` is kept: its id is blank, or no earlier message carries the same id. */
  predicate Kept(raw: seq<RawMessage>, i: nat)
    requires i < |raw|
  {
    TrimmedID(raw[i]) == "" || TrimmedID(raw[i]) !in IDs(raw, i)
  }

  /** Among the first `n` messages, those that are kept have a sequence id. */
  predicate DecodableUpTo(raw: seq<RawMessage>, n: nat)
    requires n <= |raw|
  {
    forall i | 0 <= i < n :: Kept(raw, i) ==> raw[i].sequence.Some?
  }

  predicate Decodable(raw: seq<RawMessage>) {
    DecodableUpTo(raw, |raw|)
  }

  /** The decoded messages among the first `n`, in response order and without the repeats. */
  function DistinctUpTo(raw: seq<RawMessage>, n: nat): seq<Message>
    requires n <= |raw| && DecodableUpTo(raw, n)
  {
    if n == 0 then []
    else DistinctUpTo(raw, n - 1) + if Kept(raw, n - 1) then [Decode(raw[n - 1])] else []
  }

  function Distinct(raw: seq<RawMessage>): seq<Message>
    requires Decodable(raw)
  {
    DistinctUpTo(raw, |raw|)
  }

  /** The result holds the first copy of every id, and nothing else. */
  lemma {:induction false} DistinctHasFirstCopies(raw: seq<RawMessage>, n: nat)
    requires n <= |raw| && DecodableUpTo(raw, n)
    ensures forall i | 0 <= i < n && Kept(raw, i) :: Decode(raw[i]) in DistinctUpTo(raw, n)
    ensures forall m | m in DistinctUpTo(raw, n) :: exists i | 0 <= i < n :: Kept(raw, i) && m == Decode(raw[i])
  {
    hide TrimmedID, IDs, Kept;
    if n > 0 {
      DistinctHasFirstCopies(raw, n - 1);
      forall m | m in DistinctUpTo(raw, n)
        ensures exists i | 0 <= i < n :: Kept(raw, i) && m == Decode(raw[i])
      {
        if m in DistinctUpTo(raw, n - 1) {
          var i :| 0 <= i < n - 1 && Kept(raw, i) && m == Decode(raw[i]);
          assert Kept(raw, i);
        } else {
          assert Kept(raw, n - 1);
        }
      }
    }
  }

  lemma {:induction false} DistinctHasNoRepeats(raw: seq<RawMessage>, n: nat)
    requires n <= |raw| && DecodableUpTo(raw, n)
    ensures NoRepeats(DistinctUpTo(raw, n))
  {
    hide TrimSpace, IDs;
    if n > 0 {
      DistinctHasNoRepeats(raw, n - 1);
      var before, all := DistinctUpTo(raw, n - 1), DistinctUpTo(raw, n);
      forall i, j | 0 <= i < j < |all|
        ensures !SameID(all[i], all[j])
      {
        if j < |before| {
          assert !SameID(before[i], before[j]);
        } else {
          DistinctIDs(raw, n - 1, before[i]);
        }
      }
    }
  }

  lemma {:induction false} DistinctIDs(raw: seq<RawMessage>, n: nat, m: Message)
    requires n <= |raw| && DecodableUpTo(raw, n)
    requires m in DistinctUpTo(raw, n)
    ensures TrimSpace(m.messageID) in IDs(raw, n)
  {
    hide TrimSpace;
    if m in DistinctUpTo(raw, n - 1) {
      DistinctIDs(raw, n - 1, m);
    }
  }

  /** Whatever was dropped has an earlier kept message of the same id. */
  lemma {:induction false} EveryIDIsKept(raw: seq<RawMessage>, i: nat) returns (k: nat)
    requires i < |raw|
    ensures k <= i && Kept(raw, k) && TrimmedID(raw[k]) == TrimmedID(raw[i])
  {
    hide TrimSpace;
    if Kept(raw, i) {
      k := i;
    } else {
      var j := Occurrence(raw, i, TrimmedID(raw[i]));
      k := EveryIDIsKept(raw, j);
    }
  }

  predicate SameID(a: Message, b: Message) {
    TrimSpace(a.messageID) == TrimSpace(b.messageID) && TrimSpace(a.messageID) != ""
  }

  /** No two positions share a non-blank id. */
  predicate NoRepeats(msgs: seq<Message>) {
    forall i, j | 0 <= i < j < |msgs| :: !SameID(msgs[i], msgs[j])
  }

  function SequenceIDs(msgs: seq<Message>): set<string> {
    set m | m in msgs :: m.sequenceID
  }

  /** The comparison is transitive on ids that are all numerals, and on ids of which none is. */
  lemma OneKindIsTransitive(msgs: seq<Message>)
    requires || (forall m | m in msgs :: IsNumber(m.sequenceID))
             || (forall m | m in msgs :: !IsNumber(m.sequenceID))
    ensures TransitiveOn(SequenceIDs(msgs))
  {
    hide CompareSequenceID, IsNumber, Le;
    forall a, b, c | a in SequenceIDs(msgs) && b in SequenceIDs(msgs) && c in SequenceIDs(msgs) && Le(a, b) && Le(b, c)
      ensures Le(a, c)
    {
      HomogeneousTransitive(a, b, c);
    }
  }

  predicate Sorted(msgs: seq<Message>) {
    forall i, j | 0 <= i < j < |msgs| :: Le(msgs[i].sequenceID, msgs[j].sequenceID)
  }

  /** What a caller of ListMessages may rely on. */
  ghost predicate Listing(raw: seq<RawMessage>, msgs: seq<Message>) {
    && Decodable(raw)
    && multiset(msgs) == multiset(Distinct(raw))
    && (TransitiveOn(SequenceIDs(Distinct(raw))) ==> Sorted(msgs))
  }

  function Insert(m: Message, msgs: seq<Message>): seq<Message> {
    if msgs == [] || CompareSequenceID(m.sequenceID, msgs[0].sequenceID) < 0 then [m] + msgs
    else [msgs[0]] + Insert(m, msgs[1..])
  }

  lemma {:induction false} InsertKeepsAll(m: Message, msgs: seq<Message>)
    ensures multiset(Insert(m, msgs)) == multiset(msgs) + multiset{m}
  {
    if !(msgs == [] || CompareSequenceID(m.sequenceID, msgs[0].sequenceID) < 0) {
      InsertKeepsAll(m, msgs[1..]);
      assert msgs == [msgs[0]] + msgs[1..];
    }
  }

  lemma MembersOf(a: seq<Message>, b: seq<Message>)
    requires multiset(a) == multiset(b)
    ensures forall x :: x in a <==> x in b
  {
    forall x
      ensures x in a <==> x in b
    {
      assert x in a <==> x in multiset(a);
      assert x in b <==> x in multiset(b);
    }
  }

  lemma {:induction false} InsertSorts(m: Message, msgs: seq<Message>)
    requires Sorted(msgs) && TransitiveOn(SequenceIDs(msgs + [m]))
    ensures Sorted(Insert(m, msgs))
  {
    hide CompareSequenceID;
    var out := Insert(m, msgs);
    assert m in msgs + [m];
    assert forall x | x in msgs :: x in msgs + [m];
    if msgs == [] {
    } else if CompareSequenceID(m.sequenceID, msgs[0].sequenceID) < 0 {
      forall j | 0 < j < |out|
        ensures Le(m.sequenceID, out[j].sequenceID)
      {
        if j > 1 {
          assert msgs[0] in msgs + [m] && msgs[j - 1] in msgs + [m];
          assert Le(m.sequenceID, msgs[0].sequenceID) && Le(msgs[0].sequenceID, msgs[j - 1].sequenceID);
        }
      }
    } else {
      var rest := msgs[1..];
      assert forall x | x in rest + [m] :: x in msgs + [m];
      assert SequenceIDs(rest + [m]) <= SequenceIDs(msgs + [m]);
      InsertSorts(m, rest);
      InsertKeepsAll(m, rest);
      assert multiset(rest + [m]) == multiset(rest) + multiset{m};
      MembersOf(Insert(m, rest), rest + [m]);
      CompareFlips(m.sequenceID, msgs[0].sequenceID);
      forall j | 0 < j < |out|
        ensures Le(out[0].sequenceID, out[j].sequenceID)
      {
        assert out[j] in rest + [m];
      }
    }
  }

  /** Stands for sort.Slice, whose treatment of ties is not relied on by any caller. */
  method SortBySequence(msgs: seq<Message>) returns (sorted: seq<Message>)
    ensures multiset(sorted) == multiset(msgs)
    ensures TransitiveOn(SequenceIDs(msgs)) ==> Sorted(sorted)
  {
    sorted := [];
    for i := 0 to |msgs|
      invariant multiset(sorted) == multiset(msgs[..i])
      invariant TransitiveOn(SequenceIDs(msgs)) ==> Sorted(sorted)
    {
      assert msgs[..i + 1] == msgs[..i] + [msgs[i]];
      InsertKeepsAll(msgs[i], sorted);
      if TransitiveOn(SequenceIDs(msgs)) {
        MembersOf(sorted, msgs[..i]);
        assert SequenceIDs(sorted + [msgs[i]]) <= SequenceIDs(msgs);
        InsertSorts(msgs[i], sorted);
      }
      sorted := Insert(msgs[i], sorted);
    }
    assert msgs[..|msgs|] == msgs;
  }

  /** A repeat is skipped before its sequence id is looked at. */
  method DropRepeats(raw: seq<RawMessage>) returns (result: Option<seq<Message>>)
    ensures result.Some? <==> Decodable(raw)
    ensures result.Some? ==> result.value == Distinct(raw)
  {
    hide TrimSpace;
    var msgs: seq<Message> := [];
    var seen: set<string> := {};
    for i := 0 to |raw|
      invariant DecodableUpTo(raw, i)
      invariant msgs == DistinctUpTo(raw, i)
      invariant seen == IDs(raw, i) - {""}
    {
      var id := TrimmedID(raw[i]);
      if id != "" && id in seen {
        continue;
      }
      if id != "" {
        seen := seen + {id};
      }
      assert Kept(raw, i);
      if raw[i].sequence.None? {
        return None;
      }
      msgs := msgs + [Decode(raw[i])];
    }
    result := Some(msgs);
  }

  // ----- the same on the response itself

  /** No earlier message has the same id up to blanks, unless it is blank. */
  predicate IsFirst(raw: seq<RawMessage>, i: nat)
    requires i < |raw|
  {
    var id := TrimSpace(raw[i].message.messageID);
    id == "" || forall j | 0 <= j < i :: TrimSpace(raw[j].message.messageID) != id
  }

  /** The first copies among the first `n` messages as they came, but for the decoded sequence id. */
  function FirstCopies(raw: seq<RawMessage>, n: nat): seq<Message>
    requires n <= |raw|
  {
    if n == 0 then []
    else
      var m, sequence := raw[n - 1].message, raw[n - 1].sequence;
      FirstCopies(raw, n - 1)
      + if IsFirst(raw, n - 1) && sequence.Some?
        then [Message(m.messageID, m.clientMessageID, sequence.value, m.senderID, m.timestamp, m.reactions)]
        else []
  }

  lemma KeptIsFirst(raw: seq<RawMessage>, i: nat)
    requires i < |raw|
    ensures Kept(raw, i) <==> IsFirst(raw, i)
  {
    hide TrimSpace;
    if !Kept(raw, i) {
      var j := Occurrence(raw, i, TrimmedID(raw[i]));
    }
    forall j | 0 <= j < i ensures TrimmedID(raw[j]) in IDs(raw, i) {
      IDOccurs(raw, i, j);
    }
  }

  lemma {:induction false} DistinctIsFirstCopies(raw: seq<RawMessage>, n: nat)
    requires n <= |raw| && DecodableUpTo(raw, n)
    ensures DistinctUpTo(raw, n) == FirstCopies(raw, n)
  {
    hide Kept, IsFirst;
    if n > 0 {
      DistinctIsFirstCopies(raw, n - 1);
      KeptIsFirst(raw, n - 1);
    }
  }

  /** Every message that is not a repeat has a sequence id that decodes. */
  predicate Readable(raw: seq<RawMessage>) {
    forall i | 0 <= i < |raw| && IsFirst(raw, i) :: raw[i].sequence.Some?
  }

  lemma DecodableMeans(raw: seq<RawMessage>)
    ensures Decodable(raw) <==> Readable(raw)
  {
    hide Kept, IsFirst;
    forall i | 0 <= i < |raw| ensures Kept(raw, i) <==> IsFirst(raw, i) {
      KeptIsFirst(raw, i);
    }
  }

  /** The response is refused exactly when a message that is not a repeat has an undecodable sequence id. */
  method List(raw: seq<RawMessage>) returns (result: Option<seq<Message>>)
    ensures result.Some? <==> Readable(raw)
    ensures result.Some? ==> multiset(result.value) == multiset(FirstCopies(raw, |raw|)) && Listing(raw, result.value)
  {
    hide TrimSpace, IsFirst;
    DecodableMeans(raw);
    var distinct := DropRepeats(raw);
    if distinct.None? {
      return None;
    }
    DistinctIsFirstCopies(raw, |raw|);
    var sorted := SortBySequence(distinct.value);
    result := Some(sorted);
  }
}
