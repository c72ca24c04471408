/** A run of the sync engine that delivers a message: what the delivery theorems assume does happen. */
module SyncExample {
  import opened Text
  import Decimal
  import opened SequenceOrder
  import opened Model
  import opened ListMessages
  import opened Reactions
  import opened SyncState
  import opened Delivery
  import opened ExactlyOnce
  import opened SyncRuns

  const ROW := Row("c", false, "", "", 0)
  const SENT := Message("1", "", "1", "8:bob", 0, [])

  const START := World(ClientState(map[], [], {}, map[], map[]), map[], [])
  const DISCOVERED := World(ClientState(map["t" := ROW], [ResyncEvent("t")], {}, map[], map[]), map[], [])
  const ARRIVED := World(DISCOVERED.st, map["t" := [SENT]], [])
  const LISTED := World(DISCOVERED.st, map["t" := [SENT]], [ThreadState("t", ROW)])

  function PollStep(input: PollInput): Step {
    Poll(0, [RawMessage(SENT, Some("1"))], [SENT], input)
  }

  /** A thread is discovered, a message arrives, the thread is listed and polled. */
  function FourSteps(input: PollInput): seq<Step> {
    [Discover("t", ROW), Arrive("t", [SENT]), ListThreads(["t"]), PollStep(input)]
  }

  lemma Discovering(s: Settings)
    ensures Enabled(START, Discover("t", ROW)) && Next(START, s, Discover("t", ROW)) == DISCOVERED
  {
    TrimSpaceOfTrimmed("t");
    TrimSpaceOfTrimmed("c");
    hide TrimSpace;
  }

  lemma OneIsNumber()
    ensures IsNumber("1") && Number("1") == 1
  {
    assert "1"[..0] == "";
    assert Decimal.Value("1") == 1;
  }

  lemma Arriving(s: Settings)
    ensures Enabled(DISCOVERED, Arrive("t", [SENT])) && Next(DISCOVERED, s, Arrive("t", [SENT])) == ARRIVED
  {
    OneIsNumber();
    hide Decimal.ParseUint, SameID;
    assert [] + [SENT] == [SENT];
  }

  lemma ListingRows(s: Settings)
    ensures Enabled(ARRIVED, ListThreads(["t"])) && Next(ARRIVED, s, ListThreads(["t"])) == LISTED
  {
    assert Snapshot(ARRIVED.st.rows, ["t"]) == [ThreadState("t", ROW)];
  }

  lemma WindowIsListed()
    ensures Listing([RawMessage(SENT, Some("1"))], [SENT])
  {
    var raw := [RawMessage(SENT, Some("1"))];
    assert Decode(raw[0]) == SENT;
    hide TrimSpace, CompareSequenceID, TransitiveOn;
    assert Kept(raw, 0);
    assert DistinctUpTo(raw, 0) == [];
    assert DistinctUpTo(raw, 1) == [SENT];
  }

  lemma Polling(s: Settings, input: PollInput)
    ensures Enabled(LISTED, PollStep(input)) && Covering(LISTED, PollStep(input))
  {
    OneIsNumber();
    WindowIsListed();
    assert TrimSpace("") == "";
    hide TrimSpace, Decimal.ParseUint, Listing, Fresh;
    var r := RawMessage(SENT, Some("1"));
    assert LogOf(LISTED, "t") == [SENT] && Copies(Decode(r), SENT);
    assert HonestEntry(r, [SENT]) by {
      assert Copies(Decode(r), [SENT][0]);
    }
    var raw := PollStep(input).raw;
    assert raw[0].sequence.Some? && Copies(Decode(raw[0]), [SENT][0]);
  }

  lemma SentIsDeliverable()
    ensures Deliverable(SENT, "t") && Fresh(SENT, "")
  {
    var sender := "8:bob";
    TrimSpaceOfTrimmed("1");
    TrimSpaceOfTrimmed(sender);
    TrimSpaceOfTrimmed("t");
    assert ToLower(sender)[0] == '8';
    assert |ToLower(sender)| == 5 && |ToLower("t")| == 1;
    hide TrimSpace, ToLower;
  }

  /** From the start these four steps are a covering run, and it delivers the message. */
  lemma FourStepsDeliver(s: Settings, input: PollInput)
    ensures Start(START) && Run(START, s, FourSteps(input)) && CoveringRun(START, s, FourSteps(input))
    ensures Delivered(After(START, s, FourSteps(input)).st.queue, "t") == [TicketOf(SENT)]
  {
    var steps := FourSteps(input);
    Discovering(s);
    Arriving(s);
    ListingRows(s);
    Polling(s, input);
    assert Covering(START, steps[0]) && Covering(DISCOVERED, steps[1]) && Covering(ARRIVED, steps[2]);
    hide Enabled, Next, Covering;
    FourStepsRun(s, input);
    PollLeavesNothingBehind(START, s, steps);
    PollKeepsLog(s, input);
    SentIsDeliverable();
    hide Deliverable, Fresh;
    assert TicketsAbove([SENT], "t", "") == [TicketOf(SENT)] by {
      assert [SENT][..0] == [];
    }
  }

  lemma PollKeepsLog(s: Settings, input: PollInput)
    requires Enabled(LISTED, PollStep(input))
    ensures LogOf(Next(LISTED, s, PollStep(input)), "t") == [SENT]
  {
    hide PollListed, PolledThread, Listing, HonestWindow;
  }

  lemma FourStepsRun(s: Settings, input: PollInput)
    requires Enabled(START, Discover("t", ROW)) && Next(START, s, Discover("t", ROW)) == DISCOVERED
    requires Enabled(DISCOVERED, Arrive("t", [SENT])) && Next(DISCOVERED, s, Arrive("t", [SENT])) == ARRIVED
    requires Enabled(ARRIVED, ListThreads(["t"])) && Next(ARRIVED, s, ListThreads(["t"])) == LISTED
    requires Enabled(LISTED, PollStep(input)) && Covering(LISTED, PollStep(input))
    requires Covering(START, Discover("t", ROW)) && Covering(DISCOVERED, Arrive("t", [SENT]))
    requires Covering(ARRIVED, ListThreads(["t"]))
    ensures var steps := FourSteps(input);
            && Run(START, s, steps) && CoveringRun(START, s, steps)
            && After(START, s, steps) == Next(LISTED, s, PollStep(input))
            && BeforeLast(START, s, steps) == LISTED
  {
    hide Enabled, Next, Covering, Run, CoveringRun, After, BeforeLast;
    var s0 := FourSteps(input);
    var s1, s2, s3 := s0[1..], s0[2..], s0[3..];
    assert s1[1..] == s2 && s2[1..] == s3 && s3[1..] == [] && s3 == [PollStep(input)];
    NoSteps(Next(LISTED, s, PollStep(input)), s);
    FirstStep(LISTED, s, s3);
    FirstStep(ARRIVED, s, s2);
    FirstStep(DISCOVERED, s, s1);
    FirstStep(START, s, s0);
  }

  lemma NoSteps(w: World, s: Settings)
    ensures Run(w, s, []) && CoveringRun(w, s, []) && After(w, s, []) == w
  {
  }

  lemma FirstStep(w: World, s: Settings, steps: seq<Step>)
    requires steps != [] && Enabled(w, steps[0]) && Covering(w, steps[0])
    requires var next := Next(w, s, steps[0]); Run(next, s, steps[1..]) && CoveringRun(next, s, steps[1..])
    ensures var next := Next(w, s, steps[0]);
            && Run(w, s, steps) && CoveringRun(w, s, steps)
            && After(w, s, steps) == After(next, s, steps[1..])
            && BeforeLast(w, s, steps) == if |steps| == 1 then w else BeforeLast(next, s, steps[1..])
  {
    hide Enabled, Next, Covering;
  }
}
