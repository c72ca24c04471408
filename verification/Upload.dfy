/** Chunked upload against an upload session that may accept part of a chunk and see a chunk more than once. */
module Upload {
  import opened Text
  import opened Decimal
  import opened Executor

  const DEFAULT_CHUNK_SIZE: nat := 5 * 1024 * 1024
  const CHUNK_SIZE_ALIGN: nat := 320 * 1024

  // ----- replies

  datatype ItemBody = FullItem(id: string) | PartialItem(id: string, fetched: Option<string>) | NoItem

  /** The parts of a chunk response the loop looks at; `ranges` is None when the body does not decode. */
  datatype ChunkReply = ChunkReply(status: int, retryAfter: int, ranges: Option<seq<string>>, item: ItemBody)

  /** classifyChunkUploadResponse */
  function Classify(r: ChunkReply): Verdict {
    if 200 <= r.status < 300 then Accepted
    else if r.status == 429 then RetryLater(r.retryAfter)
    else if r.status >= 500 then RetryLater(0)
    else Rejected
  }

  /** parseNextExpectedStart */
  function ParseNextStart(range: string): Option<nat> {
    var v := TrimSpace(range);
    var dash := IndexOf(v, '-');
    if dash == 0 || dash == |v| then None
    else
      match ParseInt(v[..dash])
      case None => None
      case Some(n) => if n < 0 then None else Some(n)
  }

  /** A range that starts with digits and a dash, inside whatever margins, is read as those digits as long as they
      fit in 63 bits; what follows the dash does not matter. */
  lemma ParsesRange(left: string, digits: string, tail: string, right: string)
    requires AllSpace(left) && AllSpace(right)
    requires digits != "" && AllDigits(digits)
    requires Trimmed(digits + "-" + tail)
    ensures ParseNextStart(left + (digits + "-" + tail) + right)
         == if Value(digits) < 0x8000_0000_0000_0000 then Some(Value(digits)) else None
  {
    TrimSpaceUnique(left, digits + "-" + tail, right);
    var v := digits + "-" + tail;
    assert v[|digits|] == '-';
    assert forall k | 0 <= k < |digits| :: v[k] == digits[k];
    assert IndexOf(v, '-') == |digits|;
    assert v[..|digits|] == digits;
  }

  /** The printed form of an offset reads back as that offset. */
  lemma RangeRoundTrip(n: nat)
    requires n < 0x8000_0000_0000_0000
    ensures ParseNextStart(FormatUint(n) + "-") == Some(n)
  {
    var s := FormatUint(n);
    ValueOfFormat(n);
    assert IsDigit(s[0]);
    hide FormatUint, ParseNextStart, AllDigits, Value, TrimSpace;
    DashIsLast(s);
    ParsesRange("", s, "", "");
  }

  lemma DashIsLast(s: string)
    requires s != "" && !IsSpace(s[0])
    ensures Trimmed(s + "-" + "")
    ensures "" + (s + "-" + "") + "" == s + "-"
  {
    var v := s + "-" + "";
    assert v[0] == s[0] && v[|v| - 1] == '-';
  }

  // ----- the loop

  datatype UploadError =
    | EmptyUploadURL
    | EmptyContent
    | InvalidChunkSize
    | RequestFailed
    | UndecodableBody
    | MissingExpectedRanges
    | InvalidExpectedRange
    | NoDriveItem
    | DidNotComplete

  /** Unfinished: the server's script ran out while the loop was still going. */
  datatype UploadResult = Uploaded(item: string) | Failed(error: UploadError) | Unfinished

  /** All that the outside does about one chunk request: the executor's attempts, and how many bytes of the
      chunk the server keeps at each of them. */
  datatype Exchange<!T> = Exchange(attempts: nat -> Attempt<seq<T>, ChunkReply>, kept: nat -> nat)

  /** One chunk request: its inclusive byte range and the index of its last attempt. */
  datatype Put = Put(start: nat, end: nat, last: nat)

  datatype Next = Resume(start: nat) | Finish(result: UploadResult)

  function ChunkEnd(start: nat, chunkSize: nat, total: nat): nat
    requires start < total && chunkSize > 0
  {
    if start + chunkSize - 1 >= total then total - 1 else start + chunkSize - 1
  }

  /** What the loop does with the executor's result. */
  function Interpret(result: Result<ChunkReply>): Next {
    if !result.Ok? then Finish(Failed(RequestFailed))
    else if result.response.status == 202 then AfterAccepted(result.response.ranges)
    else AfterFinal(result.response.item)
  }

  function AfterAccepted(ranges: Option<seq<string>>): Next {
    if ranges.None? then Finish(Failed(UndecodableBody))
    else if ranges.value == [] || TrimSpace(ranges.value[0]) == "" then Finish(Failed(MissingExpectedRanges))
    else
      match ParseNextStart(ranges.value[0])
      case None => Finish(Failed(InvalidExpectedRange))
      case Some(n) => Resume(n)
  }

  /** A final reply without all the ids is completed by fetching the item. */
  function AfterFinal(item: ItemBody): Next {
    match item
    case FullItem(id) => Finish(Uploaded(id))
    case PartialItem(id, fetched) =>
      if TrimSpace(id) != "" && fetched.Some? then Finish(Uploaded(fetched.value)) else Finish(Failed(NoDriveItem))
    case NoItem => Finish(Failed(NoDriveItem))
  }

  /** The request for a range: a bytes.Reader body, so net/http supplies GetBody. */
  function ChunkRequest<T>(content: seq<T>, start: nat, end: nat): Request<seq<T>>
    requires start <= end < |content|
  {
    Request(Some(content[start..end + 1]), true)
  }

  function NextOf<T>(c: Config, content: seq<T>, x: Exchange<T>, p: Put): Next
    requires p.start <= p.end < |content|
  {
    Interpret(ResultOf(c, Classify, ChunkRequest(content, p.start, p.end), p.last, x.attempts(p.last)))
  }

  /** The requests of a run, each starting where the reply to the one before it said. */
  ghost predicate Requests<T>(c: Config, content: seq<T>, chunkSize: nat, script: seq<Exchange<T>>, puts: seq<Put>)
    requires chunkSize > 0
  {
    && |puts| <= |script|
    && (forall i | 0 <= i < |puts| ::
          && puts[i].start < |content|
          && puts[i].end == ChunkEnd(puts[i].start, chunkSize, |content|)
          && IsLast(c, Classify, ChunkRequest(content, puts[i].start, puts[i].end), script[i].attempts, puts[i].last))
    && (puts != [] ==> puts[0].start == 0)
    && (forall i | 0 < i < |puts| :: NextOf(c, content, script[i - 1], puts[i - 1]) == Resume(puts[i].start))
  }

  /** How the run of requests ended. */
  ghost predicate EndsWith<T>(c: Config, content: seq<T>, chunkSize: nat, script: seq<Exchange<T>>, puts: seq<Put>,
                              result: UploadResult)
    requires chunkSize > 0 && Requests(c, content, chunkSize, script, puts)
  {
    if puts == [] then
      content != [] && script == [] && result == Unfinished
    else
      match NextOf(c, content, script[|puts| - 1], puts[|puts| - 1])
      case Finish(r) => result == r
      case Resume(n) =>
        if n >= |content| then result == Failed(DidNotComplete) else result == Unfinished && |puts| == |script|
  }

  /** UploadFileInChunks, against any server whatever it answers. */
  method UploadFileInChunks<T>(c: Config, uploadURL: string, content: seq<T>, configuredChunkSize: int,
                               script: seq<Exchange<T>>)
    returns (result: UploadResult, puts: seq<Put>, chunkSize: nat)
    ensures chunkSize == if configuredChunkSize <= 0 then 5_242_880 else configuredChunkSize
    ensures TrimSpace(uploadURL) == "" ==> result == Failed(EmptyUploadURL)
    ensures TrimSpace(uploadURL) != "" && content == [] ==> result == Failed(EmptyContent)
    ensures TrimSpace(uploadURL) != "" && content != [] && chunkSize % 327_680 != 0 ==>
        result == Failed(InvalidChunkSize)
    ensures !(TrimSpace(uploadURL) != "" && content != [] && chunkSize % 327_680 == 0) ==> puts == []
    ensures TrimSpace(uploadURL) != "" && content != [] && chunkSize % 327_680 == 0 ==>
              Requests(c, content, chunkSize, script, puts) && EndsWith(c, content, chunkSize, script, puts, result)
  {
    hide TrimSpace, Interpret, Classify, ResultOf, IsLast, ActionsUpTo;
    puts := [];
    chunkSize := if configuredChunkSize <= 0 then DEFAULT_CHUNK_SIZE else configuredChunkSize;
    if TrimSpace(uploadURL) == "" {
      return Failed(EmptyUploadURL), puts, chunkSize;
    }
    if content == [] {
      return Failed(EmptyContent), puts, chunkSize;
    }
    if chunkSize % CHUNK_SIZE_ALIGN != 0 {
      return Failed(InvalidChunkSize), puts, chunkSize;
    }
    var start: nat := 0;
    while start < |content|
      invariant Requests(c, content, chunkSize, script, puts)
      invariant puts == [] ==> start == 0
      invariant puts != [] ==> NextOf(c, content, script[|puts| - 1], puts[|puts| - 1]) == Resume(start)
      decreases |script| - |puts|
    {
      if |puts| == |script| {
        return Unfinished, puts, chunkSize;
      }
      var end := ChunkEnd(start, chunkSize, |content|);
      var x := script[|puts|];
      var reply, _, last := Do(c, Classify, ChunkRequest(content, start, end), x.attempts);
      puts := puts + [Put(start, end, last)];
      match Interpret(reply) {
        case Finish(r) => return r, puts, chunkSize;
        case Resume(n) => start := n;
      }
    }
    result := Failed(DidNotComplete);
  }

  // ----- the server

  /** The session keeps a received prefix: bytes that continue it are appended, a gap or a repeat changes nothing. */
  function Store<T>(stored: seq<T>, start: nat, chunk: seq<T>, kept: nat): seq<T> {
    if start <= |stored| < start + kept && kept <= |chunk| then stored[..start] + chunk[..kept] else stored
  }

  /** What is stored after the first `n` attempts at one chunk; an attempt that is never sent stores nothing. */
  function StoredByAttempts<T>(stored: seq<T>, content: seq<T>, p: Put, x: Exchange<T>, n: nat): seq<T>
    requires p.start <= p.end < |content|
  {
    if n == 0 then stored
    else
      var before := StoredByAttempts(stored, content, p, x, n - 1);
      var request := ChunkRequest(content, p.start, p.end);
      if Sent(request, n - 1, x.attempts(n - 1))
      then Store(before, p.start, Prepare(request, n - 1, x.attempts(n - 1)).body.value, x.kept(n - 1))
      else before
  }

  /** GetBody hands out the chunk itself. */
  ghost predicate CopiesChunk<T>(content: seq<T>, p: Put, x: Exchange<T>)
    requires p.start <= p.end < |content|
  {
    forall k: nat :: x.attempts(k).bodyCopy == Some(content[p.start..p.end + 1])
  }

  ghost predicate InRange<T>(content: seq<T>, script: seq<Exchange<T>>, puts: seq<Put>) {
    && |puts| <= |script|
    && forall i | 0 <= i < |puts| ::
        puts[i].start <= puts[i].end < |content| && CopiesChunk(content, puts[i], script[i])
  }

  /** What the session holds after the first `n` chunk requests, resends by the executor included. */
  ghost function StoredAfter<T>(content: seq<T>, script: seq<Exchange<T>>, puts: seq<Put>, n: nat): seq<T>
    requires n <= |puts| && InRange(content, script, puts)
  {
    if n == 0 then []
    else
      var p := puts[n - 1];
      StoredByAttempts(StoredAfter(content, script, puts, n - 1), content, p, script[n - 1], p.last + 1)
  }

  lemma {:induction false} AttemptsKeepPrefix<T>(stored: seq<T>, content: seq<T>, p: Put, x: Exchange<T>, n: nat)
    requires p.start <= p.end < |content| && CopiesChunk(content, p, x)
    requires stored <= content
    ensures var after := StoredByAttempts(stored, content, p, x, n);
            stored <= after <= content && (|after| > |stored| ==> |after| <= p.end + 1)
  {
    if n > 0 {
      AttemptsKeepPrefix(stored, content, p, x, n - 1);
      var before := StoredByAttempts(stored, content, p, x, n - 1);
      var chunk, kept := content[p.start..p.end + 1], x.kept(n - 1);
      assert x.attempts(n - 1).bodyCopy == Some(chunk);
      if p.start <= |before| < p.start + kept && kept <= |chunk| {
        assert before[..p.start] + chunk[..kept] == content[..p.start + kept];
      }
    }
  }

  /** Whatever the server answers and however often chunks are resent, what it holds is a prefix of the content. */
  lemma {:induction false} StoredIsPrefix<T>(content: seq<T>, script: seq<Exchange<T>>, puts: seq<Put>, n: nat)
    requires n <= |puts| && InRange(content, script, puts)
    ensures StoredAfter(content, script, puts, n) <= content
  {
    if n > 0 {
      StoredIsPrefix(content, script, puts, n - 1);
      AttemptsKeepPrefix(StoredAfter(content, script, puts, n - 1), content, puts[n - 1], script[n - 1],
                         puts[n - 1].last + 1);
    }
  }

  /** What an upload session may say about a chunk request: more is expected from the first byte it does not hold,
      or the item is finished and it holds them all. */
  predicate HonestReply(r: ChunkReply, stored: nat, total: nat) {
    if r.status == 202 then
      && stored < total
      && r.ranges.Some? && r.ranges.value != [] && ParseNextStart(r.ranges.value[0]) == Some(stored)
    else 200 <= r.status < 300 ==> stored == total
  }

  /** The reply that ends a chunk request is honest; replies to attempts before it are not restricted. */
  ghost predicate HonestSession<T>(content: seq<T>, script: seq<Exchange<T>>, puts: seq<Put>)
    requires InRange(content, script, puts)
  {
    forall i | 0 <= i < |puts| :: HonestExchange(content, script, puts, i)
  }

  ghost predicate HonestExchange<T>(content: seq<T>, script: seq<Exchange<T>>, puts: seq<Put>, i: nat)
    requires InRange(content, script, puts) && i < |puts|
  {
    var reply := script[i].attempts(puts[i].last).reply;
    reply.Response? ==> HonestReply(reply.response, |StoredAfter(content, script, puts, i + 1)|, |content|)
  }

  /** The loop and the replies it goes by: it resumes only after a 202, where that says, and finishes with an item
      only after another 2xx. */
  lemma NextFollowsReply<T>(c: Config, content: seq<T>, x: Exchange<T>, p: Put)
    requires p.start <= p.end < |content|
    ensures var next, reply := NextOf(c, content, x, p), x.attempts(p.last).reply;
            && (next.Resume? ==>
                  && reply.Response? && reply.response.status == 202 && reply.response.ranges.Some?
                  && reply.response.ranges.value != []
                  && ParseNextStart(reply.response.ranges.value[0]) == Some(next.start))
            && (next.Finish? && next.result.Uploaded? ==>
                  reply.Response? && 200 <= reply.response.status < 300 && reply.response.status != 202)
            && next != Finish(Failed(DidNotComplete)) && next != Finish(Unfinished)
  {
    hide TrimSpace, ParseNextStart, Backoff, Sleeps;
  }

  /** Against an honest session every request starts at the first byte the session does not hold, however much of
      each chunk was kept and however often it was resent. */
  lemma StartsAtStored<T>(c: Config, content: seq<T>, chunkSize: nat, script: seq<Exchange<T>>, puts: seq<Put>, i: nat)
    requires chunkSize > 0 && InRange(content, script, puts) && HonestSession(content, script, puts)
    requires Requests(c, content, chunkSize, script, puts) && i < |puts|
    ensures puts[i].start == |StoredAfter(content, script, puts, i)|
  {
    hide NextOf, ParseNextStart;
    if i > 0 {
      NextFollowsReply(c, content, script[i - 1], puts[i - 1]);
      assert HonestExchange(content, script, puts, i - 1);
    }
  }

  /** Against an honest session the loop never runs off the end without an item, and when it returns an item the
      session holds the whole content. */
  lemma UploadedIsContent<T>(c: Config, content: seq<T>, chunkSize: nat, script: seq<Exchange<T>>, puts: seq<Put>,
                             result: UploadResult)
    requires chunkSize > 0 && InRange(content, script, puts) && HonestSession(content, script, puts)
    requires Requests(c, content, chunkSize, script, puts)
    requires EndsWith(c, content, chunkSize, script, puts, result)
    ensures result != Failed(DidNotComplete)
    ensures result.Uploaded? ==> StoredAfter(content, script, puts, |puts|) == content
  {
    hide NextOf, ParseNextStart;
    StoredIsPrefix(content, script, puts, |puts|);
    if puts != [] {
      var n := |puts| - 1;
      NextFollowsReply(c, content, script[n], puts[n]);
      assert HonestExchange(content, script, puts, n);
    }
  }

  /** Request i gets through: the executor returns a response, an attempt that was sent left at least one byte with
      the session, and a final item is complete or can be fetched. */
  ghost predicate GetsThrough<T>(c: Config, content: seq<T>, script: seq<Exchange<T>>, puts: seq<Put>, i: nat)
    requires InRange(content, script, puts) && i < |puts|
  {
    var x, p := script[i], puts[i];
    var request := ChunkRequest(content, p.start, p.end);
    var result := ResultOf(c, Classify, request, p.last, x.attempts(p.last));
    && result.Ok?
    && (result.response.status != 202 ==>
          AfterFinal(result.response.item).Finish? && AfterFinal(result.response.item).result.Uploaded?)
    && exists k | 0 <= k <= p.last :: Sent(request, k, x.attempts(k)) && 1 <= x.kept(k) <= |request.body.value|
  }

  /** Against an honest session, when every request gets through and the script is long enough, the upload succeeds:
      the item is returned and the session holds the content. */
  lemma UploadSucceeds<T>(c: Config, content: seq<T>, chunkSize: nat, script: seq<Exchange<T>>, puts: seq<Put>,
                          result: UploadResult)
    requires chunkSize > 0 && InRange(content, script, puts) && HonestSession(content, script, puts)
    requires Requests(c, content, chunkSize, script, puts)
    requires EndsWith(c, content, chunkSize, script, puts, result)
    requires content != [] && |script| >= |content|
    requires forall i | 0 <= i < |puts| :: GetsThrough(c, content, script, puts, i)
    ensures result.Uploaded? && StoredAfter(content, script, puts, |puts|) == content
  {
    UploadedIsContent(c, content, chunkSize, script, puts, result);
    hide ResultOf, Interpret, Requests, HonestReply;
    if puts != [] {
      var n := |puts| - 1;
      assert GetsThrough(c, content, script, puts, n);
      ThroughDoesNotFail(c, content, script, puts, n);
      NextFollowsReply(c, content, script[n], puts[n]);
      assert HonestExchange(content, script, puts, n);
      StoredGrows(c, content, chunkSize, script, puts, |puts|);
      StoredIsPrefix(content, script, puts, |puts|);
    }
  }

  lemma ThroughDoesNotFail<T>(c: Config, content: seq<T>, script: seq<Exchange<T>>, puts: seq<Put>, i: nat)
    requires InRange(content, script, puts) && i < |puts|
    requires HonestExchange(content, script, puts, i) && GetsThrough(c, content, script, puts, i)
    ensures var next := NextOf(c, content, script[i], puts[i]);
            if next.Resume? then next.start < |content| else next.result.Uploaded?
  {
    hide Sent, StoredAfter, ParseInt, TrimSpace, Backoff;
  }

  /** While requests get through, the session holds at least one byte more after each of them. */
  lemma {:induction false} StoredGrows<T>(c: Config, content: seq<T>, chunkSize: nat, script: seq<Exchange<T>>,
                                          puts: seq<Put>, n: nat)
    requires chunkSize > 0 && InRange(content, script, puts) && HonestSession(content, script, puts)
    requires Requests(c, content, chunkSize, script, puts) && n <= |puts|
    requires forall i | 0 <= i < |puts| :: GetsThrough(c, content, script, puts, i)
    ensures |StoredAfter(content, script, puts, n)| >= n
  {
    hide Requests, HonestSession, StoredByAttempts, ResultOf, AfterFinal, Classify, Sent;
    if n > 0 {
      StoredGrows(c, content, chunkSize, script, puts, n - 1);
      StartsAtStored(c, content, chunkSize, script, puts, n - 1);
      StoredIsPrefix(content, script, puts, n - 1);
      assert GetsThrough(c, content, script, puts, n - 1);
      var x, p := script[n - 1], puts[n - 1];
      var request := ChunkRequest(content, p.start, p.end);
      var k :| 0 <= k <= p.last && Sent(request, k, x.attempts(k)) && 1 <= x.kept(k) <= |request.body.value|;
      AttemptsKeepByte(StoredAfter(content, script, puts, n - 1), content, p, x, k, p.last + 1);
    }
  }

  lemma {:induction false} AttemptsKeepByte<T>(stored: seq<T>, content: seq<T>, p: Put, x: Exchange<T>, k: nat, n: nat)
    requires p.start <= p.end < |content| && CopiesChunk(content, p, x)
    requires stored <= content && |stored| == p.start && k < n
    requires Sent(ChunkRequest(content, p.start, p.end), k, x.attempts(k))
    requires 1 <= x.kept(k) <= p.end + 1 - p.start
    ensures |StoredByAttempts(stored, content, p, x, n)| > |stored|
  {
    AttemptsKeepPrefix(stored, content, p, x, n - 1);
    assert x.attempts(n - 1).bodyCopy == Some(content[p.start..p.end + 1]);
    if k < n - 1 {
      AttemptsKeepByte(stored, content, p, x, k, n - 1);
    }
  }

  /** A chunk of two bytes of which the session keeps one although the first attempt fails with a 503, then a chunk
      of the byte that is left. */
  function PartialScript<T>(content: seq<T>): seq<Exchange<T>>
    requires |content| == 2
  {
    var whole: nat -> Attempt<seq<T>, ChunkReply> := k =>
      Attempt(false, Some(content[0..2]),
              Response(if k == 0 then ChunkReply(503, 0, None, NoItem) else ChunkReply(202, 0, Some(["1-"]), NoItem)),
              false);
    var rest: nat -> Attempt<seq<T>, ChunkReply> := k =>
      Attempt(false, Some(content[1..2]), Response(ChunkReply(201, 0, None, FullItem("item"))), false);
    [Exchange(whole, k => if k == 0 then 1 else 0), Exchange(rest, k => 1)]
  }

  const PARTIAL_PUTS := [Put(0, 1, 1), Put(1, 1, 0)]

  /** Such a session is honest and every request gets through, so this upload succeeds. */
  lemma PartialSessionIsHonest<T>(c: Config, content: seq<T>)
    requires |content| == 2 && c.maxRetries > 0
    ensures var script := PartialScript(content);
            && InRange(content, script, PARTIAL_PUTS) && HonestSession(content, script, PARTIAL_PUTS)
            && Requests(c, content, 2, script, PARTIAL_PUTS)
            && EndsWith(c, content, 2, script, PARTIAL_PUTS, Uploaded("item"))
            && forall i | 0 <= i < 2 :: GetsThrough(c, content, script, PARTIAL_PUTS, i)
  {
    PartialRequests(c, content);
    PartialStored(content);
    PartialReplies(content);
    forall i | 0 <= i < 2 ensures GetsThrough(c, content, PartialScript(content), PARTIAL_PUTS, i) {
      PartialGetsThrough(c, content, i);
    }
    hide Requests, HonestSession, GetsThrough, InRange, NextOf;
  }

  lemma PartialReplies<T>(content: seq<T>)
    requires |content| == 2
    ensures InRange(content, PartialScript(content), PARTIAL_PUTS)
    ensures HonestSession(content, PartialScript(content), PARTIAL_PUTS)
  {
    PartialStored(content);
    RangeRoundTrip(1);
    assert FormatUint(1) == "1" && "1" + "-" == "1-";
    hide ParseNextStart, FormatUint, StoredAfter;
  }

  lemma PartialGetsThrough<T>(c: Config, content: seq<T>, i: nat)
    requires |content| == 2 && i < 2 && InRange(content, PartialScript(content), PARTIAL_PUTS)
    ensures GetsThrough(c, content, PartialScript(content), PARTIAL_PUTS, i)
  {
    hide Backoff, TrimSpace;
    var x, p := PartialScript(content)[i], PARTIAL_PUTS[i];
    assert Sent(ChunkRequest(content, p.start, p.end), 0, x.attempts(0)) && x.kept(0) == 1;
  }

  lemma PartialRequests<T>(c: Config, content: seq<T>)
    requires |content| == 2 && c.maxRetries > 0
    ensures var script := PartialScript(content);
            && Requests(c, content, 2, script, PARTIAL_PUTS)
            && NextOf(c, content, script[1], PARTIAL_PUTS[1]) == Finish(Uploaded("item"))
  {
    PartialLasts(c, content);
    PartialNexts(c, content);
    hide NextOf, IsLast;
  }

  lemma PartialNexts<T>(c: Config, content: seq<T>)
    requires |content| == 2 && c.maxRetries > 0
    ensures var script := PartialScript(content);
            && NextOf(c, content, script[0], PARTIAL_PUTS[0]) == Resume(1)
            && NextOf(c, content, script[1], PARTIAL_PUTS[1]) == Finish(Uploaded("item"))
  {
    RangeRoundTrip(1);
    assert FormatUint(1) == "1" && "1" + "-" == "1-";
    hide ParseNextStart, FormatUint, Backoff;
  }

  lemma PartialLasts<T>(c: Config, content: seq<T>)
    requires |content| == 2 && c.maxRetries > 0
    ensures var script := PartialScript(content);
            && IsLast(c, Classify, ChunkRequest(content, 0, 1), script[0].attempts, 1)
            && IsLast(c, Classify, ChunkRequest(content, 1, 1), script[1].attempts, 0)
  {
    hide Wait;
    var script := PartialScript(content);
    var request := ChunkRequest(content, 0, 1);
    assert Continues(c, Classify, request, 0, script[0].attempts(0));
  }

  lemma PartialStored<T>(content: seq<T>)
    requires |content| == 2
    ensures var script := PartialScript(content);
            && InRange(content, script, PARTIAL_PUTS)
            && |StoredAfter(content, script, PARTIAL_PUTS, 1)| == 1
            && |StoredAfter(content, script, PARTIAL_PUTS, 2)| == 2
  {
    var script := PartialScript(content);
    var p, x, q, y := PARTIAL_PUTS[0], script[0], PARTIAL_PUTS[1], script[1];
    assert |StoredByAttempts([], content, p, x, 1)| == 1;
    var first := StoredByAttempts([], content, p, x, 2);
    assert |first| == 1;
    assert StoredAfter(content, script, PARTIAL_PUTS, 0) == [];
    assert StoredAfter(content, script, PARTIAL_PUTS, 1) == first;
    assert |StoredByAttempts(first, content, q, y, 1)| == 2;
  }

  /** Every reply that asks for more asks for something further on. */
  ghost predicate Progresses<T>(c: Config, content: seq<T>, script: seq<Exchange<T>>, puts: seq<Put>)
    requires InRange(content, script, puts)
  {
    forall i | 0 <= i < |puts| ::
      NextOf(c, content, script[i], puts[i]).Resume? ==> NextOf(c, content, script[i], puts[i]).start > puts[i].start
  }

  /** Against a server that makes progress the loop ends within as many requests as there are bytes. */
  lemma UploadTerminates<T>(c: Config, content: seq<T>, chunkSize: nat, script: seq<Exchange<T>>, puts: seq<Put>,
                            result: UploadResult)
    requires chunkSize > 0 && InRange(content, script, puts) && content != []
    requires Requests(c, content, chunkSize, script, puts) && EndsWith(c, content, chunkSize, script, puts, result)
    requires Progresses(c, content, script, puts)
    ensures |puts| <= |content|
    ensures |script| >= |content| ==> result != Unfinished
  {
    if puts != [] {
      StartsClimb(c, content, chunkSize, script, puts, |puts| - 1);
    }
  }

  lemma {:induction false} StartsClimb<T>(c: Config, content: seq<T>, chunkSize: nat, script: seq<Exchange<T>>,
                                          puts: seq<Put>, i: nat)
    requires chunkSize > 0 && InRange(content, script, puts)
    requires Requests(c, content, chunkSize, script, puts) && Progresses(c, content, script, puts)
    requires i < |puts|
    ensures puts[i].start >= i
  {
    if i > 0 {
      StartsClimb(c, content, chunkSize, script, puts, i - 1);
      assert NextOf(c, content, script[i - 1], puts[i - 1]) == Resume(puts[i].start);
    }
  }

  /** Of each chunk some attempt that was sent left all bytes with the session. */
  ghost predicate KeepsWholeChunks<T>(content: seq<T>, script: seq<Exchange<T>>, puts: seq<Put>)
    requires InRange(content, script, puts)
  {
    forall i | 0 <= i < |puts| :: KeepsWholeChunk(content, script[i], puts[i])
  }

  ghost predicate KeepsWholeChunk<T>(content: seq<T>, x: Exchange<T>, p: Put)
    requires p.start <= p.end < |content|
  {
    var request := ChunkRequest(content, p.start, p.end);
    exists k | 0 <= k <= p.last :: Sent(request, k, x.attempts(k)) && x.kept(k) == |request.body.value|
  }

  /** When an honest session keeps every chunk whole, the requests are the consecutive ranges of chunkSize bytes from
      0, the last one shorter if the content runs out, and a finished upload has made ceil(total / chunkSize) of
      them. */
  lemma WholeChunksCount<T>(c: Config, content: seq<T>, chunkSize: nat, script: seq<Exchange<T>>, puts: seq<Put>,
                            result: UploadResult)
    requires chunkSize > 0 && InRange(content, script, puts) && HonestSession(content, script, puts)
    requires Requests(c, content, chunkSize, script, puts)
    requires EndsWith(c, content, chunkSize, script, puts, result)
    requires KeepsWholeChunks(content, script, puts)
    ensures forall i | 0 <= i < |puts| ::
              && puts[i].start == i * chunkSize
              && (i < |puts| - 1 ==> puts[i].end == (i + 1) * chunkSize - 1)
    ensures result.Uploaded? ==> (|puts| - 1) * chunkSize < |content| <= |puts| * chunkSize
  {
    forall i | 0 <= i < |puts|
      ensures puts[i].start == i * chunkSize
      ensures i < |puts| - 1 ==> puts[i].end == (i + 1) * chunkSize - 1
    {
      WholeChunkRange(c, content, chunkSize, script, puts, i);
    }
    if result.Uploaded? {
      WholeChunksEnd(c, content, chunkSize, script, puts, result);
    }
    hide *;
  }

  lemma WholeChunkRange<T>(c: Config, content: seq<T>, chunkSize: nat, script: seq<Exchange<T>>, puts: seq<Put>, i: nat)
    requires chunkSize > 0 && InRange(content, script, puts) && HonestSession(content, script, puts)
    requires Requests(c, content, chunkSize, script, puts) && KeepsWholeChunks(content, script, puts)
    requires i < |puts|
    ensures puts[i].start == i * chunkSize
    ensures i < |puts| - 1 ==> puts[i].end == (i + 1) * chunkSize - 1
  {
    WholeChunkStart(c, content, chunkSize, script, puts, i);
    if i < |puts| - 1 {
      WholeChunkStart(c, content, chunkSize, script, puts, i + 1);
      WholeChunkStored(c, content, chunkSize, script, puts, i);
      StartsAtStored(c, content, chunkSize, script, puts, i + 1);
    }
    hide *;
  }

  lemma WholeChunksEnd<T>(c: Config, content: seq<T>, chunkSize: nat, script: seq<Exchange<T>>, puts: seq<Put>,
                          result: UploadResult)
    requires chunkSize > 0 && InRange(content, script, puts) && HonestSession(content, script, puts)
    requires Requests(c, content, chunkSize, script, puts)
    requires EndsWith(c, content, chunkSize, script, puts, result)
    requires KeepsWholeChunks(content, script, puts) && result.Uploaded?
    ensures (|puts| - 1) * chunkSize < |content| <= |puts| * chunkSize
  {
    UploadedIsContent(c, content, chunkSize, script, puts, result);
    UploadedAfterRequest(c, content, chunkSize, script, puts, result);
    var n := |puts| - 1;
    WholeChunkStart(c, content, chunkSize, script, puts, n);
    WholeChunkStored(c, content, chunkSize, script, puts, n);
    LastRequestInContent(c, content, chunkSize, script, puts, n);
    hide *;
    assert |puts| * chunkSize == n * chunkSize + chunkSize;
  }

  lemma UploadedAfterRequest<T>(c: Config, content: seq<T>, chunkSize: nat, script: seq<Exchange<T>>, puts: seq<Put>,
                                result: UploadResult)
    requires chunkSize > 0 && Requests(c, content, chunkSize, script, puts)
    requires EndsWith(c, content, chunkSize, script, puts, result) && result.Uploaded?
    ensures puts != []
  {
    hide NextOf;
  }

  lemma LastRequestInContent<T>(c: Config, content: seq<T>, chunkSize: nat, script: seq<Exchange<T>>, puts: seq<Put>,
                                i: nat)
    requires chunkSize > 0 && Requests(c, content, chunkSize, script, puts) && i < |puts|
    ensures puts[i].start < |content|
  {
    hide NextOf, IsLast;
  }

  lemma {:induction false} WholeChunkStart<T>(c: Config, content: seq<T>, chunkSize: nat, script: seq<Exchange<T>>,
                                              puts: seq<Put>, i: nat)
    requires chunkSize > 0 && InRange(content, script, puts) && HonestSession(content, script, puts)
    requires Requests(c, content, chunkSize, script, puts) && KeepsWholeChunks(content, script, puts)
    requires i < |puts|
    ensures puts[i].start == i * chunkSize
    ensures puts[i].end < (i + 1) * chunkSize
  {
    hide NextOf, HonestSession, KeepsWholeChunks, StoredAfter;
    assert (i + 1) * chunkSize == i * chunkSize + chunkSize;
    if i > 0 {
      WholeChunkStart(c, content, chunkSize, script, puts, i - 1);
      WholeChunkStored(c, content, chunkSize, script, puts, i - 1);
      StartsAtStored(c, content, chunkSize, script, puts, i);
      assert puts[i].start == puts[i - 1].end + 1 < |content|;
      assert i * chunkSize == (i - 1) * chunkSize + chunkSize;
    }
  }

  lemma WholeChunkStored<T>(c: Config, content: seq<T>, chunkSize: nat, script: seq<Exchange<T>>, puts: seq<Put>,
                            i: nat)
    requires chunkSize > 0 && InRange(content, script, puts) && HonestSession(content, script, puts)
    requires Requests(c, content, chunkSize, script, puts) && KeepsWholeChunks(content, script, puts)
    requires i < |puts|
    ensures |StoredAfter(content, script, puts, i + 1)| == puts[i].end + 1
  {
    hide Requests, HonestSession, StoredByAttempts, Sent;
    StartsAtStored(c, content, chunkSize, script, puts, i);
    StoredIsPrefix(content, script, puts, i);
    assert KeepsWholeChunk(content, script[i], puts[i]);
    var x, p := script[i], puts[i];
    var request := ChunkRequest(content, p.start, p.end);
    var k :| 0 <= k <= p.last && Sent(request, k, x.attempts(k)) && x.kept(k) == |request.body.value|;
    AttemptsKeepAll(StoredAfter(content, script, puts, i), content, p, x, k, p.last + 1);
  }

  lemma {:induction false} AttemptsKeepAll<T>(stored: seq<T>, content: seq<T>, p: Put, x: Exchange<T>, k: nat, n: nat)
    requires p.start <= p.end < |content| && CopiesChunk(content, p, x)
    requires stored <= content && |stored| == p.start && k < n
    requires Sent(ChunkRequest(content, p.start, p.end), k, x.attempts(k))
    requires x.kept(k) == p.end + 1 - p.start
    ensures |StoredByAttempts(stored, content, p, x, n)| == p.end + 1
  {
    AttemptsKeepPrefix(stored, content, p, x, n - 1);
    AttemptsKeepPrefix(stored, content, p, x, n);
    assert x.attempts(n - 1).bodyCopy == Some(content[p.start..p.end + 1]);
    if k < n - 1 {
      AttemptsKeepAll(stored, content, p, x, k, n - 1);
    }
  }
}
