/** What a chunk request does about each reply, with the status numbers written out. */
module ChunkReplies {
  import opened Text
  import opened Decimal
  import opened Executor
  import opened Upload

  /** The replies after which a chunk is sent again: 429, 500 and above, a timeout, or a deadline that is not the
      caller's. */
  predicate TriesAgain(reply: Reply<ChunkReply>) {
    match reply
    case NoResponse(error, done) => error == ErrTimeout || (error == ErrDeadline && !done)
    case Response(r) => r.status == 429 || r.status >= 500
  }

  /** The sleep before the next attempt, after attempt `k`: a 429's positive Retry-After, else the jittered backoff. */
  function Pause(c: Config, k: nat, reply: Reply<ChunkReply>): int {
    if reply.Response? && reply.response.status == 429 && reply.response.retryAfter > 0 then reply.response.retryAfter
    else c.jitter(k + 1, CappedBackoff(c, k + 1))
  }

  ghost function TraceOf<T>(c: Config, content: seq<T>, p: Put, x: Exchange<T>): seq<Action<seq<T>>>
    requires p.start <= p.end < |content|
  {
    ActionsUpTo(c, Classify, ChunkRequest(content, p.start, p.end), x.attempts, p.last + 1)
  }

  ghost predicate IsPut<T>(c: Config, content: seq<T>, p: Put, x: Exchange<T>) {
    && p.start <= p.end < |content|
    && CopiesChunk(content, p, x)
    && IsLast(c, Classify, ChunkRequest(content, p.start, p.end), x.attempts, p.last)
  }

  /** An attempt at a chunk, by itself. */
  lemma AttemptMeans<T>(c: Config, content: seq<T>, p: Put, x: Exchange<T>, k: nat)
    requires p.start <= p.end < |content| && CopiesChunk(content, p, x)
    ensures var a, request := x.attempts(k), ChunkRequest(content, p.start, p.end);
            && Prepare(request, k, a) == Ready(Some(content[p.start..p.end + 1]))
            && (Sent(request, k, a) <==> !a.cancelledBefore)
            && (Retryable(Classify, a) <==> TriesAgain(a.reply))
            && (TriesAgain(a.reply) ==> Wait(c, Classify, k, a) == Pause(c, k, a.reply))
            && (Sleeps(c, Classify, request, k, a) <==>
                  !a.cancelledBefore && TriesAgain(a.reply) && k < c.maxRetries)
  {
    hide CappedBackoff;
    assert x.attempts(k).bodyCopy == Some(content[p.start..p.end + 1]);
  }

  /** An attempt is followed by another exactly when it was sent, the reply was one of those, it was not the last
      allowed, and nobody cancelled; before the last attempt the chunk is sent and the pause slept, in turns. */
  lemma ResentExactly<T>(c: Config, content: seq<T>, p: Put, x: Exchange<T>, k: nat)
    requires IsPut(c, content, p, x) && k <= p.last
    ensures var a, trace, chunk := x.attempts(k), TraceOf(c, content, p, x), content[p.start..p.end + 1];
            && (k < p.last <==>
                  !a.cancelledBefore && TriesAgain(a.reply) && k < c.maxRetries && !a.cancelledInSleep)
            && (k < p.last ==>
                  && |trace| > 2 * k + 1
                  && trace[2 * k] == Send(Some(chunk)) && trace[2 * k + 1] == Sleep(Pause(c, k, a.reply)))
  {
    AttemptMeans(c, content, p, x, k);
    var request := ChunkRequest(content, p.start, p.end);
    TraceAlternates(c, Classify, request, x.attempts, p.last);
    hide TriesAgain, Pause, Wait, Prepare, Retryable, ActionsOf;
  }

  /** After all those the trace ends with the last attempt: nothing if it was cancelled before, else one more send,
      and one more sleep only when the sleep is what was cancelled. */
  lemma EndsAfterLast<T>(c: Config, content: seq<T>, p: Put, x: Exchange<T>)
    requires IsPut(c, content, p, x)
    ensures var a, trace, chunk := x.attempts(p.last), TraceOf(c, content, p, x), content[p.start..p.end + 1];
            && |trace| >= 2 * p.last
            && trace[2 * p.last..] ==
                 if a.cancelledBefore then []
                 else if TriesAgain(a.reply) && p.last < c.maxRetries
                 then [Send(Some(chunk)), Sleep(Pause(c, p.last, a.reply))]
                 else [Send(Some(chunk))]
  {
    AttemptMeans(c, content, p, x, p.last);
    var request := ChunkRequest(content, p.start, p.end);
    TraceAlternates(c, Classify, request, x.attempts, p.last);
    hide TriesAgain, Pause, Wait, Prepare, Retryable;
    var before := ActionsUpTo(c, Classify, request, x.attempts, p.last);
    assert TraceOf(c, content, p, x) == before + ActionsOf(c, Classify, request, p.last, x.attempts(p.last));
  }

  /** The start offset that a range names: digits, which may have a plus sign, up to the first dash. */
  ghost predicate NamesOffset(range: string, n: nat) {
    exists sign: string, digits, tail ::
      && TrimSpace(range) == sign + digits + "-" + tail
      && (sign == "" || sign == "+") && IsOffset(digits, n)
  }

  predicate IsOffset(digits: string, n: nat) {
    digits != "" && AllDigits(digits) && Value(digits) == n < 0x8000_0000_0000_0000
  }

  lemma OffsetIsParsed(range: string, n: nat)
    ensures ParseNextStart(range) == Some(n) <==> NamesOffset(range, n)
  {
    var v := TrimSpace(range);
    if ParseNextStart(range) == Some(n) {
      ParsedIsOffset(range, n);
    }
    hide TrimSpace, Value, ParseInt, IndexOf;
    if NamesOffset(range, n) {
      var sign: string, digits, tail :|
        v == sign + digits + "-" + tail && (sign == "" || sign == "+") && IsOffset(digits, n);
      SignReads(sign, digits);
      DashFollows(v, sign + digits, tail);
    }
  }

  lemma ParsedIsOffset(range: string, n: nat)
    requires ParseNextStart(range) == Some(n)
    ensures NamesOffset(range, n)
  {
    var v := TrimSpace(range);
    var dash := IndexOf(v, '-');
    hide TrimSpace, IndexOf;
    var sign, digits := SignSplits(v[..dash], n);
    hide NamesOffset, ParseNextStart, IsOffset, ParseInt;
    assert v == sign + digits + "-" + v[dash + 1..] by {
      assert v == v[..dash] + [v[dash]] + v[dash + 1..];
    }
    OffsetNamed(range, sign, digits, v[dash + 1..], n);
  }

  lemma OffsetNamed(range: string, sign: string, digits: string, tail: string, n: nat)
    requires TrimSpace(range) == sign + digits + "-" + tail
    requires (sign == "" || sign == "+") && IsOffset(digits, n)
    ensures NamesOffset(range, n)
  {
    hide TrimSpace, IsOffset;
  }

  lemma SignSplits(text: string, n: nat) returns (sign: string, digits: string)
    requires text != "" && '-' !in text && ParseInt(text) == Some(n)
    ensures text == sign + digits && (sign == "" || sign == "+") && IsOffset(digits, n)
  {
    hide Value;
    assert text[0] in text;
    sign := if text[0] == '+' then "+" else "";
    digits := if text[0] == '+' then text[1..] else text;
  }

  lemma DashFollows(v: string, text: string, tail: string)
    requires v == text + "-" + tail && text != "" && '-' !in text
    ensures var dash := IndexOf(v, '-'); 0 < dash < |v| && v[..dash] == text
  {
    assert v[|text|] == '-';
    assert forall k | 0 <= k < |text| :: v[k] == text[k];
    assert v[..|text|] == text;
  }

  lemma SignReads(sign: string, digits: string)
    requires (sign == "" || sign == "+") && digits != "" && AllDigits(digits)
    ensures ParseInt(sign + digits) == if Value(digits) < 0x8000_0000_0000_0000 then Some(Value(digits)) else None
    ensures sign + digits != "" && '-' !in sign + digits
  {
    SignedReads(digits);
    hide Value, ParseInt;
    assert "" + digits == digits;
  }

  /** The last attempt decides what comes next: failure unless a 2xx came back; after a 202 the loop resumes at the
      offset the first expected range names, after any other 2xx it returns the item. */
  lemma LastReplyDecides<T>(c: Config, content: seq<T>, p: Put, x: Exchange<T>)
    requires IsPut(c, content, p, x)
    ensures var a, next := x.attempts(p.last), NextOf(c, content, x, p);
            var answered := !a.cancelledBefore && a.reply.Response? && 200 <= a.reply.response.status < 300;
            && (next == Finish(Failed(RequestFailed)) <==> !answered)
            && (answered && a.reply.response.status == 202 ==> ResumesWhere(a.reply.response.ranges, next))
            && (answered && a.reply.response.status != 202 ==> ReturnsItem(a.reply.response.item, next))
  {
    AttemptMeans(c, content, p, x, p.last);
    var a := x.attempts(p.last);
    if a.reply.Response? && a.reply.response.ranges.Some? && a.reply.response.ranges.value != [] {
      forall n: nat
        ensures ParseNextStart(a.reply.response.ranges.value[0]) == Some(n)
           <==> NamesOffset(a.reply.response.ranges.value[0], n)
      {
        OffsetIsParsed(a.reply.response.ranges.value[0], n);
      }
    }
    hide Wait, TrimSpace, ParseNextStart, NamesOffset, Pause, Backoff;
  }

  ghost predicate ResumesWhere(ranges: Option<seq<string>>, next: Next) {
    match ranges
    case None => next == Finish(Failed(UndecodableBody))
    case Some(rs) =>
      if rs == [] || TrimSpace(rs[0]) == "" then next == Finish(Failed(MissingExpectedRanges))
      else
        && (forall n: nat :: next == Resume(n) <==> NamesOffset(rs[0], n))
        && (next.Resume? || next == Finish(Failed(InvalidExpectedRange)))
  }

  predicate ReturnsItem(item: ItemBody, next: Next) {
    match item
    case FullItem(id) => next == Finish(Uploaded(id))
    case PartialItem(id, fetched) =>
      if TrimSpace(id) == "" || fetched == None then next == Finish(Failed(NoDriveItem))
      else next == Finish(Uploaded(fetched.value))
    case NoItem => next == Finish(Failed(NoDriveItem))
  }
}
