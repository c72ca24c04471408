/** The stored state of one login and the effect of each sync operation on it, as functions. */
module SyncState {
  import opened Text
  import opened Decimal
  import opened SequenceOrder
  import opened Model
  import opened Reactions

  datatype ClientState = ClientState(
    rows: map<string, Row>,                        // teams_thread_state by thread id
    queue: seq<Event>,                             // everything queued so far, oldest first
    reactionSeen: set<string>,
    receiptPoll: map<string, int>,                 // last horizon fetch by thread id
    horizons: map<(string, string), int>           // last_read_ts by thread id and Teams user id
  )

  // ----- thread rows

  /** ThreadStateQuery.Upsert: a new row starts with the given cursor, an old row keeps its own. */
  function Upsert(rows: map<string, Row>, thread: string, row: Row): map<string, Row> {
    var id, conversation := TrimSpace(thread), TrimSpace(row.conversation);
    if id == "" || conversation == "" then rows
    else if id in rows then
      rows[id := rows[id].(conversation := conversation, isOneToOne := row.isOneToOne, name := row.name)]
    else
      rows[id := row.(conversation := conversation)]
  }

  /** ThreadStateQuery.UpdateCursor */
  function UpdateCursor(rows: map<string, Row>, thread: string, cursor: string, ts: int): map<string, Row> {
    var id := TrimSpace(thread);
    if id != "" && id in rows then
      rows[id := rows[id].(lastSequenceID := cursor, lastMessageTS := ts)]
    else
      rows
  }

  // ----- reactions

  /** What the bridge holds for a message after applying the queued full syncs: the last one wins. */
  function BridgedReactions(queue: seq<Event>, target: string): ReactionsByUser {
    if queue == [] then map[]
    else
      var last := queue[|queue| - 1];
      if last.ReactionEvent? && last.target == target then last.users
      else BridgedReactions(queue[..|queue| - 1], target)
  }

  /** shouldSendEmptyReactionSync */
  predicate WantsEmptySync(st: ClientState, view: BridgeView, target: string) {
    || target in st.reactionSeen
    || (view.reactionsReadable && BridgedReactions(st.queue, target) != map[])
  }

  function SyncMessageID(m: Message, messageID: string): string {
    if TrimSpace(messageID) == "" then EffectiveID(m) else TrimSpace(messageID)
  }

  /** queueReactionSyncForMessage */
  function SyncReactions(st: ClientState, s: Settings, view: BridgeView, thread: string, m: Message, messageID: string)
    : ClientState
  {
    var id := SyncMessageID(m, messageID);
    if id == "" then st
    else
      var target := ResolveTarget(id, m, view.messages);
      var users := Grouped(Mappable(s, m.reactions));
      if users != map[] then
        st.(queue := st.queue + [ReactionEvent(TrimSpace(thread), target, users)])
      else
        st.(reactionSeen := st.reactionSeen - {target},
            queue := if WantsEmptySync(st, view, target)
                     then st.queue + [ReactionEvent(TrimSpace(thread), target, map[])]
                     else st.queue)
  }

  // ----- read horizons

  /** Nanoseconds; times count from Go's zero time. */
  const RECEIPT_POLL_INTERVAL: int := 30_000_000_000

  datatype HorizonEntry = HorizonEntry(id: string, horizon: string)
  datatype HorizonReply = HorizonError | HorizonMissing | Horizons(entries: seq<HorizonEntry>)

  /** The answer of the "last own message at or before" query: None when the query fails, Some("") when no row. */
  type LastSentLookup = Option<string>

  /** The text between the first and the second semicolon, as a signed 64-bit number. */
  function LatestReadTS(horizon: string): Option<int> {
    var first := IndexOf(horizon, ';');
    if first == |horizon| then None
    else
      var rest := horizon[first + 1..];
      ParseInt(TrimSpace(rest[..IndexOf(rest, ';')]))
  }

  predicate ReceiptPollDue(receiptPoll: map<string, int>, thread: string, now: int) {
    thread !in receiptPoll || receiptPoll[thread] == 0 || now - receiptPoll[thread] >= RECEIPT_POLL_INTERVAL
  }

  predicate RemoteEntry(s: Settings, thread: string, entry: HorizonEntry) {
    var id := TrimSpace(entry.id);
    id != "" && id != TrimSpace(s.selfID) && !EqualFold(id, thread) && !IsLikelyThreadID(id)
  }

  function RemoteEntries(s: Settings, thread: string, entries: seq<HorizonEntry>): seq<HorizonEntry> {
    if entries == [] then []
    else
      var last := entries[|entries| - 1];
      RemoteEntries(s, thread, entries[..|entries| - 1]) + if RemoteEntry(s, thread, last) then [last] else []
  }

  /** The remote user and time of a new receipt: one remote entry only, and later than what is stored. */
  function NewReceipt(st: ClientState, s: Settings, thread: string, entries: seq<HorizonEntry>): Option<(string, int)> {
    var remote := RemoteEntries(s, thread, entries);
    if TrimSpace(s.selfID) == "" || |remote| != 1 then None
    else
      var user := TrimSpace(remote[0].id);
      match LatestReadTS(remote[0].horizon)
      case None => None
      case Some(ts) =>
        if ts <= 0 || ((thread, user) in st.horizons && ts <= st.horizons[(thread, user)]) then None
        else Some((user, ts))
  }

  /** pollConsumptionHorizons */
  function PollHorizons(st: ClientState, s: Settings, threadID: string, now: int, reply: HorizonReply,
                        lookup: LastSentLookup): ClientState {
    var thread := TrimSpace(threadID);
    if thread == "" || !ReceiptPollDue(st.receiptPoll, thread, now) then st
    else
      var polled := st.(receiptPoll := st.receiptPoll[thread := now]);
      if !reply.Horizons? then polled
      else
        match NewReceipt(polled, s, thread, reply.entries)
        case None => polled
        case Some((user, ts)) =>
          if lookup.None? then polled
          else polled.(queue := polled.queue + [ReceiptEvent(thread, user, ts, lookup.value)],
                       horizons := polled.horizons[(thread, user) := ts])
  }

  // ----- one poll

  /** Sent by a user, not by the thread itself. */
  predicate FromUser(m: Message, thread: string) {
    var sender := TrimSpace(m.senderID);
    sender != "" && !EqualFold(sender, TrimSpace(thread)) && !IsLikelyThreadID(sender)
  }

  /** Above the cursor; with no cursor everything is. */
  predicate Fresh(m: Message, cursor: string) {
    cursor == "" || CompareSequenceID(TrimSpace(m.sequenceID), cursor) > 0
  }

  function EventID(m: Message): string {
    if EffectiveID(m) == "" then TrimSpace(m.messageID) else EffectiveID(m)
  }

  function ToEvent(s: Settings, thread: string, m: Message): Event {
    var sender, self := TrimSpace(m.senderID), TrimSpace(s.selfID);
    MessageEvent(TrimSpace(thread), EventID(m), sender, self != "" && sender == self, m)
  }

  /** The running variables of the loop in pollThread. */
  datatype Progress = Progress(st: ClientState, maxSeq: string, maxTS: int, ingested: nat)

  function Ingest(p: Progress, s: Settings, view: BridgeView, thread: string, cursor: string, m: Message): Progress {
    var id, sequence := EffectiveID(m), TrimSpace(m.sequenceID);
    if TrimSpace(m.messageID) == "" then p
    else if !Fresh(m, cursor) then p.(st := SyncReactions(p.st, s, view, thread, m, id))
    else
      var counted := p.(
        maxSeq := if p.maxSeq == "" || CompareSequenceID(sequence, p.maxSeq) > 0 then sequence else p.maxSeq,
        maxTS := if m.timestamp > p.maxTS then m.timestamp else p.maxTS);
      if !FromUser(m, thread) then counted
      else
        var marked := if id != "" && m.reactions != [] then p.st.(reactionSeen := p.st.reactionSeen + {id}) else p.st;
        var queued := marked.(queue := marked.queue + [ToEvent(s, thread, m)]);
        counted.(st := SyncReactions(queued, s, view, thread, m, EventID(m)), ingested := p.ingested + 2)
  }

  function IngestAll(st: ClientState, s: Settings, view: BridgeView, thread: string, cursor: string, msgs: seq<Message>)
    : Progress
  {
    if msgs == [] then Progress(st, "", 0, 0)
    else
      var n := |msgs| - 1;
      Ingest(IngestAll(st, s, view, thread, cursor, msgs[..n]), s, view, thread, cursor, msgs[n])
  }

  /** The inputs of one poll that come from outside. */
  datatype PollInput = PollInput(view: BridgeView, now: int, reply: HorizonReply, lookup: LastSentLookup)

  /** pollThread once its messages are listed: the new state and the reported count. */
  function PollListed(st: ClientState, s: Settings, th: ThreadState, msgs: seq<Message>, input: PollInput)
    : (ClientState, nat)
  {
    var done := IngestAll(st, s, input.view, th.threadID, TrimSpace(th.row.lastSequenceID), msgs);
    var saved :=
      if done.maxSeq == "" then done.st
      else done.st.(rows := UpdateCursor(done.st.rows, th.threadID, done.maxSeq, done.maxTS));
    (PollHorizons(saved, s, th.threadID, input.now, input.reply, input.lookup), done.ingested)
  }

  /** The poll loop's own copy of the row after the poll. */
  function PolledThread(st: ClientState, s: Settings, th: ThreadState, msgs: seq<Message>, input: PollInput)
    : ThreadState
  {
    var done := IngestAll(st, s, input.view, th.threadID, TrimSpace(th.row.lastSequenceID), msgs);
    if done.maxSeq == "" then th
    else th.(row := th.row.(lastSequenceID := done.maxSeq, lastMessageTS := done.maxTS))
  }
}
