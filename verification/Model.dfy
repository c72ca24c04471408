/** What the sync engine reads from Teams and what it queues for Matrix. */
module Model {
  import opened Text

  datatype ReactionUser = ReactionUser(mri: string, timeMS: int)
  datatype Reaction = Reaction(emotionKey: string, users: seq<ReactionUser>)

  /** A message as ListMessages returns it. Timestamps are in Unix milliseconds. */
  datatype Message = Message(
    messageID: string,
    clientMessageID: string,
    sequenceID: string,
    senderID: string,
    timestamp: int,
    reactions: seq<Reaction>
  )

  /** One reaction of a full reaction sync. */
  datatype BridgedReaction = BridgedReaction(
    sender: string,
    isFromMe: bool,
    emojiID: string,
    emoji: string,
    timestamp: Option<int>
  )

  type ReactionsByUser = map<string, seq<BridgedReaction>>

  /** The remote events handed to the bridge, in queue order. */
  datatype Event =
    | ResyncEvent(thread: string)
    | MessageEvent(thread: string, id: string, sender: string, isFromMe: bool, message: Message)
    | ReactionEvent(thread: string, target: string, users: ReactionsByUser)
    | ReceiptEvent(thread: string, sender: string, readUpTo: int, target: string)

  /** A row of teams_thread_state; the thread id is its key. */
  datatype Row = Row(
    conversation: string,
    isOneToOne: bool,
    name: string,
    lastSequenceID: string,
    lastMessageTS: int
  )

  /** A row as ListForLogin hands it to the poll loop. */
  datatype ThreadState = ThreadState(threadID: string, row: Row)

  predicate IsLikelyThreadID(value: string) {
    var v := ToLower(TrimSpace(value));
    v != "" && (Contains(v, "@thread.v2") || Contains(v, "@thread.skype") || Contains(v, "@unq.gbl.spaces"))
  }

  /** NormalizeTeamsReactionMessageID */
  function NormalizeReactionID(value: string): string {
    var v := TrimSpace(value);
    if HasPrefix(v, "msg/") then v[4..] else v
  }

  /** effectiveRemoteMessageID */
  function EffectiveID(m: Message): string {
    var id := NormalizeReactionID(m.messageID);
    if id == "" then NormalizeReactionID(m.sequenceID) else id
  }
}
