/** Full reaction syncs: which message they target, what they carry, and when an empty one is sent. */
module Reactions {
  import opened Text
  import opened Model

  /** The logged-in user and the emotion-key table. */
  datatype Settings = Settings(selfID: string, emojiOf: map<string, string>)

  /** What the bridge database answers: the message ids it knows, and whether reaction rows can be read. */
  datatype BridgeView = BridgeView(messages: set<string>, reactionsReadable: bool)

  // ----- the target message

  function AddCandidate(candidates: seq<string>, value: string): seq<string> {
    var v := TrimSpace(value);
    if v == "" || v in candidates then candidates else candidates + [v]
  }

  function AddCanonicalAndLegacy(candidates: seq<string>, value: string): seq<string> {
    var v := TrimSpace(value);
    if v == "" then candidates
    else
      var normalized := NormalizeReactionID(v);
      var canonical := AddCandidate(candidates, normalized);
      if normalized == "" then canonical else AddCandidate(canonical, "msg/" + normalized)
  }

  function TargetCandidates(messageID: string, m: Message): seq<string> {
    var c0 := AddCanonicalAndLegacy([], messageID);
    var c1 := AddCanonicalAndLegacy(c0, m.messageID);
    var c2 := AddCanonicalAndLegacy(c1, m.sequenceID);
    AddCanonicalAndLegacy(c2, m.clientMessageID)
  }

  function FirstKnown(candidates: seq<string>, known: set<string>): Option<string> {
    if candidates == [] then None
    else if candidates[0] in known then Some(candidates[0])
    else FirstKnown(candidates[1..], known)
  }

  /** The first candidate the bridge knows, else the first candidate. */
  function ResolveTarget(messageID: string, m: Message, known: set<string>): string {
    var candidates := TargetCandidates(messageID, m);
    if candidates == [] then ""
    else
      match FirstKnown(candidates, known)
      case Some(c) => c
      case None => candidates[0]
  }

  method Resolve(messageID: string, m: Message, known: set<string>) returns (target: string)
    ensures target == ResolveTarget(messageID, m, known)
  {
    hide TrimSpace;
    var candidates := TargetCandidates(messageID, m);
    if candidates == [] {
      return "";
    }
    for i := 0 to |candidates|
      invariant FirstKnown(candidates, known) == FirstKnown(candidates[i..], known)
    {
      assert candidates[i..][1..] == candidates[i + 1..];
      if candidates[i] in known {
        return candidates[i];
      }
    }
    target := candidates[0];
  }

  // ----- the reactions of one message

  function UserReaction(s: Settings, key: string, user: ReactionUser): BridgedReaction
    requires key in s.emojiOf
  {
    var sender := TrimSpace(user.mri);
    BridgedReaction(
      sender,
      TrimSpace(s.selfID) != "" && sender == TrimSpace(s.selfID),
      key,
      s.emojiOf[key],
      if user.timeMS != 0 then Some(user.timeMS) else None)
  }

  predicate Bridgeable(user: ReactionUser) {
    TrimSpace(user.mri) != "" && !IsLikelyThreadID(TrimSpace(user.mri))
  }

  function UserReactions(s: Settings, key: string, users: seq<ReactionUser>): seq<BridgedReaction>
    requires key in s.emojiOf
  {
    if users == [] then []
    else
      var last := users[|users| - 1];
      UserReactions(s, key, users[..|users| - 1]) + if Bridgeable(last) then [UserReaction(s, key, last)] else []
  }

  /** The reactions that reach Matrix: known emotion, user sender; in payload order. */
  function Mappable(s: Settings, reactions: seq<Reaction>): seq<BridgedReaction> {
    if reactions == [] then []
    else
      var last := reactions[|reactions| - 1];
      var key := TrimSpace(last.emotionKey);
      Mappable(s, reactions[..|reactions| - 1])
      + if key == "" || key !in s.emojiOf then [] else UserReactions(s, key, last.users)
  }

  function SentBy(reactions: seq<BridgedReaction>, sender: string): seq<BridgedReaction> {
    if reactions == [] then []
    else
      var last := reactions[|reactions| - 1];
      SentBy(reactions[..|reactions| - 1], sender) + if last.sender == sender then [last] else []
  }

  function Senders(reactions: seq<BridgedReaction>): set<string> {
    set b | b in reactions :: b.sender
  }

  /** Every reaction under its own sender, in order. */
  function Grouped(reactions: seq<BridgedReaction>): (users: ReactionsByUser)
    ensures users == map[] <==> reactions == []
  {
    var users := map u | u in Senders(reactions) :: SentBy(reactions, u);
    assert reactions != [] ==> reactions[0].sender in users;
    users
  }

  /** Grouping loses nothing and adds nothing: each reaction is listed under the user who sent it, as often
      as the payload has it, and under no other user. */
  lemma GroupedExactly(reactions: seq<BridgedReaction>, b: BridgedReaction)
    ensures b in reactions ==> b.sender in Grouped(reactions)
    ensures forall u | u in Grouped(reactions) ::
              multiset(Grouped(reactions)[u])[b] == if u == b.sender then multiset(reactions)[b] else 0
  {
    forall u | u in Grouped(reactions) {
      SentByCount(reactions, u, b);
    }
  }

  lemma {:induction false} SentByCount(reactions: seq<BridgedReaction>, user: string, b: BridgedReaction)
    ensures multiset(SentBy(reactions, user))[b] == if user == b.sender then multiset(reactions)[b] else 0
  {
    if reactions != [] {
      var n := |reactions| - 1;
      SentByCount(reactions[..n], user, b);
      assert reactions == reactions[..n] + [reactions[n]];
    }
  }

  function AddReaction(users: ReactionsByUser, b: BridgedReaction): ReactionsByUser {
    users[b.sender := (if b.sender in users then users[b.sender] else []) + [b]]
  }

  lemma GroupedNext(flat: seq<BridgedReaction>, b: BridgedReaction)
    ensures AddReaction(Grouped(flat), b) == Grouped(flat + [b])
  {
    var before, after := Grouped(flat), Grouped(flat + [b]);
    assert (flat + [b])[..|flat|] == flat;
    assert forall x :: x in flat + [b] <==> x in flat || x == b;
    assert Senders(flat + [b]) == Senders(flat) + {b.sender};
    if b.sender !in before {
      NothingFrom(flat, b.sender);
    }
    assert AddReaction(before, b).Keys == after.Keys;
    forall u | u in after
      ensures AddReaction(before, b)[u] == after[u]
    {
      assert SentBy(flat + [b], u) == SentBy(flat, u) + if b.sender == u then [b] else [];
    }
  }

  // ----- what ends up where, spelled out on the payload

  /** The user's reaction shows as `b` under `x`: a trimmed emotion of the table, sent by a user who is no thread. */
  predicate ShowsAs(s: Settings, reaction: Reaction, user: ReactionUser, x: string, b: BridgedReaction) {
    var key := TrimSpace(reaction.emotionKey);
    && key != "" && key in s.emojiOf
    && TrimSpace(user.mri) == x && x != ""
    && !Contains(ToLower(x), "@thread.v2")
    && !Contains(ToLower(x), "@thread.skype")
    && !Contains(ToLower(x), "@unq.gbl.spaces")
    && b.sender == x
    && b.emojiID == key
    && b.emoji == s.emojiOf[key]
    && (b.isFromMe <==> TrimSpace(s.selfID) != "" && TrimSpace(s.selfID) == x)
    && (b.timestamp == if user.timeMS != 0 then Some(user.timeMS) else None)
  }

  function UsersShowing(s: Settings, reaction: Reaction, users: seq<ReactionUser>, x: string, b: BridgedReaction): nat {
    if users == [] then 0
    else
      var n := |users| - 1;
      UsersShowing(s, reaction, users[..n], x, b) + if ShowsAs(s, reaction, users[n], x, b) then 1 else 0
  }

  /** In how many places the payload shows `b` under `x`. */
  function TimesShown(s: Settings, reactions: seq<Reaction>, x: string, b: BridgedReaction): nat {
    if reactions == [] then 0
    else
      var n := |reactions| - 1;
      TimesShown(s, reactions[..n], x, b) + UsersShowing(s, reactions[n], reactions[n].users, x, b)
  }

  function TimesListed(users: ReactionsByUser, x: string, b: BridgedReaction): nat {
    if x in users then multiset(users[x])[b] else 0
  }

  lemma ShownReaction(s: Settings, reaction: Reaction, user: ReactionUser, b: BridgedReaction)
    ensures var key := TrimSpace(reaction.emotionKey);
            ShowsAs(s, reaction, user, b.sender, b) <==>
              key != "" && key in s.emojiOf && Bridgeable(user) && UserReaction(s, key, user) == b
  {
    TrimTwice(user.mri);
    hide TrimSpace, ToLower, Contains;
  }

  lemma {:induction false} UsersShown(s: Settings, reaction: Reaction, users: seq<ReactionUser>, b: BridgedReaction)
    ensures var key := TrimSpace(reaction.emotionKey);
            UsersShowing(s, reaction, users, b.sender, b) ==
              if key != "" && key in s.emojiOf then multiset(UserReactions(s, key, users))[b] else 0
  {
    hide TrimSpace, ShowsAs, Bridgeable, UserReaction;
    if users != [] {
      UsersShown(s, reaction, users[..|users| - 1], b);
      ShownReaction(s, reaction, users[|users| - 1], b);
    }
  }

  lemma {:induction false} PayloadShown(s: Settings, reactions: seq<Reaction>, b: BridgedReaction)
    ensures TimesShown(s, reactions, b.sender, b) == multiset(Mappable(s, reactions))[b]
  {
    hide TrimSpace, UsersShowing, UserReactions;
    if reactions != [] {
      var n := |reactions| - 1;
      PayloadShown(s, reactions[..n], b);
      UsersShown(s, reactions[n], reactions[n].users, b);
    }
  }

  lemma {:induction false} OnlyUnderSender(s: Settings, reactions: seq<Reaction>, x: string, b: BridgedReaction)
    requires x != b.sender
    ensures TimesShown(s, reactions, x, b) == 0
  {
    if reactions != [] {
      var n := |reactions| - 1;
      OnlyUnderSender(s, reactions[..n], x, b);
      NoUserShows(s, reactions[n], reactions[n].users, x, b);
    }
  }

  lemma {:induction false} NoUserShows(s: Settings, reaction: Reaction, users: seq<ReactionUser>, x: string,
                                       b: BridgedReaction)
    requires x != b.sender
    ensures UsersShowing(s, reaction, users, x, b) == 0
  {
    hide TrimSpace, ToLower, Contains;
    if users != [] {
      NoUserShows(s, reaction, users[..|users| - 1], x, b);
    }
  }

  /** Every reaction is listed under every user exactly as often as the payload shows it there. */
  lemma ListedAsShown(s: Settings, reactions: seq<Reaction>, x: string, b: BridgedReaction)
    ensures TimesListed(Grouped(Mappable(s, reactions)), x, b) == TimesShown(s, reactions, x, b)
  {
    hide ShowsAs, TimesShown, Mappable;
    var flat := Mappable(s, reactions);
    GroupedExactly(flat, b);
    if x == b.sender {
      PayloadShown(s, reactions, b);
      assert b in multiset(flat) ==> b in flat;
    } else {
      OnlyUnderSender(s, reactions, x, b);
    }
  }

  lemma AllListedAsShown(s: Settings, reactions: seq<Reaction>)
    ensures forall x, b :: TimesListed(Grouped(Mappable(s, reactions)), x, b) == TimesShown(s, reactions, x, b)
  {
    forall x, b ensures TimesListed(Grouped(Mappable(s, reactions)), x, b) == TimesShown(s, reactions, x, b) {
      ListedAsShown(s, reactions, x, b);
    }
    hide *;
  }

  /** buildReactionSyncData */
  method BuildSyncData(s: Settings, reactions: seq<Reaction>) returns (users: ReactionsByUser)
    ensures users == Grouped(Mappable(s, reactions))
    ensures forall x, b :: TimesListed(users, x, b) == TimesShown(s, reactions, x, b)
  {
    AllListedAsShown(s, reactions);
    hide TimesListed, TimesShown, TrimSpace, Bridgeable, Grouped, AddReaction, UserReactions, Mappable, UserReaction;
    users := map[];
    ghost var flat: seq<BridgedReaction> := [];
    assert Grouped(flat) == map[];
    MappableNothing(s);
    for i := 0 to |reactions|
      invariant flat == Mappable(s, reactions[..i])
      invariant users == Grouped(flat)
    {
      MappableNext(s, reactions, i);
      var key := TrimSpace(reactions[i].emotionKey);
      if key == "" || key !in s.emojiOf {
        continue;
      }
      ghost var before := flat;
      var members := reactions[i].users;
      UserReactionsNothing(s, key);
      for j := 0 to |members|
        invariant flat == before + UserReactions(s, key, members[..j])
        invariant users == Grouped(flat)
      {
        UserReactionsNext(s, key, members, j);
        if Bridgeable(members[j]) {
          var b := UserReaction(s, key, members[j]);
          GroupedNext(flat, b);
          users := AddReaction(users, b);
          flat := flat + [b];
        }
      }
      assert members[..|members|] == members;
    }
    assert reactions[..|reactions|] == reactions;
  }

  lemma MappableNothing(s: Settings)
    ensures Mappable(s, []) == []
  {
  }

  lemma MappableNext(s: Settings, reactions: seq<Reaction>, i: nat)
    requires i < |reactions|
    ensures var key := TrimSpace(reactions[i].emotionKey);
            Mappable(s, reactions[..i + 1]) == Mappable(s, reactions[..i])
              + if key == "" || key !in s.emojiOf then [] else UserReactions(s, key, reactions[i].users)
  {
    hide TrimSpace, UserReactions;
    assert reactions[..i + 1][..i] == reactions[..i];
  }

  lemma UserReactionsNothing(s: Settings, key: string)
    requires key in s.emojiOf
    ensures UserReactions(s, key, []) == []
  {
  }

  lemma UserReactionsNext(s: Settings, key: string, users: seq<ReactionUser>, j: nat)
    requires key in s.emojiOf && j < |users|
    ensures UserReactions(s, key, users[..j + 1])
         == UserReactions(s, key, users[..j]) + if Bridgeable(users[j]) then [UserReaction(s, key, users[j])] else []
  {
    hide Bridgeable, UserReaction;
    assert users[..j + 1][..j] == users[..j];
  }

  lemma {:induction false} NothingFrom(reactions: seq<BridgedReaction>, user: string)
    requires user !in Senders(reactions)
    ensures SentBy(reactions, user) == []
  {
    if reactions != [] {
      var n := |reactions| - 1;
      assert forall b | b in reactions[..n] :: b in reactions;
      NothingFrom(reactions[..n], user);
      assert reactions[n] in reactions;
    }
  }
}
