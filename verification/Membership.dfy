/** Who counts when a chat is told apart from a group, spelled out on the members. */
module Membership {
  import opened Text
  import opened OneToOne

  /** The member's id: `id` unless that is blank, else `mri`. */
  predicate IsID(m: Member, id: string) {
    if TrimSpace(m.id) == "" then id == TrimSpace(m.mri) else id == TrimSpace(m.id)
  }

  predicate IsName(m: Member, name: string) {
    if TrimSpace(m.displayName) == "" then name == TrimSpace(m.name) else name == TrimSpace(m.displayName)
  }

  /** The member is the user: flagged so, or with the user's id up to case, or up to case and digit prefixes. */
  ghost predicate IsUser(m: Member, selfUserID: string) {
    || m.isSelf
    || m.isCurrentUser
    || exists id | IsID(m, id) ::
         || (TrimSpace(selfUserID) != "" && ToLower(id) == ToLower(TrimSpace(selfUserID)))
         || (NormalizeID(selfUserID) != "" && NormalizeID(id) == NormalizeID(selfUserID))
  }

  /** The member is a bot: its lowered id starts with "28:" or has "teamsbot" in it. */
  ghost predicate IsBot(m: Member) {
    exists id | IsID(m, id) ::
      || (|id| >= 3 && id[0] == '2' && id[1] == '8' && id[2] == ':')
      || Contains(ToLower(id), "teamsbot")
  }

  /** The member is called like the user somewhere in the chat. */
  ghost predicate NamedLikeUser(m: Member, everyone: set<Member>, selfUserID: string) {
    exists me, name, own | me in everyone && IsUser(me, selfUserID) && IsName(m, name) && IsName(me, own) ::
      name != "" && ToLower(name) == ToLower(own)
  }

  /** The key is the normalized id, or the lowered name if nothing is left of the id. */
  ghost predicate HasKey(m: Member, key: string) {
    exists id, name | IsID(m, id) && IsName(m, name) ::
      key == if NormalizeID(id) == "" then ToLower(name) else NormalizeID(id)
  }

  /** Someone else by that key. */
  ghost predicate Counts(m: Member, everyone: set<Member>, selfUserID: string, key: string) {
    && HasKey(m, key) && key != ""
    && !IsUser(m, selfUserID) && !IsBot(m) && !NamedLikeUser(m, everyone, selfUserID)
  }

  // ----- the model's own terms

  lemma UserMeans(m: Member, selfUserID: string)
    ensures IsUser(m, selfUserID) <==> IsSelf(m, TrimSpace(selfUserID))
  {
    TrimTwice(selfUserID);
    hide TrimSpace, ToLower, StripPrefixes;
    assert IsID(m, MemberID(m));
    assert ToLower("") == "";
    assert forall s: string :: |ToLower(s)| == |s|;
  }

  lemma BotMeans(m: Member)
    ensures IsBot(m) <==> IsLikelyBotID(MemberID(m))
  {
    TrimTwice(m.id);
    TrimTwice(m.mri);
    BotID(MemberID(m));
    hide TrimSpace, Contains, ToLower, IsLikelyBotID;
    assert IsID(m, MemberID(m));
  }

  lemma BotID(id: string)
    requires TrimSpace(id) == id
    ensures IsLikelyBotID(id) <==>
              || (|id| >= 3 && id[0] == '2' && id[1] == '8' && id[2] == ':')
              || Contains(ToLower(id), "teamsbot")
  {
    LowerTrimmed(id);
    hide TrimSpace, Contains;
    if |id| >= 3 {
      assert ToLower(id)[..3] == [LowerChar(id[0]), LowerChar(id[1]), LowerChar(id[2])];
    }
  }

  lemma LowerTrimmed(id: string)
    requires TrimSpace(id) == id
    ensures TrimSpace(ToLower(id)) == ToLower(id)
  {
    TrimSpaceIsTrimmed(id);
    LowerIdempotent(id);
    TrimSpaceOfTrimmed(ToLower(id));
  }

  lemma NameMeans(m: Member, everyone: set<Member>, selfUserID: string)
    ensures NamedLikeUser(m, everyone, selfUserID) <==>
              MemberName(m) != "" && ToLower(MemberName(m)) in SelfNames(everyone, TrimSpace(selfUserID))
  {
    hide TrimSpace, IsUser, IsSelf, ToLower;
    assert forall x: Member :: IsName(x, MemberName(x));
    assert forall s: string :: |ToLower(s)| == |s|;
    forall me | me in everyone
      ensures IsUser(me, selfUserID) <==> IsSelf(me, TrimSpace(selfUserID))
    {
      UserMeans(me, selfUserID);
    }
  }

  lemma KeyMeans(m: Member, key: string)
    ensures HasKey(m, key) <==> key == KeyOf(m)
  {
    hide TrimSpace, ToLower, NormalizeID;
    assert IsID(m, MemberID(m)) && IsName(m, MemberName(m));
  }

  lemma CountsMeans(m: Member, everyone: set<Member>, selfUserID: string, key: string)
    ensures var self := TrimSpace(selfUserID);
            Counts(m, everyone, selfUserID, key) <==> IsOther(m, self, SelfNames(everyone, self)) && KeyOf(m) == key
  {
    UserMeans(m, selfUserID);
    BotMeans(m);
    NameMeans(m, everyone, selfUserID);
    KeyMeans(m, key);
    hide IsUser, IsBot, NamedLikeUser, HasKey, IsSelf, IsLikelyBotID, SelfNames, KeyOf, TrimSpace, ToLower;
  }

  /** The key of someone who counts. */
  ghost predicate Counted(everyone: set<Member>, selfUserID: string, key: string) {
    exists m | m in everyone :: Counts(m, everyone, selfUserID, key)
  }

  /** The method answers yes exactly when no title is there and all who count, one at least, have one key. */
  lemma OneToOneExactly(c: Conversation, selfUserID: string)
    ensures var everyone := set m | m in c.members + c.participants + c.consumers;
            (!Named(c) && |OtherKeys(Everyone(c), TrimSpace(selfUserID))| == 1) <==>
              && (forall t | t in c.titles :: TrimSpace(t) == "")
              && exists key | Counted(everyone, selfUserID, key) ::
                   forall k | Counted(everyone, selfUserID, k) :: k == key
  {
    var everyone := set m | m in c.members + c.participants + c.consumers;
    assert everyone == Everyone(c);
    var keys := OtherKeys(everyone, TrimSpace(selfUserID));
    hide Counted, OtherKeys, TrimSpace, Everyone, Named;
    forall key ensures key in keys <==> Counted(everyone, selfUserID, key) {
      KeysAreCounted(everyone, selfUserID, key);
    }
    SingleKey(keys);
    NoTitle(c);
  }

  lemma KeysAreCounted(everyone: set<Member>, selfUserID: string, key: string)
    ensures key in OtherKeys(everyone, TrimSpace(selfUserID)) <==> Counted(everyone, selfUserID, key)
  {
    hide Counts, IsOther, SelfNames, KeyOf, TrimSpace;
    forall m | m in everyone
      ensures var self := TrimSpace(selfUserID);
              Counts(m, everyone, selfUserID, key) <==> IsOther(m, self, SelfNames(everyone, self)) && KeyOf(m) == key
    {
      CountsMeans(m, everyone, selfUserID, key);
    }
  }

  lemma NoTitle(c: Conversation)
    ensures !Named(c) <==> forall t | t in c.titles :: TrimSpace(t) == ""
  {
    hide TrimSpace;
  }

  lemma SingleKey(keys: set<string>)
    ensures |keys| == 1 <==> exists key | key in keys :: forall k | k in keys :: k == key
  {
    if |keys| == 1 {
      var key :| key in keys;
      assert |keys - {key}| == 0;
      assert forall k | k in keys :: k in keys - {key} || k == key;
    }
    if key :| key in keys && forall k | k in keys :: k == key {
      assert keys == {key};
    }
  }
}
