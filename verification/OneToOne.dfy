/** Telling one-to-one chats from group chats by their member lists. */
module OneToOne {
  import opened Decimal
  import opened Text

  datatype Member = Member(
    id: string,
    mri: string,
    displayName: string,
    name: string,
    isSelf: bool,
    isCurrentUser: bool
  )

  /** `titles` are the candidates for a thread name, from the thread properties down to the bare name. */
  datatype Conversation = Conversation(
    titles: seq<string>,
    members: seq<Member>,
    participants: seq<Member>,
    consumers: seq<Member>
  )

  // ----- participant ids

  /** The length of a leading digits-and-colon prefix with something after it, or 0. */
  function PrefixLength(id: string): (n: nat)
    ensures n < |id| || n == 0
  {
    var i := IndexOf(id, ':');
    if 0 < i && i + 1 < |id| && AllDigits(id[..i]) then i + 1 else 0
  }

  function StripPrefixes(id: string): string
    decreases |id|
  {
    var n := PrefixLength(id);
    if n == 0 then id else StripPrefixes(id[n..])
  }

  /** What is left is a suffix without a prefix to strip. */
  lemma {:induction false} StrippedIsSuffix(id: string)
    ensures var r := StripPrefixes(id);
            |r| <= |id| && r == id[|id| - |r|..] && PrefixLength(r) == 0 && (id != "" ==> r != "")
    decreases |id|
  {
    StripOnce(id);
    hide PrefixLength, StripPrefixes;
    var n := PrefixLength(id);
    if n != 0 {
      StrippedIsSuffix(id[n..]);
    }
  }

  function NormalizeID(raw: string): string {
    StripPrefixes(ToLower(TrimSpace(raw)))
  }

  method DigitsOnly(prefix: string) returns (digitsOnly: bool)
    ensures digitsOnly <==> AllDigits(prefix)
  {
    var k := 0;
    while k < |prefix|
      invariant 0 <= k <= |prefix|
      invariant AllDigits(prefix[..k])
    {
      if prefix[k] < '0' || prefix[k] > '9' {
        return false;
      }
      k := k + 1;
    }
    digitsOnly := true;
  }

  lemma StripNothing()
    ensures StripPrefixes("") == ""
  {
  }

  lemma StripStep(id: string)
    ensures var i := IndexOf(id, ':');
            StripPrefixes(id) == if 0 < i && i + 1 < |id| && AllDigits(id[..i]) then StripPrefixes(id[i + 1..]) else id
  {
    StripOnce(id);
    hide AllDigits, IndexOf, StripPrefixes;
  }

  lemma StripOnce(id: string)
    ensures StripPrefixes(id) == if PrefixLength(id) == 0 then id else StripPrefixes(id[PrefixLength(id)..])
  {
    hide PrefixLength;
  }

  method NormalizeParticipantID(raw: string) returns (id: string)
    ensures id == NormalizeID(raw)
  {
    hide TrimSpace, ToLower, AllDigits, StripPrefixes, IndexOf;
    StripNothing();
    id := ToLower(TrimSpace(raw));
    if id == "" {
      return "";
    }
    while true
      invariant StripPrefixes(id) == NormalizeID(raw)
      decreases |id|
    {
      StripStep(id);
      var i := IndexOf(id, ':');
      if i == 0 || i + 1 >= |id| {
        break;
      }
      var digitsOnly := DigitsOnly(id[..i]);
      if !digitsOnly {
        break;
      }
      id := id[i + 1..];
    }
  }

  lemma LowerIdempotent(s: string)
    ensures ToLower(ToLower(s)) == ToLower(s)
    ensures forall i | 0 <= i < |s| :: IsSpace(ToLower(s)[i]) <==> IsSpace(s[i])
  {
  }

  lemma LowerSuffix(s: string, k: nat)
    requires k <= |s|
    ensures ToLower(s[k..]) == ToLower(s)[k..]
  {
  }

  /** A suffix of lower-case text stays as it is when lowered again. */
  lemma ResultIsLower(raw: string)
    ensures ToLower(NormalizeID(raw)) == NormalizeID(raw)
    ensures NormalizeID(raw) != "" ==> !IsSpace(NormalizeID(raw)[|NormalizeID(raw)| - 1])
  {
    hide TrimSpace, StripPrefixes, PrefixLength, ToLower;
    var low := ToLower(TrimSpace(raw));
    var r := NormalizeID(raw);
    StrippedIsSuffix(low);
    LowerIdempotent(TrimSpace(raw));
    LowerSuffix(low, |low| - |r|);
    TrimSpaceIsTrimmed(raw);
  }

  /** Normalizing twice is normalizing once unless the result starts with whitespace. */
  lemma IdempotentUnlessBlankStart(raw: string)
    ensures var id := NormalizeID(raw);
            NormalizeID(id) == id <==> id == "" || !IsSpace(id[0])
  {
    hide TrimSpace, StripPrefixes, PrefixLength, ToLower;
    var id := NormalizeID(raw);
    ResultIsLower(raw);
    StrippedIsSuffix(ToLower(TrimSpace(raw)));
    if id == "" || !IsSpace(id[0]) {
      TrimSpaceOfTrimmed(id);
      NothingToStrip(id);
    } else {
      TrimSpaceShortens(id);
      StrippedIsSuffix(ToLower(TrimSpace(id)));
    }
  }

  /** Digit groups, each closed by a colon. */
  predicate DigitGroups(s: string)
    decreases |s|
  {
    s == "" || (var i := IndexOf(s, ':'); 0 < i < |s| && AllDigits(s[..i]) && DigitGroups(s[i + 1..]))
  }

  /** A blank stands right after one or more leading digit groups. */
  predicate BlankAfterGroups(t: string) {
    exists k | 0 < k < |t| :: IsSpace(t[k]) && DigitGroups(t[..k])
  }

  /** Normalizing twice differs from normalizing once exactly when the trimmed id has a blank after its leading digit
      groups. */
  lemma NormalizeIdempotentIff(raw: string)
    ensures NormalizeID(NormalizeID(raw)) == NormalizeID(raw) <==> !BlankAfterGroups(TrimSpace(raw))
  {
    hide TrimSpace, StripPrefixes, ToLower, DigitGroups;
    var t := TrimSpace(raw);
    TrimSpaceIsTrimmed(raw);
    IdempotentUnlessBlankStart(raw);
    StripLowered(t);
    LowerIdempotent(StripPrefixes(t));
    if StripPrefixes(t) != "" && IsSpace(StripPrefixes(t)[0]) {
      var k := BlankAfterStripped(t);
    }
    forall k | 0 < k < |t| && IsSpace(t[k]) && DigitGroups(t[..k])
      ensures StripPrefixes(t) != "" && IsSpace(StripPrefixes(t)[0])
    {
      StripsUpToBlank(t, k);
    }
  }

  /** An id without a blank after a colon normalizes once and for all; so does every id without blanks. */
  lemma NoBlankAfterColonIsIdempotent(raw: string)
    requires forall i | 0 < i < |raw| && raw[i - 1] == ':' :: !IsSpace(raw[i])
    ensures NormalizeID(NormalizeID(raw)) == NormalizeID(raw)
  {
    var t := TrimSpace(raw);
    var left, right := TrimSpaceSplits(raw);
    hide TrimSpace, DigitGroups, NormalizeID;
    NormalizeIdempotentIff(raw);
    forall k | 0 < k < |t| && DigitGroups(t[..k])
      ensures !IsSpace(t[k])
    {
      GroupsEndInColon(t[..k]);
      var n := |left| + k;
      assert raw[n - 1] == (left + t + right)[n - 1] == t[k - 1];
      assert raw[n] == (left + t + right)[n] == t[k];
    }
  }

  lemma {:induction false} GroupsEndInColon(s: string)
    requires s != "" && DigitGroups(s)
    ensures s[|s| - 1] == ':'
    decreases |s|
  {
    var i := IndexOf(s, ':');
    if i + 1 < |s| {
      GroupsEndInColon(s[i + 1..]);
    }
  }

  /** An id that takes two rounds. */
  lemma BlankTakesTwoRounds()
    ensures NormalizeID("8: x") == " x"
    ensures NormalizeID(" x") == "x"
  {
    assert IndexOf("8: x", ':') == 1 && IndexOf(" x", ':') == 2 && IndexOf("x", ':') == 1;
    assert "8: x"[2..] == " x" && " x"[1..] == "x";
    assert TrimSpace("8: x") == "8: x" && TrimSpace(" x") == "x";
    assert ToLower("8: x") == "8: x" && ToLower("x") == "x";
    assert PrefixLength("8: x") == 2;
  }

  lemma {:induction false} StripLowered(s: string)
    ensures StripPrefixes(ToLower(s)) == ToLower(StripPrefixes(s))
    decreases |s|
  {
    hide StripPrefixes, ToLower;
    StripOnce(s);
    StripOnce(ToLower(s));
    LoweredPrefixLength(s);
    var n := PrefixLength(s);
    if n != 0 {
      LowerSuffix(s, n);
      StripLowered(s[n..]);
    }
  }

  lemma LoweredPrefixLength(s: string)
    ensures PrefixLength(ToLower(s)) == PrefixLength(s)
  {
    hide ToLower, IndexOf;
    var i := IndexOf(s, ':');
    assert IndexOf(ToLower(s), ':') == i;
    assert AllDigits(ToLower(s)[..i]) <==> AllDigits(s[..i]) by {
      assert forall k | 0 <= k < i :: ToLower(s)[..i][k] == LowerChar(s[..i][k]);
    }
  }

  /** A blank that starts what is left stands after leading digit groups. */
  lemma {:induction false} BlankAfterStripped(s: string) returns (k: nat)
    requires StripPrefixes(s) != "" && IsSpace(StripPrefixes(s)[0])
    ensures k < |s| && IsSpace(s[k]) && DigitGroups(s[..k])
    decreases |s|
  {
    hide StripPrefixes, IndexOf, AllDigits;
    StripOnce(s);
    var n := PrefixLength(s);
    if n == 0 {
      k := 0;
    } else {
      var after := BlankAfterStripped(s[n..]);
      k := n + after;
      IndexOfTake(s, k, ':');
      assert s[..k][..n - 1] == s[..n - 1] && s[..k][n..] == s[n..][..after];
    }
  }

  /** Leading digit groups before a blank are all stripped, and nothing else is. */
  lemma {:induction false} StripsUpToBlank(s: string, k: nat)
    requires k < |s| && IsSpace(s[k]) && DigitGroups(s[..k])
    ensures StripPrefixes(s) == s[k..]
    decreases |s|
  {
    hide StripPrefixes, IndexOf;
    StripOnce(s);
    if k == 0 {
      assert IndexOf(s, ':') > 0 ==> s[..IndexOf(s, ':')][0] == s[0];
    } else {
      var i := IndexOf(s[..k], ':');
      IndexOfTake(s, k, ':');
      assert s[..k][..i] == s[..i] && s[..k][i + 1..] == s[i + 1..][..k - i - 1];
      StripsUpToBlank(s[i + 1..], k - i - 1);
    }
  }

  lemma IndexOfTake(s: string, k: nat, c: char)
    requires k <= |s|
    ensures IndexOf(s, c) < k ==> IndexOf(s[..k], c) == IndexOf(s, c)
    ensures IndexOf(s[..k], c) < k ==> IndexOf(s[..k], c) == IndexOf(s, c)
  {
    hide IndexOf;
    var i, j := IndexOf(s, c), IndexOf(s[..k], c);
    if j < k {
      assert s[j] == s[..k][j];
    }
    if i < k {
      assert s[..k][i] == s[i];
    }
  }

  lemma NothingToStrip(id: string)
    requires PrefixLength(id) == 0
    ensures StripPrefixes(id) == id
  {
  }

  lemma TrimSpaceShortens(s: string)
    requires s != "" && IsSpace(s[0])
    ensures |TrimSpace(s)| < |s|
  {
    TrimLeftSplits(s[1..]);
    TrimRightSplits(TrimLeft(s));
  }

  // ----- members

  function MemberID(m: Member): string {
    if TrimSpace(m.id) != "" then TrimSpace(m.id) else TrimSpace(m.mri)
  }

  function MemberName(m: Member): string {
    if TrimSpace(m.displayName) != "" then TrimSpace(m.displayName) else TrimSpace(m.name)
  }

  predicate IsExplicitSelf(m: Member, memberID: string, selfUserID: string, selfNorm: string) {
    || m.isSelf || m.isCurrentUser
    || (selfUserID != "" && memberID != "" && EqualFold(memberID, selfUserID))
    || (selfNorm != "" && NormalizeID(memberID) == selfNorm)
  }

  predicate IsLikelyBotID(raw: string) {
    var id := TrimSpace(ToLower(raw));
    HasPrefix(id, "28:") || Contains(id, "teamsbot")
  }

  predicate IsSelf(m: Member, selfID: string) {
    IsExplicitSelf(m, MemberID(m), selfID, NormalizeID(selfID))
  }

  /** What tells two members apart: the normalized id, else the lowered name. */
  function KeyOf(m: Member): string {
    var id := NormalizeID(MemberID(m));
    if id != "" then id else ToLower(MemberName(m))
  }

  // ----- the conversation as a set of members

  function Everyone(c: Conversation): set<Member> {
    Among(c.members + c.participants + c.consumers)
  }

  function Among(list: seq<Member>): set<Member> {
    set m | m in list
  }

  function SelfNames(everyone: set<Member>, selfID: string): set<string> {
    set m | m in everyone && IsSelf(m, selfID) && MemberName(m) != "" :: ToLower(MemberName(m))
  }

  /** Not the user, not a bot, not named like the user, and with something to tell it by. */
  predicate IsOther(m: Member, selfID: string, selfNames: set<string>) {
    && !IsSelf(m, selfID)
    && !IsLikelyBotID(MemberID(m))
    && !(MemberName(m) != "" && ToLower(MemberName(m)) in selfNames)
    && KeyOf(m) != ""
  }

  function OtherKeys(everyone: set<Member>, selfID: string): set<string> {
    set m | m in everyone && IsOther(m, selfID, SelfNames(everyone, selfID)) :: KeyOf(m)
  }

  predicate Named(c: Conversation) {
    exists t | t in c.titles :: TrimSpace(t) != ""
  }

  /** resolveThreadName: the first candidate that is not blank. */
  method ResolveThreadName(c: Conversation) returns (name: string)
    ensures name == "" <==> !Named(c)
    ensures name != "" ==>
      exists i | 0 <= i < |c.titles| ::
        name == TrimSpace(c.titles[i]) && forall j | 0 <= j < i :: TrimSpace(c.titles[j]) == ""
  {
    hide TrimSpace;
    var i := 0;
    while i < |c.titles|
      invariant 0 <= i <= |c.titles|
      invariant forall j | 0 <= j < i :: TrimSpace(c.titles[j]) == ""
    {
      name := TrimSpace(c.titles[i]);
      if name != "" {
        assert c.titles[i] in c.titles;
        return;
      }
      i := i + 1;
    }
    name := "";
  }

  method CollectSelfDisplayNames(c: Conversation, selfID: string, selfNorm: string) returns (names: set<string>)
    requires selfNorm == NormalizeID(selfID)
    ensures names == SelfNames(Everyone(c), selfID)
  {
    hide IsExplicitSelf, MemberName, ToLower, SelfNames, NormalizeID;
    names := {};
    ghost var seen: seq<Member> := [];
    NoSelfNames(selfID);
    var lists := [c.members, c.participants, c.consumers];
    var l := 0;
    while l < |lists|
      invariant 0 <= l <= |lists|
      invariant seen == Flat(lists[..l])
      invariant names == SelfNames(Among(seen), selfID)
    {
      var i := 0;
      while i < |lists[l]|
        invariant 0 <= i <= |lists[l]|
        invariant seen == Flat(lists[..l]) + lists[l][..i]
        invariant names == SelfNames(Among(seen), selfID)
      {
        var member := lists[l][i];
        SelfNamesNext(seen, member, selfID);
        seen := seen + [member];
        if IsExplicitSelf(member, MemberID(member), selfID, selfNorm) && MemberName(member) != "" {
          names := names + {ToLower(MemberName(member))};
        }
        i := i + 1;
      }
      assert lists[..l + 1][..l] == lists[..l] && lists[l][..|lists[l]|] == lists[l];
      l := l + 1;
    }
    FlatLists(c);
  }

  lemma NoSelfNames(selfID: string)
    ensures SelfNames(Among([]), selfID) == {}
  {
  }

  lemma SelfNamesNext(seen: seq<Member>, m: Member, selfID: string)
    ensures SelfNames(Among(seen + [m]), selfID)
         == SelfNames(Among(seen), selfID)
            + if IsSelf(m, selfID) && MemberName(m) != "" then {ToLower(MemberName(m))} else {}
  {
    hide IsSelf, MemberName, ToLower;
    assert Among(seen + [m]) == Among(seen) + {m};
  }

  lemma FlatLists(c: Conversation)
    ensures Flat([c.members, c.participants, c.consumers]) == c.members + c.participants + c.consumers
    ensures Flat([c.members, c.participants, c.consumers][..3]) == c.members + c.participants + c.consumers
  {
    var lists := [c.members, c.participants, c.consumers];
    assert lists[..3] == lists && lists[..2] == [c.members, c.participants];
    assert [c.members, c.participants][..1] == [c.members];
    assert Flat([c.members]) == c.members;
    assert Flat([c.members, c.participants]) == c.members + c.participants;
  }

  function Flat(lists: seq<seq<Member>>): seq<Member> {
    if lists == [] then [] else Flat(lists[..|lists| - 1]) + lists[|lists| - 1]
  }

  // ----- the decision

  /** isLikelyOneToOne */
  method IsLikelyOneToOne(c: Conversation, selfUserID: string) returns (r: bool)
    ensures r <==> !Named(c) && |OtherKeys(Everyone(c), TrimSpace(selfUserID))| == 1
  {
    hide IsExplicitSelf, MemberName, MemberID, ToLower, SelfNames, NormalizeID, IsLikelyBotID, TrimSpace, Named,
         Everyone, KeysAmong, OtherKeys, Flat;
    var name := ResolveThreadName(c);
    if name != "" {
      return false;
    }
    var selfID := TrimSpace(selfUserID);
    var selfNorm := NormalizeID(selfID);
    var selfNames := CollectSelfDisplayNames(c, selfID, selfNorm);
    var others: set<string> := {};
    ghost var seen: seq<Member> := [];
    NoKeys(selfID, selfNames);
    var lists := [c.members, c.participants, c.consumers];
    var l := 0;
    while l < |lists|
      invariant 0 <= l <= |lists|
      invariant seen == Flat(lists[..l])
      invariant others == KeysAmong(seen, selfID, selfNames)
      invariant |others| <= 1
    {
      var i := 0;
      while i < |lists[l]|
        invariant 0 <= i <= |lists[l]|
        invariant seen == Flat(lists[..l]) + lists[l][..i]
        invariant others == KeysAmong(seen, selfID, selfNames)
        invariant |others| <= 1
      {
        var member := lists[l][i];
        i := i + 1;
        KeysNext(seen, member, selfID, selfNames);
        seen := seen + [member];
        var rawID := MemberID(member);
        if IsExplicitSelf(member, rawID, selfID, selfNorm) {
          continue;
        }
        if IsLikelyBotID(rawID) {
          continue;
        }
        if MemberName(member) != "" && ToLower(MemberName(member)) in selfNames {
          continue;
        }
        var idKey := NormalizeParticipantID(rawID);
        if idKey == "" {
          idKey := ToLower(MemberName(member));
        }
        if idKey == "" {
          continue;
        }
        others := others + {idKey};
        if |others| > 1 {
          KeysOnlyGrow(c, seen, l, i, selfID, selfNames);
          return false;
        }
      }
      FlatNext(lists, l);
      l := l + 1;
    }
    FlatLists(c);
    KeysOfEveryone(c, selfID);
    r := |others| == 1;
  }

  function KeysAmong(seen: seq<Member>, selfID: string, selfNames: set<string>): set<string> {
    set m | m in seen && IsOther(m, selfID, selfNames) :: KeyOf(m)
  }

  lemma NoKeys(selfID: string, selfNames: set<string>)
    ensures KeysAmong([], selfID, selfNames) == {} && Flat([]) == []
  {
  }

  lemma FlatNext(lists: seq<seq<Member>>, l: nat)
    requires l < |lists|
    ensures Flat(lists[..l + 1]) == Flat(lists[..l]) + lists[l][..|lists[l]|]
  {
    assert lists[..l + 1][..l] == lists[..l] && lists[l][..|lists[l]|] == lists[l];
  }

  lemma KeysNext(seen: seq<Member>, m: Member, selfID: string, selfNames: set<string>)
    ensures KeysAmong(seen + [m], selfID, selfNames)
         == KeysAmong(seen, selfID, selfNames) + if IsOther(m, selfID, selfNames) then {KeyOf(m)} else {}
  {
    hide IsOther, KeyOf;
    forall k ensures k in KeysAmong(seen + [m], selfID, selfNames)
      <==> k in KeysAmong(seen, selfID, selfNames) + if IsOther(m, selfID, selfNames) then {KeyOf(m)} else {}
    {
      assert forall x :: x in seen + [m] <==> x in seen || x == m;
    }
  }

  lemma KeysOfEveryone(c: Conversation, selfID: string)
    ensures KeysAmong(c.members + c.participants + c.consumers, selfID, SelfNames(Everyone(c), selfID))
         == OtherKeys(Everyone(c), selfID)
  {
    hide IsOther, KeyOf, SelfNames;
  }

  lemma Subset(a: set<string>, b: set<string>)
    requires a <= b
    ensures |a| <= |b|
  {
    assert b == a + (b - a);
  }

  /** Two keys among the first members are two keys among all of them. */
  lemma KeysOnlyGrow(c: Conversation, seen: seq<Member>, l: nat, i: nat, selfID: string, selfNames: set<string>)
    requires l < 3 && selfNames == SelfNames(Everyone(c), selfID)
    requires var lists := [c.members, c.participants, c.consumers];
             i <= |lists[l]| && seen == Flat(lists[..l]) + lists[l][..i]
    ensures |KeysAmong(seen, selfID, selfNames)| <= |OtherKeys(Everyone(c), selfID)|
  {
    hide IsOther, KeyOf, SelfNames;
    var lists := [c.members, c.participants, c.consumers];
    FlatAmong(lists, l);
    FlatLists(c);
    assert forall m | m in seen :: m in c.members + c.participants + c.consumers;
    Subset(KeysAmong(seen, selfID, selfNames), OtherKeys(Everyone(c), selfID));
  }

  lemma {:induction false} FlatAmong(lists: seq<seq<Member>>, l: nat)
    requires l < |lists|
    ensures forall m | m in Flat(lists[..l]) || m in lists[l] :: m in Flat(lists)
    decreases |lists|
  {
    var n := |lists| - 1;
    if l < n {
      FlatAmong(lists[..n], l);
      assert lists[..n][..l] == lists[..l];
    }
  }

  /** The answer depends on the set of members alone: how they are ordered, repeated or spread over the three lists
      does not matter. */
  lemma OnlyMemberSetMatters(c1: Conversation, c2: Conversation, selfUserID: string)
    requires Named(c1) == Named(c2)
    requires forall m ::
               m in c1.members + c1.participants + c1.consumers <==> m in c2.members + c2.participants + c2.consumers
    ensures (!Named(c1) && |OtherKeys(Everyone(c1), TrimSpace(selfUserID))| == 1)
        <==> (!Named(c2) && |OtherKeys(Everyone(c2), TrimSpace(selfUserID))| == 1)
  {
    hide Named, OtherKeys, TrimSpace;
    assert Everyone(c1) == Everyone(c2);
  }

  /** An unnamed chat with just the user and one other, identifiable person is one-to-one, however often the two are
      listed; a bot among them changes nothing. */
  lemma PairIsOneToOne(everyone: set<Member>, selfID: string, me: Member, other: Member)
    requires me in everyone && IsSelf(me, selfID)
    requires other in everyone && IsOther(other, selfID, SelfNames(everyone, selfID))
    requires forall m | m in everyone && m != me && m != other :: IsSelf(m, selfID) || IsLikelyBotID(MemberID(m))
    ensures OtherKeys(everyone, selfID) == {KeyOf(other)} && |OtherKeys(everyone, selfID)| == 1
  {
    hide IsSelf, IsLikelyBotID, MemberName, KeyOf, SelfNames;
    var keys := OtherKeys(everyone, selfID);
    assert KeyOf(other) in keys;
    forall k | k in keys ensures k == KeyOf(other) {
      var m :| m in everyone && IsOther(m, selfID, SelfNames(everyone, selfID)) && KeyOf(m) == k;
    }
    assert keys == {KeyOf(other)};
  }
}
