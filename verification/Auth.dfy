/** The bundle of tokens the auth package passes around, and the rules that pick and merge tokens. */
module Auth {
  import opened Text

  datatype AuthState = AuthState(
    accessToken: string,
    refreshToken: string,
    expiresAtUnix: int,
    idToken: string,
    skypeToken: string,
    skypeTokenExpiresAt: int,
    graphAccessToken: string,
    graphExpiresAt: int,
    teamsUserID: string
  )

  const EMPTY_STATE := AuthState("", "", 0, "", "", 0, "", 0, "")

  const MBI_MARKER := "service::api.fl.spaces.skype.com::mbi_ssl"
  const GRAPH_MARKER := "graph.microsoft.com"

  // ----- the token that expires last

  /** A usable cached token; the user ID is only kept for Skype tokens. */
  datatype Offer = Offer(token: string, expiresAt: int, userID: string)

  const NO_OFFER := Offer("", 0, "")

  predicate ShouldReplaceCachedToken(current: string, currentExpiry: int, candidateExpiry: int) {
    current == "" || candidateExpiry > currentExpiry
  }

  function Better(best: Offer, candidate: Offer): Offer {
    if ShouldReplaceCachedToken(best.token, best.expiresAt, candidate.expiresAt) then candidate else best
  }

  /** What is left after seeing the offers one by one. */
  function Best(offers: seq<Offer>): Offer {
    if offers == [] then NO_OFFER else Better(Best(offers[..|offers| - 1]), offers[|offers| - 1])
  }

  predicate Usable(offers: seq<Offer>) {
    forall o | o in offers :: o.token != ""
  }

  predicate ExpiresLast(o: Offer, offers: seq<Offer>) {
    o in offers && forall other | other in offers :: other.expiresAt <= o.expiresAt
  }

  /** The kept offer is the first of those that expire last. */
  lemma {:induction false} BestIsFirstLatest(offers: seq<Offer>) returns (i: nat)
    requires offers != [] && Usable(offers)
    ensures i < |offers| && Best(offers) == offers[i]
    ensures forall j | 0 <= j < i :: offers[j].expiresAt < offers[i].expiresAt
    ensures ExpiresLast(offers[i], offers)
  {
    var n := |offers| - 1;
    var before := offers[..n];
    if n == 0 {
      i := 0;
    } else {
      var k := BestIsFirstLatest(before);
      assert before[k].token != "";
      i := if offers[n].expiresAt > before[k].expiresAt then n else k;
      forall j | 0 <= j < |offers|
        ensures offers[j].expiresAt <= offers[i].expiresAt
      {
        assert j < n ==> offers[j] == before[j] && before[j] in before;
      }
    }
  }

  /** The offers that expire last are all the same offer. */
  predicate Settled(offers: seq<Offer>) {
    forall a, b | a in offers && b in offers && ExpiresLast(a, offers) && ExpiresLast(b, offers) :: a == b
  }

  lemma BestOfSameOffers(s: seq<Offer>, t: seq<Offer>)
    requires Usable(s) && Settled(s)
    requires forall o :: o in s <==> o in t
    ensures Best(s) == Best(t)
  {
    assert s != [] ==> s[0] in t;
    assert t != [] ==> t[0] in s;
    if s != [] {
      var i := BestIsFirstLatest(s);
      var j := BestIsFirstLatest(t);
      assert ExpiresLast(t[j], s) by {
        assert t[j] in t;
      }
    }
  }

  lemma BestStartsLatest(o: Offer, rest: seq<Offer>)
    requires Usable([o] + rest) && ExpiresLast(o, [o] + rest)
    ensures Best([o] + rest) == o
  {
    var offers := [o] + rest;
    var i := BestIsFirstLatest(offers);
    assert offers[i] in offers;
    assert offers[i].expiresAt <= offers[0].expiresAt;
  }

  // ----- choosing among MSAL entries

  datatype MsalEntry = MsalEntry(secret: string, expiresAt: int, target: string)

  predicate Matches(e: Option<MsalEntry>, marker: string) {
    e.Some? && e.value.secret != "" && e.value.target != "" && Contains(ToLower(e.value.target), marker)
  }

  function MsalOffers(keys: seq<string>, read: string -> Option<MsalEntry>, marker: string): (offers: seq<Offer>)
    ensures Usable(offers)
  {
    if keys == [] then []
    else
      var before := MsalOffers(keys[..|keys| - 1], read, marker);
      var e := read(keys[|keys| - 1]);
      if Matches(e, marker) then before + [Offer(e.value.secret, e.value.expiresAt, "")] else before
  }

  /** selectMBIAccessToken and selectGraphAccessToken, which differ in the marker alone. */
  method SelectAccessToken(keys: seq<string>, read: string -> Option<MsalEntry>, marker: string)
    returns (bestToken: string, bestExpiry: int)
    ensures Offer(bestToken, bestExpiry, "") == Best(MsalOffers(keys, read, marker))
    ensures bestToken == "" <==> forall k | k in keys :: !Matches(read(k), marker)
    ensures bestToken != "" ==>
      exists i | 0 <= i < |keys| ::
        && Matches(read(keys[i]), marker)
        && read(keys[i]).value.secret == bestToken
        && read(keys[i]).value.expiresAt == bestExpiry
    ensures forall k | k in keys && Matches(read(k), marker) :: read(k).value.expiresAt <= bestExpiry
  {
    hide Matches;
    bestToken, bestExpiry := "", 0;
    var i := 0;
    while i < |keys|
      invariant 0 <= i <= |keys|
      invariant Offer(bestToken, bestExpiry, "") == Best(MsalOffers(keys[..i], read, marker))
    {
      MsalOffersNext(keys, read, marker, i);
      var e := read(keys[i]);
      if Matches(e, marker) {
        if ShouldReplaceCachedToken(bestToken, bestExpiry, e.value.expiresAt) {
          bestToken, bestExpiry := e.value.secret, e.value.expiresAt;
        }
      }
      i := i + 1;
    }
    assert keys[..|keys|] == keys;
    MsalBest(keys, read, marker);
  }

  lemma MsalOffersNext(keys: seq<string>, read: string -> Option<MsalEntry>, marker: string, i: nat)
    requires i < |keys|
    ensures var e, best := read(keys[i]), Best(MsalOffers(keys[..i], read, marker));
            && (Matches(e, marker) ==> e.Some?)
            && Best(MsalOffers(keys[..i + 1], read, marker))
            == if Matches(e, marker) then Better(best, Offer(e.value.secret, e.value.expiresAt, "")) else best
  {
    hide ToLower, Contains;
    assert keys[..i + 1][..i] == keys[..i];
    var before := MsalOffers(keys[..i], read, marker);
    var e := read(keys[i]);
    if Matches(e, marker) {
      assert (before + [Offer(e.value.secret, e.value.expiresAt, "")])[..|before|] == before;
    }
  }

  lemma {:induction false} MsalOfferedBy(keys: seq<string>, read: string -> Option<MsalEntry>, marker: string)
    ensures forall o :: o in MsalOffers(keys, read, marker) <==>
              exists i | 0 <= i < |keys| ::
                && Matches(read(keys[i]), marker)
                && o == Offer(read(keys[i]).value.secret, read(keys[i]).value.expiresAt, "")
  {
    hide ToLower, Contains;
    if keys != [] {
      MsalOfferedBy(keys[..|keys| - 1], read, marker);
    }
  }

  lemma MsalBest(keys: seq<string>, read: string -> Option<MsalEntry>, marker: string)
    ensures var best := Best(MsalOffers(keys, read, marker));
            && (best.token == "" <==> forall k | k in keys :: !Matches(read(k), marker))
            && (best.token != "" ==>
                  exists i | 0 <= i < |keys| ::
                    && Matches(read(keys[i]), marker)
                    && read(keys[i]).value.secret == best.token
                    && read(keys[i]).value.expiresAt == best.expiresAt)
            && forall k | k in keys && Matches(read(k), marker) :: read(k).value.expiresAt <= best.expiresAt
  {
    hide ToLower, Contains, MsalOffers;
    var offers := MsalOffers(keys, read, marker);
    MsalOfferedBy(keys, read, marker);
    forall k | k in keys && Matches(read(k), marker)
      ensures Offer(read(k).value.secret, read(k).value.expiresAt, "") in offers
    {
      var i :| 0 <= i < |keys| && keys[i] == k;
    }
    if offers != [] {
      var i := BestIsFirstLatest(offers);
      assert offers[i] in offers;
    }
  }

  // ----- merging states

  /** Each token of the destination wins over the source's, and takes its own expiry along. */
  function Merged(d: AuthState, s: AuthState): AuthState {
    AuthState(
      if d.accessToken == "" then s.accessToken else d.accessToken,
      if d.refreshToken == "" then s.refreshToken else d.refreshToken,
      if d.accessToken == "" then s.expiresAtUnix else d.expiresAtUnix,
      if d.idToken == "" then s.idToken else d.idToken,
      if d.skypeToken == "" then s.skypeToken else d.skypeToken,
      if d.skypeToken == "" then s.skypeTokenExpiresAt else d.skypeTokenExpiresAt,
      if d.graphAccessToken == "" then s.graphAccessToken else d.graphAccessToken,
      if d.graphAccessToken == "" then s.graphExpiresAt else d.graphExpiresAt,
      if d.teamsUserID == "" then s.teamsUserID else d.teamsUserID)
  }

  class StateRef {
    var state: AuthState

    constructor (state: AuthState)
      ensures this.state == state
    {
      this.state := state;
    }

    /** mergeAuthState; `source` may be the destination itself. */
    method MergeFrom(source: StateRef)
      modifies this
      ensures state == Merged(old(state), old(source.state))
      ensures source != this ==> source.state == old(source.state)
    {
      if state.accessToken == "" {
        state := state.(accessToken := source.state.accessToken, expiresAtUnix := source.state.expiresAtUnix);
      }
      if state.refreshToken == "" {
        state := state.(refreshToken := source.state.refreshToken);
      }
      if state.idToken == "" {
        state := state.(idToken := source.state.idToken);
      }
      if state.skypeToken == "" {
        state := state.(skypeToken := source.state.skypeToken, skypeTokenExpiresAt := source.state.skypeTokenExpiresAt);
      }
      if state.graphAccessToken == "" {
        state := state.(graphAccessToken := source.state.graphAccessToken,
                        graphExpiresAt := source.state.graphExpiresAt);
      }
      if state.teamsUserID == "" {
        state := state.(teamsUserID := source.state.teamsUserID);
      }
    }
  }

  /** Merging the states into an empty one, first to last. */
  function MergeAll(states: seq<AuthState>): AuthState {
    if states == [] then EMPTY_STATE else Merged(MergeAll(states[..|states| - 1]), states[|states| - 1])
  }

  /** Merging is associative, so sources may be merged in groups. (An empty group is no right unit: it would wipe
      an expiry that came without its token.) */
  lemma {:induction false} MergeAllAppend(a: seq<AuthState>, b: seq<AuthState>)
    requires b != []
    ensures MergeAll(a + b) == Merged(MergeAll(a), MergeAll(b))
    decreases |b|
  {
    var n := |b| - 1;
    assert (a + b)[..|a + b| - 1] == a + b[..n];
    if n == 0 {
      assert a + b[..n] == a;
    } else {
      MergeAllAppend(a, b[..n]);
    }
  }

  /** State i is the first whose token `f` is there. */
  predicate FirstWith(states: seq<AuthState>, i: nat, f: AuthState -> string) {
    i < |states| && f(states[i]) != "" && forall j | 0 <= j < i :: f(states[j]) == ""
  }

  /** Each kind of token comes, with its expiry, from the first state that has one. */
  lemma {:induction false} FirstTokenWins(states: seq<AuthState>, i: nat)
    requires i < |states|
    ensures var m := MergeAll(states);
            && (FirstWith(states, i, (s: AuthState) => s.accessToken) ==>
                  m.accessToken == states[i].accessToken && m.expiresAtUnix == states[i].expiresAtUnix)
            && (FirstWith(states, i, (s: AuthState) => s.skypeToken) ==>
                  m.skypeToken == states[i].skypeToken && m.skypeTokenExpiresAt == states[i].skypeTokenExpiresAt)
            && (FirstWith(states, i, (s: AuthState) => s.graphAccessToken) ==>
                  m.graphAccessToken == states[i].graphAccessToken && m.graphExpiresAt == states[i].graphExpiresAt)
            && (FirstWith(states, i, (s: AuthState) => s.refreshToken) ==> m.refreshToken == states[i].refreshToken)
  {
    var n := |states| - 1;
    var before := states[..n];
    if i < n {
      FirstTokenWins(before, i);
    } else {
      NoTokenMergesToNone(before);
    }
  }

  lemma {:induction false} NoTokenMergesToNone(states: seq<AuthState>)
    ensures var m := MergeAll(states);
            && ((forall s | s in states :: s.accessToken == "") ==> m.accessToken == "")
            && ((forall s | s in states :: s.skypeToken == "") ==> m.skypeToken == "")
            && ((forall s | s in states :: s.graphAccessToken == "") ==> m.graphAccessToken == "")
            && ((forall s | s in states :: s.refreshToken == "") ==> m.refreshToken == "")
  {
    if states != [] {
      NoTokenMergesToNone(states[..|states| - 1]);
    }
  }
}
