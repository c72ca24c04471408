/** When the extraction from the Teams cache does not depend on the order in which Go walks the storage. */
module CacheOrder {
  import opened Auth
  import opened Pkcs7
  import opened Text
  import opened TokenCache

  lemma {:induction false} OfferedBy(c: Cache, kind: Kind, order: seq<string>)
    requires Within(c, order)
    ensures forall o :: o in OffersOf(c, kind, order) <==>
              exists k | k in order :: Offers(c, kind, k) && FindingAt(c, k).offer == o
  {
    hide Inspect;
    if order != [] {
      var n := |order| - 1;
      OfferedBy(c, kind, order[..n]);
      assert order == order[..n] + [order[n]];
    }
  }

  /** Whatever the order, the token kept for a kind is a usable one, with its own expiry, that no usable token of
      the kind outlives; and one is kept as soon as there is one. */
  lemma KeptExpiresLast(c: Cache, kind: Kind, order: seq<string>)
    requires Walk(c, order)
    ensures var best := Best(OffersOf(c, kind, order));
            && (best.token == "" <==> forall k :: !Offers(c, kind, k))
            && (best.token == "" ==> best == NO_OFFER)
            && (best.token != "" ==> exists k :: Offers(c, kind, k) && FindingAt(c, k).offer == best)
            && (forall k | Offers(c, kind, k) :: FindingAt(c, k).offer.expiresAt <= best.expiresAt)
  {
    hide Inspect;
    var offers := OffersOf(c, kind, order);
    OfferedBy(c, kind, order);
    if offers != [] {
      var i := BestIsFirstLatest(offers);
      assert offers[i] in offers;
    }
    assert forall k | Offers(c, kind, k) :: FindingAt(c, k).offer in offers;
  }

  lemma {:induction false} SomeOrder(keys: set<string>) returns (order: seq<string>)
    ensures forall k :: k in order <==> k in keys
    ensures forall i, j | 0 <= i < j < |order| :: order[i] != order[j]
  {
    if keys == {} {
      order := [];
    } else {
      var k :| k in keys;
      var rest := SomeOrder(keys - {k});
      order := [k] + rest;
    }
  }

  lemma SomeWalk(c: Cache) returns (order: seq<string>)
    ensures Walk(c, order)
  {
    order := SomeOrder(c.storage.Keys);
  }

  lemma {:induction false} OffersOfFirst(c: Cache, kind: Kind, k: string, rest: seq<string>)
    requires Within(c, [k] + rest) && Offers(c, kind, k)
    ensures Within(c, rest) && OffersOf(c, kind, [k] + rest) == [FindingAt(c, k).offer] + OffersOf(c, kind, rest)
    decreases |rest|
  {
    hide Inspect;
    assert forall key | key in rest :: key in [k] + rest;
    if rest == [] {
      assert ([k] + rest)[..0] == [] && ([k] + rest)[0] == k;
    } else {
      var n := |rest| - 1;
      assert ([k] + rest)[..n + 1] == [k] + rest[..n];
      OffersOfFirst(c, kind, k, rest[..n]);
    }
  }

  // ----- the latest entries of a kind

  /** No usable token of the kind outlives that of this entry. */
  ghost predicate Latest(c: Cache, kind: Kind, k: string) {
    && Offers(c, kind, k)
    && forall other | Offers(c, kind, other) :: FindingAt(c, other).offer.expiresAt <= FindingAt(c, k).offer.expiresAt
  }

  ghost predicate HasOffer(c: Cache, kind: Kind) {
    exists k :: Offers(c, kind, k)
  }

  /** What is kept is the offer of a latest entry, or nothing. */
  lemma KeptIsLatest(c: Cache, kind: Kind, order: seq<string>)
    requires Walk(c, order)
    ensures var best := Best(OffersOf(c, kind, order));
            if HasOffer(c, kind) then exists k :: Latest(c, kind, k) && FindingAt(c, k).offer == best
            else best == NO_OFFER
  {
    hide Inspect;
    var best := Best(OffersOf(c, kind, order));
    KeptExpiresLast(c, kind, order);
    if HasOffer(c, kind) {
      var k :| Offers(c, kind, k) && FindingAt(c, k).offer == best;
      assert Latest(c, kind, k);
    }
  }

  /** A walk that starts at a latest entry ends up with that entry's token. */
  lemma WalkFrom(c: Cache, kind: Kind, k: string) returns (order: seq<string>)
    requires Latest(c, kind, k)
    ensures Walk(c, order) && Best(OffersOf(c, kind, order)) == FindingAt(c, k).offer
  {
    hide Inspect;
    var rest := SomeOrder(c.storage.Keys - {k});
    order := [k] + rest;
    OffersOfFirst(c, kind, k, rest);
    OfferedBy(c, kind, order);
    BestStartsLatest(FindingAt(c, k).offer, OffersOf(c, kind, rest));
  }

  // ----- two caches

  /** Both have a token of the kind or neither has, and all their latest entries offer the same. */
  ghost predicate SameLatest(c1: Cache, c2: Cache, kind: Kind) {
    && (HasOffer(c1, kind) <==> HasOffer(c2, kind))
    && forall k, l | Latest(c1, kind, k) && Latest(c2, kind, l) :: FindingAt(c1, k).offer == FindingAt(c2, l).offer
  }

  /** How the extraction fails when there is no token, read off the storage. */
  function FailureOf(c: Cache): Extraction {
    var foundEntry := exists k | k in c.storage :: !FindingAt(c, k).Skipped?;
    if foundEntry && c.baseKey == [] then KeyMissing
    else if foundEntry && exists k | k in c.storage :: FindingAt(c, k) == NoToken(true) then DecryptFailed
    else NotFound
  }

  ghost predicate Agree(c1: Cache, c2: Cache) {
    && (forall kind :: SameLatest(c1, c2, kind))
    && ((forall kind :: !HasOffer(c1, kind)) ==> FailureOf(c1) == FailureOf(c2))
  }

  lemma SameLatestSameBest(c1: Cache, o1: seq<string>, c2: Cache, o2: seq<string>, kind: Kind)
    requires Walk(c1, o1) && Walk(c2, o2) && SameLatest(c1, c2, kind)
    ensures Best(OffersOf(c1, kind, o1)) == Best(OffersOf(c2, kind, o2))
  {
    hide Inspect, OffersOf, FindingAt, Latest, HasOffer;
    KeptIsLatest(c1, kind, o1);
    KeptIsLatest(c2, kind, o2);
  }

  /** The token fields of a walk are blank exactly when no kind has an offer. */
  lemma OutcomeByKind(c: Cache, order: seq<string>)
    requires Walk(c, order)
    ensures Outcome(c, order) ==
              if forall kind :: !HasOffer(c, kind) then FailureOf(c) else Extracted(StateAfter(c, order))
  {
    hide Inspect, Best, OffersOf, FindingAt;
    KeptExpiresLast(c, SkypeKind, order);
    KeptExpiresLast(c, GraphKind, order);
    KeptExpiresLast(c, AccessKind, order);
    hide Offers;
    if kind :| HasOffer(c, kind) {
      match kind
      case SkypeKind =>
      case GraphKind =>
      case AccessKind =>
    } else {
      assert !HasOffer(c, SkypeKind) && !HasOffer(c, GraphKind) && !HasOffer(c, AccessKind);
      assert forall k :: k in order <==> k in c.storage;
    }
  }

  lemma AgreeSameOutcome(c1: Cache, o1: seq<string>, c2: Cache, o2: seq<string>)
    requires Walk(c1, o1) && Walk(c2, o2) && Agree(c1, c2)
    ensures Outcome(c1, o1) == Outcome(c2, o2)
  {
    hide Inspect, Best, OffersOf, Outcome, FailureOf, HasOffer, Latest;
    OutcomeByKind(c1, o1);
    OutcomeByKind(c2, o2);
    SameLatestSameBest(c1, o1, c2, o2, SkypeKind);
    SameLatestSameBest(c1, o1, c2, o2, GraphKind);
    SameLatestSameBest(c1, o1, c2, o2, AccessKind);
    forall kind ensures HasOffer(c1, kind) <==> HasOffer(c2, kind) {
      assert SameLatest(c1, c2, kind);
    }
  }

  /** What is kept of each kind can be read off the outcome. */
  lemma OutcomeShowsBest(c1: Cache, o1: seq<string>, c2: Cache, o2: seq<string>, kind: Kind)
    requires Walk(c1, o1) && Walk(c2, o2) && Outcome(c1, o1) == Outcome(c2, o2)
    ensures Best(OffersOf(c1, kind, o1)) == Best(OffersOf(c2, kind, o2))
    ensures HasOffer(c1, kind) <==> HasOffer(c2, kind)
  {
    OutcomeByKind(c1, o1);
    OutcomeByKind(c2, o2);
    KeptIsLatest(c1, kind, o1);
    KeptIsLatest(c2, kind, o2);
    KeptExpiresLast(c1, kind, o1);
    KeptExpiresLast(c2, kind, o2);
    UserIDOfKind(c1, kind, o1);
    UserIDOfKind(c2, kind, o2);
    hide Inspect, Best, OffersOf, Outcome, FindingAt, Latest, Offers;
  }

  lemma UserIDOfKind(c: Cache, kind: Kind, order: seq<string>)
    requires Walk(c, order)
    ensures kind != SkypeKind ==> Best(OffersOf(c, kind, order)).userID == ""
  {
    hide Inspect;
    KeptIsLatest(c, kind, order);
  }

  /** Two caches have the same outcome in all orders if and only if their latest entries agree and, when there are
      none, they fail alike. */
  lemma OutcomesAgreeIff(c1: Cache, c2: Cache)
    ensures (forall o1, o2 | Walk(c1, o1) && Walk(c2, o2) :: Outcome(c1, o1) == Outcome(c2, o2)) <==> Agree(c1, c2)
  {
    hide Inspect, Best, OffersOf, Outcome, FailureOf, FindingAt, HasOffer, Latest, Offers;
    if Agree(c1, c2) {
      forall o1, o2 | Walk(c1, o1) && Walk(c2, o2) ensures Outcome(c1, o1) == Outcome(c2, o2) {
        AgreeSameOutcome(c1, o1, c2, o2);
      }
    }
    if forall o1, o2 | Walk(c1, o1) && Walk(c2, o2) :: Outcome(c1, o1) == Outcome(c2, o2) {
      OutcomesShowAgreement(c1, c2);
    }
  }

  lemma OutcomesShowAgreement(c1: Cache, c2: Cache)
    requires forall o1, o2 | Walk(c1, o1) && Walk(c2, o2) :: Outcome(c1, o1) == Outcome(c2, o2)
    ensures Agree(c1, c2)
  {
    hide Inspect, Best, OffersOf, Outcome, FailureOf, FindingAt, HasOffer;
    var o1 := SomeWalk(c1);
    var o2 := SomeWalk(c2);
    OutcomeByKind(c1, o1);
    OutcomeByKind(c2, o2);
    forall kind
      ensures SameLatest(c1, c2, kind)
    {
      OutcomeShowsBest(c1, o1, c2, o2, kind);
      forall k, l | Latest(c1, kind, k) && Latest(c2, kind, l)
        ensures FindingAt(c1, k).offer == FindingAt(c2, l).offer
      {
        var p := WalkFrom(c1, kind, k);
        var q := WalkFrom(c2, kind, l);
        OutcomeShowsBest(c1, p, c2, q, kind);
      }
    }
    forall kind ensures HasOffer(c1, kind) <==> HasOffer(c2, kind) {
      assert SameLatest(c1, c2, kind);
    }
  }

  // ----- one key and one user

  /** Among the storage's own usable tokens of a kind, those that expire last are one and the same. */
  ghost predicate SettledKind(c: Cache, kind: Kind) {
    forall k, l | Latest(c, kind, k) && Latest(c, kind, l) :: FindingAt(c, k).offer == FindingAt(c, l).offer
  }

  /** With the key and the user given, every order of iteration gives the same result if and only if no kind has two
      different tokens that tie for the latest expiry. */
  lemma OrderIrrelevantIff(c: Cache)
    ensures (forall o1, o2 | Walk(c, o1) && Walk(c, o2) :: Outcome(c, o1) == Outcome(c, o2))
       <==> (forall kind :: SettledKind(c, kind))
  {
    hide Inspect, Best, OffersOf, Outcome, FailureOf, FindingAt, HasOffer;
    OutcomesAgreeIff(c, c);
    forall kind ensures SameLatest(c, c, kind) <==> SettledKind(c, kind) {
    }
  }

  // ----- the whole extraction

  /** Two extractions from one storage always agree if and only if all keys and users the storage can give lead to the
      same latest entries of every kind and, where there are none, to the same failure. */
  lemma ExtractionsAgreeIff(d: Decoders, storage: map<string, string>)
    ensures (forall r1, r2 | PossibleExtraction(d, storage, r1) && PossibleExtraction(d, storage, r2) :: r1 == r2)
       <==> forall key1, user1, key2, user2 | Choice(d, storage, key1, user1) && Choice(d, storage, key2, user2) ::
              Agree(Cache(d, key1, user1, storage), Cache(d, key2, user2, storage))
  {
    hide Outcome, Agree, Choice, PossibleExtraction;
    if forall r1, r2 | PossibleExtraction(d, storage, r1) && PossibleExtraction(d, storage, r2) :: r1 == r2 {
      forall key1, user1, key2, user2 | Choice(d, storage, key1, user1) && Choice(d, storage, key2, user2)
        ensures Agree(Cache(d, key1, user1, storage), Cache(d, key2, user2, storage))
      {
        var c1, c2 := Cache(d, key1, user1, storage), Cache(d, key2, user2, storage);
        forall o1, o2 | Walk(c1, o1) && Walk(c2, o2) ensures Outcome(c1, o1) == Outcome(c2, o2) {
          WalkIsPossible(c1, o1);
          WalkIsPossible(c2, o2);
        }
        OutcomesAgreeIff(c1, c2);
      }
    }
    if forall key1, user1, key2, user2 | Choice(d, storage, key1, user1) && Choice(d, storage, key2, user2) ::
         Agree(Cache(d, key1, user1, storage), Cache(d, key2, user2, storage)) {
      forall r1, r2 | PossibleExtraction(d, storage, r1) && PossibleExtraction(d, storage, r2) ensures r1 == r2 {
        var c1, o1 := WalkTo(d, storage, r1);
        var c2, o2 := WalkTo(d, storage, r2);
        AgreeSameOutcome(c1, o1, c2, o2);
      }
    }
  }

  lemma WalkIsPossible(c: Cache, order: seq<string>)
    requires Choice(c.d, c.storage, c.baseKey, c.user) && Walk(c, order)
    ensures PossibleExtraction(c.d, c.storage, Outcome(c, order))
  {
    hide Outcome, Choice;
    assert c == Cache(c.d, c.baseKey, c.user, c.storage);
    assert PossibleOutcome(c, Outcome(c, order));
  }

  lemma WalkTo(d: Decoders, storage: map<string, string>, r: Extraction) returns (c: Cache, order: seq<string>)
    requires PossibleExtraction(d, storage, r)
    ensures c.d == d && c.storage == storage && Choice(d, storage, c.baseKey, c.user)
    ensures Walk(c, order) && Outcome(c, order) == r
  {
    hide Outcome, Choice;
    var key, user :| Choice(d, storage, key, user) && PossibleOutcome(Cache(d, key, user, storage), r);
    c := Cache(d, key, user, storage);
    order :| Walk(c, order) && Outcome(c, order) == r;
  }

  /** With at most one usable key entry, at most one user entry and no ties, two extractions always agree. */
  lemma ExtractionIsDeterministic(d: Decoders, storage: map<string, string>, r1: Extraction, r2: Extraction)
    requires PossibleExtraction(d, storage, r1) && PossibleExtraction(d, storage, r2)
    requires forall k, l | HoldsKey(d, storage, k) && HoldsKey(d, storage, l) :: k == l
    requires forall k, l | HoldsUser(d, storage, k) && HoldsUser(d, storage, l) :: k == l
    requires forall key, user, kind | Choice(d, storage, key, user) :: SettledKind(Cache(d, key, user, storage), kind)
    ensures r1 == r2
  {
    hide HoldsKey, HoldsUser, TrimSpace, Outcome, SettledKind;
    var c1, o1 := WalkTo(d, storage, r1);
    var c2, o2 := WalkTo(d, storage, r2);
    assert c1.baseKey == c2.baseKey && c1.user == c2.user;
    assert c1 == c2 == Cache(d, c1.baseKey, c1.user, storage);
    OrderIrrelevantIff(c1);
  }

  // ----- a tie

  const TIED_KEY := ".token." + GRAPH_MARKER

  /** Two Graph tokens that expire at the same time; every entry decodes to its own raw text. */
  function TiedCache(primitives: Primitives): Cache {
    var d := Decoders(raw => Some(CacheItem(raw, "", "", "", 1, "", "")), _ => None, _ => None, primitives);
    Cache(d, [], "", map["a" + TIED_KEY := "one", "b" + TIED_KEY := "two"])
  }

  /** Two orders of iteration over them extract different tokens. */
  lemma TieDependsOnOrder(primitives: Primitives)
    ensures var c := TiedCache(primitives);
            exists o1, o2 | Walk(c, o1) && Walk(c, o2) :: Outcome(c, o1) != Outcome(c, o2)
  {
    var c := TiedCache(primitives);
    TiedStorage(primitives);
    hide *;
    TieIsUnsettled(c, "a" + TIED_KEY, "b" + TIED_KEY, Offer("one", 1, ""), Offer("two", 1, ""));
    OrderIrrelevantIff(c);
    assert !forall kind :: SettledKind(c, kind);
  }

  lemma TieIsUnsettled(c: Cache, k: string, l: string, a: Offer, b: Offer)
    requires c.storage.Keys == {k, l} && a != b && a.expiresAt == b.expiresAt
    requires FindingAt(c, k) == Found(Some(GraphKind), a) && FindingAt(c, l) == Found(Some(GraphKind), b)
    ensures !SettledKind(c, GraphKind)
  {
    hide FindingAt;
    assert Offers(c, GraphKind, k) && Offers(c, GraphKind, l);
    assert forall other | Offers(c, GraphKind, other) :: other in c.storage.Keys;
    assert forall other | Offers(c, GraphKind, other) :: FindingAt(c, other).offer.expiresAt == a.expiresAt;
  }

  lemma TiedStorage(primitives: Primitives)
    ensures var c := TiedCache(primitives);
            && c.storage.Keys == {"a" + TIED_KEY, "b" + TIED_KEY}
            && FindingAt(c, "a" + TIED_KEY) == Found(Some(GraphKind), Offer("one", 1, ""))
            && FindingAt(c, "b" + TIED_KEY) == Found(Some(GraphKind), Offer("two", 1, ""))
            && Offer("one", 1, "") != Offer("two", 1, "")
  {
    TiedInspection(primitives, "a", "one");
    TiedInspection(primitives, "b", "two");
    hide Inspect;
    assert ("a" + TIED_KEY)[0] == 'a' && ("b" + TIED_KEY)[0] == 'b';
    assert "one"[0] != "two"[0];
  }

  lemma TiedInspection(primitives: Primitives, name: string, raw: string)
    requires name == "a" || name == "b"
    requires raw != ""
    ensures Inspect(TiedCache(primitives).d, [], "", name + TIED_KEY, raw) == Found(Some(GraphKind), Offer(raw, 1, ""))
  {
    TiedKeyOffers(name);
    hide ToLower, HasSuffix, Contains, KindOf, CacheUser, DecryptToken, FirstNonEmpty;
  }

  lemma TiedKeyOffers(name: string)
    requires name == "a" || name == "b"
    ensures var lower := ToLower(name + TIED_KEY);
            && lower == name + TIED_KEY
            && !HasSuffix(lower, ".discover.skype-token")
            && Contains(lower, ".token.")
            && KindOf(lower, false) == Some(GraphKind)
  {
    var key, graph := name + TIED_KEY, GRAPH_MARKER;
    assert key == "" + name + ".token." + graph;
    TokenKeyParts("", name, graph);
    MarkerIsLower();
    assert key[|key| - 1] == graph[18] == 'm';
    assert ".discover.skype-token"[20] == 'n';
    hide ToLower, AllLower;
  }

  // ----- two users

  function UserKey(name: string): string {
    name + USER_SUFFIX
  }

  function TokenKey(user: string): string {
    CACHE_PREFIX + user + TIED_KEY
  }

  /** Tokens decode to their own raw text and expire after its length. */
  function PlainDecoders(primitives: Primitives): Decoders {
    Decoders(raw => Some(CacheItem(raw, "", "", "", |raw|, "", "")), _ => None, raw => Some(raw), primitives)
  }

  /** Two primary users with a Graph token each. */
  function TwoUsersStorage(): map<string, string> {
    map[UserKey("a") := "u", UserKey("b") := "v", TokenKey("u") := "one", TokenKey("v") := "three"]
  }

  function TwoUsers(primitives: Primitives, user: string): Cache {
    Cache(PlainDecoders(primitives), [], user, TwoUsersStorage())
  }

  predicate IsUser(user: string) {
    user == "u" || user == "v"
  }

  function TokenOf(user: string): string {
    if user == "u" then "one" else "three"
  }

  /** Lower-case text stays as it is. */
  predicate AllLower(s: string) {
    forall i | 0 <= i < |s| :: LowerChar(s[i]) == s[i]
  }

  lemma LowerStays(s: string)
    requires AllLower(s)
    ensures ToLower(s) == s
  {
  }

  lemma SuffixIsLower()
    ensures AllLower(USER_SUFFIX)
  {
  }

  lemma PrefixIsLower()
    ensures AllLower(CACHE_PREFIX) && AllLower(".token.")
  {
  }

  lemma MarkerIsLower()
    ensures AllLower(GRAPH_MARKER)
  {
  }

  lemma UserSuffixHasNoT()
    ensures forall i | 0 <= i < |USER_SUFFIX| :: USER_SUFFIX[i] != 't'
  {
  }

  lemma UserKeyLowered(name: string)
    requires name == "a" || name == "b"
    ensures var key := UserKey(name);
            && ToLower(key) == key && HasSuffix(key, USER_SUFFIX)
            && !HasSuffix(key, ".discover.skype-token") && !Contains(key, ".token.")
  {
    var key, suffix := UserKey(name), USER_SUFFIX;
    SuffixIsLower();
    LowerStays(key);
    UserSuffixHasNoT();
    assert key[|key| - |suffix|..] == suffix;
    assert key[|key| - 1] == suffix[27] == 'd' && ".discover.skype-token"[20] == 'n';
    LacksCharacter(key, ".token.", 1);
  }

  lemma LacksCharacter(s: string, sub: string, j: nat)
    requires j < |sub| && forall i | 0 <= i < |s| :: s[i] != sub[j]
    ensures !Contains(s, sub)
  {
    forall i | OccursAt(s, sub, i) ensures false {
      OccurrenceShows(s, sub, i, j);
    }
  }

  lemma OccurrenceShows(s: string, sub: string, i: nat, j: nat)
    requires OccursAt(s, sub, i) && j < |sub|
    ensures s[i + j] == sub[j]
  {
    assert s[i..i + |sub|][j] == s[i + j];
  }

  lemma TokenKeyLowered(user: string)
    requires IsUser(user)
    ensures var key := TokenKey(user);
            && ToLower(key) == key && !HasSuffix(key, USER_SUFFIX) && !HasSuffix(key, ".discover.skype-token")
            && Contains(key, ".token.") && Contains(key, GRAPH_MARKER)
  {
    var key, prefix, graph := TokenKey(user), CACHE_PREFIX, GRAPH_MARKER;
    assert key == prefix + user + ".token." + graph;
    TokenKeyParts(prefix, user, graph);
    PrefixIsLower();
    MarkerIsLower();
    assert key[|key| - 1] == graph[18] == 'm';
    assert ".discover.skype-token"[20] == 'n' && USER_SUFFIX[27] == 'd';
  }

  lemma TokenKeyParts(prefix: string, user: string, graph: string)
    ensures var key := prefix + user + ".token." + graph;
            && Contains(key, ".token.") && Contains(key, graph)
            && (AllLower(prefix) && AllLower(user) && AllLower(graph) ==> ToLower(key) == key)
  {
    var key, n := prefix + user + ".token." + graph, |prefix + user|;
    assert key[n..n + 7] == ".token." && key[n + 7..n + 7 + |graph|] == graph;
    assert OccursAt(key, ".token.", n) && OccursAt(key, graph, n + 7);
    PrefixIsLower();
    if AllLower(prefix) && AllLower(user) && AllLower(graph) {
      LowerStays(key);
    }
  }

  lemma TokenKeyUser(user: string)
    requires IsUser(user)
    ensures CacheUser(TokenKey(user)) == user
  {
    TokenKeyLowered(user);
    var prefix, tied := CACHE_PREFIX, TIED_KEY;
    assert tied[0] == '.';
    hide ToLower, IndexOf, CACHE_PREFIX, TIED_KEY;
    UserBetween(prefix, user, tied);
  }

  lemma UserBetween(prefix: string, user: string, rest: string)
    requires |user| == 1 && user[0] != '.' && rest != "" && rest[0] == '.'
    ensures var key := prefix + user + rest;
            && prefix <= key && key[|prefix|..] == user + rest
            && IndexOf(user + rest, '.') == 1 && (user + rest)[..1] == user
  {
    hide IndexOf;
    assert (user + rest)[0] == user[0] && (user + rest)[1] == rest[0];
  }

  /** A token is found by its own user and skipped by the other one. */
  lemma TokenInspection(primitives: Primitives, user: string, owner: string)
    requires IsUser(user) && IsUser(owner)
    ensures Inspect(PlainDecoders(primitives), [], user, TokenKey(owner), TokenOf(owner))
         == if user == owner then Found(Some(GraphKind), Offer(TokenOf(owner), |TokenOf(owner)|, "")) else Skipped
  {
    TokenKeyLowered(owner);
    TokenKeyUser(owner);
    hide ToLower, HasSuffix, Contains, CacheUser, DecryptToken, FirstNonEmpty;
  }

  lemma UserInspection(primitives: Primitives, user: string, name: string, raw: string)
    requires name == "a" || name == "b"
    ensures Inspect(PlainDecoders(primitives), [], user, UserKey(name), raw) == Skipped
  {
    UserKeyLowered(name);
    hide ToLower, HasSuffix, Contains, CacheUser, DecryptToken, FirstNonEmpty;
  }

  lemma TwoUsersEntries()
    ensures var storage := TwoUsersStorage();
            && storage.Keys == {UserKey("a"), UserKey("b"), TokenKey("u"), TokenKey("v")}
            && storage[UserKey("a")] == "u" && storage[UserKey("b")] == "v"
            && storage[TokenKey("u")] == "one" && storage[TokenKey("v")] == "three"
  {
    assert UserKey("a")[0] == 'a' && UserKey("b")[0] == 'b' && TokenKey("u")[0] == 't' && TokenKey("v")[0] == 't';
    assert TokenKey("u")[12] == 'u' && TokenKey("v")[12] == 'v';
  }

  /** One Graph token for the user, and nothing for anyone else. */
  ghost predicate OnlyTokenOf(c: Cache, user: string) {
    && c.storage.Keys == {UserKey("a"), UserKey("b"), TokenKey("u"), TokenKey("v")}
    && (forall k | k in c.storage && k != TokenKey(user) :: FindingAt(c, k) == Skipped)
    && TokenKey(user) in c.storage
    && FindingAt(c, TokenKey(user)) == Found(Some(GraphKind), Offer(TokenOf(user), |TokenOf(user)|, ""))
  }

  lemma TwoUsersFindings(primitives: Primitives, user: string)
    requires IsUser(user)
    ensures OnlyTokenOf(TwoUsers(primitives, user), user)
  {
    hide Inspect, UserKey, TokenKey, TwoUsersStorage, PlainDecoders;
    TwoUsersEntries();
    TokenInspection(primitives, user, "u");
    TokenInspection(primitives, user, "v");
    UserInspection(primitives, user, "a", "u");
    UserInspection(primitives, user, "b", "v");
    assert forall k | k in TwoUsersStorage().Keys ::
        k == UserKey("a") || k == UserKey("b") || k == TokenKey("u") || k == TokenKey("v");
  }

  lemma OnlyLatest(c: Cache, user: string)
    requires OnlyTokenOf(c, user)
    ensures Latest(c, GraphKind, TokenKey(user)) && forall kind :: SettledKind(c, kind)
  {
    hide FindingAt, UserKey, TokenKey;
    assert forall kind, k | Offers(c, kind, k) :: k == TokenKey(user);
  }

  lemma TwoUsersChoices(primitives: Primitives, key: seq<byte>, user: string)
    ensures Choice(PlainDecoders(primitives), TwoUsersStorage(), key, user) <==> key == [] && IsUser(user)
  {
    TwoUsersEntries();
    TwoUsersKeys(primitives);
    TrimSpaceOfTrimmed("u");
    TrimSpaceOfTrimmed("v");
    hide HoldsUser, HoldsKey, UserKey, TokenKey, TrimSpace, TwoUsersStorage;
  }

  /** The user entries are those meant to be, and nothing is a key entry. */
  lemma TwoUsersKeys(primitives: Primitives)
    ensures var d, storage := PlainDecoders(primitives), TwoUsersStorage();
            && (forall k :: HoldsUser(d, storage, k) <==> k == UserKey("a") || k == UserKey("b"))
            && forall k :: !HoldsKey(d, storage, k)
  {
    hide ToLower, HasSuffix, Contains, UserKey, TokenKey, TwoUsersStorage;
    TwoUsersEntries();
    UserKeyLowered("a");
    UserKeyLowered("b");
    TokenKeyLowered("u");
    TokenKeyLowered("v");
  }

  /** Nothing ties here, whoever is chosen, and still two extractions differ. */
  lemma TwoUsersDependOnOrder(primitives: Primitives)
    ensures var d, storage := PlainDecoders(primitives), TwoUsersStorage();
            && (forall key, user, kind | Choice(d, storage, key, user) ::
                  SettledKind(Cache(d, key, user, storage), kind))
            && exists r1, r2 | PossibleExtraction(d, storage, r1) && PossibleExtraction(d, storage, r2) :: r1 != r2
  {
    var d, storage := PlainDecoders(primitives), TwoUsersStorage();
    var c1, c2 := TwoUsers(primitives, "u"), TwoUsers(primitives, "v");
    hide PlainDecoders, TwoUsersStorage, FindingAt, PossibleExtraction, Choice, UserKey, TokenKey;
    TwoUsersFindings(primitives, "u");
    TwoUsersFindings(primitives, "v");
    OnlyLatest(c1, "u");
    OnlyLatest(c2, "v");
    forall key, user, kind | Choice(d, storage, key, user)
      ensures SettledKind(Cache(d, key, user, storage), kind)
    {
      TwoUsersChoices(primitives, key, user);
    }
    TwoUsersChoices(primitives, [], "u");
    TwoUsersChoices(primitives, [], "v");
    assert |"one"| == 3 && |"three"| == 5;
    assert !SameLatest(c1, c2, GraphKind);
    assert !Agree(c1, c2);
    ExtractionsAgreeIff(d, storage);
  }
}
