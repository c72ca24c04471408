/** Picking tokens out of the Teams cache in local storage, which Go iterates in a random order. */
module TokenCache {
  import opened Auth
  import opened Pkcs7
  import opened Text

  /** The fields of a cached item that matter; `expiresAt` is the parsed expiry. */
  datatype CacheItem = CacheItem(
    token: string,
    skypeToken: string,
    encryptedToken: string,
    iv: string,
    expiresAt: int,
    skypeID: string,
    userDetailsID: string
  )

  /** What JSON decoding makes of a storage value, per kind of entry. */
  datatype Decoders = Decoders(
    item: string -> Option<CacheItem>,
    exportedKey: string -> Option<seq<byte>>,
    primaryUser: string -> Option<string>,
    primitives: Primitives
  )

  const KEY_SUFFIX := ".exportedencryptionkey.exportedencryptionkey"
  const USER_SUFFIX := ".primaryuserid.primaryuserid"
  const CACHE_PREFIX := "tmp.auth.v1."

  // ----- the encryption key and the primary user

  /** The first usable value in a random walk can be that of any usable entry. */
  predicate HoldsKey(d: Decoders, storage: map<string, string>, k: string) {
    && k in storage
    && HasSuffix(ToLower(k), ".exportedencryptionkey.exportedencryptionkey")
    && d.exportedKey(storage[k]).Some?
  }

  predicate PossibleKey(d: Decoders, storage: map<string, string>, key: seq<byte>) {
    if exists k | k in storage :: HoldsKey(d, storage, k)
    then exists k | k in storage :: HoldsKey(d, storage, k) && d.exportedKey(storage[k]) == Some(key)
    else key == []
  }

  method ExtractEncryptionKey(d: Decoders, storage: map<string, string>) returns (key: seq<byte>)
    ensures PossibleKey(d, storage, key)
  {
    hide ToLower;
    var left := storage.Keys;
    while left != {}
      invariant left <= storage.Keys
      invariant forall k | k in storage.Keys - left :: !HoldsKey(d, storage, k)
      decreases |left|
    {
      var k :| k in left;
      left := left - {k};
      if HasSuffix(ToLower(k), KEY_SUFFIX) {
        var decoded := d.exportedKey(storage[k]);
        if decoded.Some? {
          assert HoldsKey(d, storage, k);
          return decoded.value;
        }
      }
    }
    key := [];
  }

  predicate HoldsUser(d: Decoders, storage: map<string, string>, k: string) {
    k in storage && HasSuffix(ToLower(k), ".primaryuserid.primaryuserid") && d.primaryUser(storage[k]).Some?
  }

  predicate PossibleUser(d: Decoders, storage: map<string, string>, user: string) {
    if exists k | k in storage :: HoldsUser(d, storage, k)
    then exists k | k in storage :: HoldsUser(d, storage, k) && TrimSpace(d.primaryUser(storage[k]).value) == user
    else user == ""
  }

  method ExtractPrimaryUser(d: Decoders, storage: map<string, string>) returns (user: string)
    ensures PossibleUser(d, storage, user)
  {
    hide ToLower, TrimSpace;
    var left := storage.Keys;
    while left != {}
      invariant left <= storage.Keys
      invariant forall k | k in storage.Keys - left :: !HoldsUser(d, storage, k)
      decreases |left|
    {
      var k :| k in left;
      left := left - {k};
      if HasSuffix(ToLower(k), USER_SUFFIX) {
        var decoded := d.primaryUser(storage[k]);
        if decoded.Some? {
          assert HoldsUser(d, storage, k);
          return TrimSpace(decoded.value);
        }
      }
    }
    user := "";
  }

  /** teamsAuthCacheUser: what stands between the prefix and the next dot. */
  function CacheUser(storageKey: string): string {
    if !HasPrefix(ToLower(storageKey), CACHE_PREFIX) then ""
    else
      var remainder := storageKey[|CACHE_PREFIX|..];
      var i := IndexOf(remainder, '.');
      if i < |remainder| then remainder[..i] else ""
  }

  // ----- one entry

  datatype Kind = SkypeKind | GraphKind | AccessKind

  /** What one entry contributes: nothing at all, a cache entry without a usable token, or a token, whose kind may be
      none of interest. */
  datatype Finding = Skipped | NoToken(failed: bool) | Found(kind: Option<Kind>, offer: Offer)

  function FirstNonEmpty(a: string, b: string): string {
    if TrimSpace(a) != "" then a else if TrimSpace(b) != "" then b else ""
  }

  function KindOf(lowerKey: string, isSkypeToken: bool): Option<Kind> {
    if isSkypeToken then Some(SkypeKind)
    else if Contains(lowerKey, GRAPH_MARKER) then Some(GraphKind)
    else if Contains(lowerKey, "spaces.skype.com") then Some(AccessKind)
    else None
  }

  function Inspect(d: Decoders, baseKey: seq<byte>, user: string, storageKey: string, raw: string): (f: Finding)
    ensures f.Found? ==> f.offer.token != "" && (f.kind != Some(SkypeKind) ==> f.offer.userID == "")
  {
    var lowerKey := ToLower(storageKey);
    var isSkypeToken := HasSuffix(lowerKey, ".discover.skype-token");
    if !isSkypeToken && !Contains(lowerKey, ".token.") then Skipped
    else if user != "" && CacheUser(storageKey) != "" && CacheUser(storageKey) != user then Skipped
    else
      match d.item(raw)
      case None => Skipped
      case Some(item) =>
        if item.token == "" && item.skypeToken == "" && item.encryptedToken == "" then Skipped
        else
          var plain := if isSkypeToken then item.skypeToken else item.token;
          var encrypted := plain == "" && item.encryptedToken != "" && item.iv != "" && baseKey != [];
          var text :=
            if encrypted then DecryptToken(d.primitives, baseKey, item.encryptedToken, item.iv) else Some(plain);
          if text.None? || text.value == "" then NoToken(text.None?)
          else
            var userID := if isSkypeToken then FirstNonEmpty(item.userDetailsID, item.skypeID) else "";
            Found(KindOf(lowerKey, isSkypeToken), Offer(text.value, item.expiresAt, userID))
  }

  /** One storage, with the key and the user the earlier walks came up with. */
  datatype Cache = Cache(d: Decoders, baseKey: seq<byte>, user: string, storage: map<string, string>)

  function FindingAt(c: Cache, k: string): (f: Finding)
    requires k in c.storage
    ensures f.Found? ==> f.offer.token != "" && (f.kind != Some(SkypeKind) ==> f.offer.userID == "")
  {
    Inspect(c.d, c.baseKey, c.user, k, c.storage[k])
  }

  predicate Offers(c: Cache, kind: Kind, k: string) {
    k in c.storage && FindingAt(c, k).Found? && FindingAt(c, k).kind == Some(kind)
  }

  // ----- the walk

  /** Every storage key once, in some order. */
  ghost predicate Walk(c: Cache, order: seq<string>) {
    && (forall k :: k in order <==> k in c.storage)
    && (forall i, j | 0 <= i < j < |order| :: order[i] != order[j])
  }

  predicate Within(c: Cache, order: seq<string>) {
    forall k | k in order :: k in c.storage
  }

  function OffersOf(c: Cache, kind: Kind, order: seq<string>): (offers: seq<Offer>)
    requires Within(c, order)
    ensures Usable(offers)
    ensures forall o | o in offers :: kind != SkypeKind ==> o.userID == ""
  {
    if order == [] then []
    else
      var k := order[|order| - 1];
      OffersOf(c, kind, order[..|order| - 1]) + (if Offers(c, kind, k) then [FindingAt(c, k).offer] else [])
  }

  function StateOf(skype: Offer, graph: Offer, access: Offer): AuthState {
    EMPTY_STATE.(skypeToken := skype.token, skypeTokenExpiresAt := skype.expiresAt, teamsUserID := skype.userID,
                 graphAccessToken := graph.token, graphExpiresAt := graph.expiresAt,
                 accessToken := access.token, expiresAtUnix := access.expiresAt)
  }

  function StateAfter(c: Cache, order: seq<string>): AuthState
    requires Within(c, order)
  {
    StateOf(Best(OffersOf(c, SkypeKind, order)), Best(OffersOf(c, GraphKind, order)),
            Best(OffersOf(c, AccessKind, order)))
  }

  datatype Extraction = Extracted(state: AuthState) | KeyMissing | DecryptFailed | NotFound

  function Outcome(c: Cache, order: seq<string>): Extraction
    requires Within(c, order)
  {
    var state := StateAfter(c, order);
    if state.skypeToken == "" && state.accessToken == "" && state.graphAccessToken == "" then
      var foundEntry := exists k | k in order :: !FindingAt(c, k).Skipped?;
      if foundEntry && c.baseKey == [] then KeyMissing
      else if foundEntry && exists k | k in order :: FindingAt(c, k) == NoToken(true) then DecryptFailed
      else NotFound
    else Extracted(state)
  }

  ghost predicate PossibleOutcome(c: Cache, r: Extraction) {
    exists order | Walk(c, order) :: Outcome(c, order) == r
  }

  method WalkStorage(c: Cache) returns (r: Extraction)
    ensures PossibleOutcome(c, r)
  {
    hide Inspect, Best, StateAfter;
    var state := EMPTY_STATE;
    var foundEntry, decryptFailed := false, false;
    var left := c.storage.Keys;
    ghost var order: seq<string> := [];
    StateBeforeWalk(c);
    while left != {}
      invariant left <= c.storage.Keys
      invariant forall k :: k in order <==> k in c.storage && k !in left
      invariant forall i, j | 0 <= i < j < |order| :: order[i] != order[j]
      invariant state == StateAfter(c, order)
      invariant foundEntry == exists k | k in order :: !FindingAt(c, k).Skipped?
      invariant decryptFailed == exists k | k in order :: FindingAt(c, k) == NoToken(true)
      decreases |left|
    {
      var k :| k in left;
      left := left - {k};
      StateAfterNext(c, order, k);
      ghost var before := order;
      order := order + [k];
      assert forall key | key in order :: key in before || key == k;
      match FindingAt(c, k) {
        case Skipped =>
        case NoToken(failed) =>
          foundEntry := true;
          decryptFailed := decryptFailed || failed;
        case Found(kind, offer) =>
          foundEntry := true;
          if kind == Some(SkypeKind) {
            if ShouldReplaceCachedToken(state.skypeToken, state.skypeTokenExpiresAt, offer.expiresAt) {
              state := state.(skypeToken := offer.token, skypeTokenExpiresAt := offer.expiresAt,
                              teamsUserID := offer.userID);
            }
          } else if kind == Some(GraphKind) {
            if ShouldReplaceCachedToken(state.graphAccessToken, state.graphExpiresAt, offer.expiresAt) {
              state := state.(graphAccessToken := offer.token, graphExpiresAt := offer.expiresAt);
            }
          } else if kind == Some(AccessKind) {
            if ShouldReplaceCachedToken(state.accessToken, state.expiresAtUnix, offer.expiresAt) {
              state := state.(accessToken := offer.token, expiresAtUnix := offer.expiresAt);
            }
          }
      }
    }
    assert Walk(c, order);
    if state.skypeToken == "" && state.accessToken == "" && state.graphAccessToken == "" {
      if foundEntry && c.baseKey == [] {
        r := KeyMissing;
      } else if foundEntry && decryptFailed {
        r := DecryptFailed;
      } else {
        r := NotFound;
      }
    } else {
      r := Extracted(state);
    }
    assert Outcome(c, order) == r;
  }

  function NextBest(c: Cache, kind: Kind, order: seq<string>, k: string): Offer
    requires Within(c, order) && k in c.storage
  {
    BetterOf(kind, Best(OffersOf(c, kind, order)), FindingAt(c, k))
  }

  lemma StateBeforeWalk(c: Cache)
    ensures StateAfter(c, []) == EMPTY_STATE
  {
    hide Inspect;
  }

  /** One more finding: a token replaces that of its own kind unless that one expires at least as late. */
  function Updated(state: AuthState, f: Finding): AuthState {
    if !f.Found? || f.kind.None? then state
    else
      match f.kind.value
      case SkypeKind =>
        if ShouldReplaceCachedToken(state.skypeToken, state.skypeTokenExpiresAt, f.offer.expiresAt)
        then state.(skypeToken := f.offer.token, skypeTokenExpiresAt := f.offer.expiresAt,
                    teamsUserID := f.offer.userID)
        else state
      case GraphKind =>
        if ShouldReplaceCachedToken(state.graphAccessToken, state.graphExpiresAt, f.offer.expiresAt)
        then state.(graphAccessToken := f.offer.token, graphExpiresAt := f.offer.expiresAt)
        else state
      case AccessKind =>
        if ShouldReplaceCachedToken(state.accessToken, state.expiresAtUnix, f.offer.expiresAt)
        then state.(accessToken := f.offer.token, expiresAtUnix := f.offer.expiresAt)
        else state
  }

  lemma StateAfterNext(c: Cache, order: seq<string>, k: string)
    requires Within(c, order) && k in c.storage
    ensures StateAfter(c, order + [k]) == Updated(StateAfter(c, order), FindingAt(c, k))
  {
    OffersOfNext(c, SkypeKind, order, k);
    OffersOfNext(c, GraphKind, order, k);
    OffersOfNext(c, AccessKind, order, k);
    hide Inspect, Best, OffersOf, FindingAt, Updated, Better, StateOf;
    UpdatedByKind(Best(OffersOf(c, SkypeKind, order)), Best(OffersOf(c, GraphKind, order)),
                  Best(OffersOf(c, AccessKind, order)), FindingAt(c, k));
  }

  function BetterOf(kind: Kind, best: Offer, f: Finding): Offer {
    if f.Found? && f.kind == Some(kind) then Better(best, f.offer) else best
  }

  lemma UpdatedByKind(skype: Offer, graph: Offer, access: Offer, f: Finding)
    ensures Updated(StateOf(skype, graph, access), f)
         == StateOf(BetterOf(SkypeKind, skype, f), BetterOf(GraphKind, graph, f), BetterOf(AccessKind, access, f))
  {
  }

  lemma OffersOfNext(c: Cache, kind: Kind, order: seq<string>, k: string)
    requires Within(c, order) && k in c.storage
    ensures Best(OffersOf(c, kind, order + [k])) == NextBest(c, kind, order, k)
  {
    hide Inspect;
    assert (order + [k])[..|order|] == order;
    var offers := OffersOf(c, kind, order);
    if Offers(c, kind, k) {
      assert (offers + [FindingAt(c, k).offer])[..|offers|] == offers;
    } else {
      assert offers + [] == offers;
    }
  }

  /** The storage can give this key and this user. */
  predicate Choice(d: Decoders, storage: map<string, string>, key: seq<byte>, user: string) {
    PossibleKey(d, storage, key) && PossibleUser(d, storage, user)
  }

  /** Some orders of the three walks give this result. */
  ghost predicate PossibleExtraction(d: Decoders, storage: map<string, string>, r: Extraction) {
    exists key, user | Choice(d, storage, key, user) :: PossibleOutcome(Cache(d, key, user, storage), r)
  }

  /** extractTeamsAuthTokens */
  method ExtractTeamsAuthTokens(d: Decoders, storage: map<string, string>) returns (r: Extraction)
    ensures PossibleExtraction(d, storage, r)
  {
    var key := ExtractEncryptionKey(d, storage);
    var user := ExtractPrimaryUser(d, storage);
    r := WalkStorage(Cache(d, key, user, storage));
  }
}
