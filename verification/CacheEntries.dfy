/** What the walk over the token cache takes from one entry, spelled out on its key and its fields. */
module CacheEntries {
  import opened Auth
  import opened Pkcs7
  import opened Text
  import opened TokenCache

  /** The key names an owner, between "tmp.auth.v1." in any case and the next dot, who is someone else. */
  ghost predicate OwnedByOther(k: string, user: string) {
    exists prefix, owner, rest ::
      k == prefix + (owner + "." + rest) && IsOwner(prefix, owner) && owner != user
  }

  predicate IsOwner(prefix: string, owner: string) {
    ToLower(prefix) == "tmp.auth.v1." && owner != "" && '.' !in owner
  }

  /** The entry is looked at: a token entry, not of another user than the primary one if there is one. */
  ghost predicate LookedAt(c: Cache, k: string) {
    var low := ToLower(k);
    && (HasSuffix(low, ".discover.skype-token") || Contains(low, ".token."))
    && (c.user == "" || !OwnedByOther(k, c.user))
  }

  predicate IsOfKind(k: string, kind: Kind) {
    var low := ToLower(k);
    match kind
    case SkypeKind => HasSuffix(low, ".discover.skype-token")
    case GraphKind => !HasSuffix(low, ".discover.skype-token") && Contains(low, "graph.microsoft.com")
    case AccessKind =>
      && !HasSuffix(low, ".discover.skype-token") && !Contains(low, "graph.microsoft.com")
      && Contains(low, "spaces.skype.com")
  }

  /** The token in plain: the Skype token of a Skype entry, else the other one. */
  function PlainToken(k: string, item: CacheItem): string {
    if HasSuffix(ToLower(k), ".discover.skype-token") then item.skypeToken else item.token
  }

  /** Only what is not there in plain is decrypted. */
  predicate IsDecrypted(c: Cache, k: string, item: CacheItem) {
    PlainToken(k, item) == "" && item.encryptedToken != "" && item.iv != "" && c.baseKey != []
  }

  /** The offer has that token, in plain or decrypted, the expiry, and for a Skype entry the user. */
  predicate IsOffer(c: Cache, k: string, item: CacheItem, o: Offer) {
    && o.token != ""
    && (if IsDecrypted(c, k, item)
        then DecryptToken(c.d.primitives, c.baseKey, item.encryptedToken, item.iv) == Some(o.token)
        else o.token == PlainToken(k, item))
    && o.expiresAt == item.expiresAt
    && (o.userID == if !HasSuffix(ToLower(k), ".discover.skype-token") then ""
                    else if TrimSpace(item.userDetailsID) != "" then item.userDetailsID
                    else if TrimSpace(item.skypeID) != "" then item.skypeID
                    else "")
  }

  lemma OwnerFound(k: string, user: string)
    ensures CacheUser(k) != "" && CacheUser(k) != user <==> OwnedByOther(k, user)
  {
    var n := |"tmp.auth.v1."|;
    if CacheUser(k) != "" {
      var remainder := k[n..];
      var i := IndexOf(remainder, '.');
      assert ToLower(k[..n]) == "tmp.auth.v1." by {
        assert ToLower(k)[..n] == "tmp.auth.v1.";
        assert forall j | 0 <= j < n :: ToLower(k[..n])[j] == ToLower(k)[..n][j];
      }
      assert remainder == remainder[..i] + "." + remainder[i + 1..];
      assert k == k[..n] + remainder;
      assert IsOwner(k[..n], remainder[..i]);
      assert k == k[..n] + (CacheUser(k) + "." + remainder[i + 1..]);
    }
    forall prefix, owner, rest | k == prefix + (owner + "." + rest) && IsOwner(prefix, owner)
      ensures CacheUser(k) == owner
    {
      OwnerIs(k, prefix, owner, rest);
    }
  }

  lemma OwnerIs(k: string, prefix: string, owner: string, rest: string)
    requires k == prefix + (owner + "." + rest) && IsOwner(prefix, owner)
    ensures CacheUser(k) == owner
  {
    assert |prefix| == |ToLower(prefix)| == |"tmp.auth.v1."|;
    assert HasPrefix(ToLower(k), "tmp.auth.v1.") by {
      assert forall j | 0 <= j < |prefix| :: ToLower(k)[j] == ToLower(prefix)[j];
    }
    var remainder := owner + "." + rest;
    assert k[|prefix|..] == remainder;
    assert remainder[|owner|] == '.';
    assert forall j | 0 <= j < |owner| :: remainder[j] == owner[j];
    assert IndexOf(remainder, '.') == |owner|;
    assert remainder[..|owner|] == owner;
  }

  /** An entry offers a token of a kind exactly when it is looked at, decodes, is of that kind by its key, and has that
      token. */
  lemma OffersExactly(c: Cache, k: string, kind: Kind, o: Offer)
    requires k in c.storage
    ensures var item := c.d.item(c.storage[k]);
            Offers(c, kind, k) && FindingAt(c, k).offer == o <==>
              LookedAt(c, k) && item.Some? && IsOfKind(k, kind) && IsOffer(c, k, item.value, o)
  {
    OwnerFound(k, c.user);
    DecryptedIsToken(c, k, o);
    hide ToLower, HasSuffix, Contains, TrimSpace, CacheUser, OwnedByOther, DecryptToken;
  }

  lemma DecryptedIsToken(c: Cache, k: string, o: Offer)
    requires k in c.storage
    ensures var item := c.d.item(c.storage[k]);
            item.Some? && IsOffer(c, k, item.value, o) ==>
              item.value.token != "" || item.value.skypeToken != "" || item.value.encryptedToken != ""
  {
  }

  /** The failures: an entry counts as found when it is looked at and holds any token, and as failed when in addition
      its token had to be decrypted and could not be. */
  lemma FailsExactly(c: Cache, k: string)
    requires k in c.storage
    ensures var item := c.d.item(c.storage[k]);
            var holds := item.Some? && (item.value.token != "" || item.value.skypeToken != ""
                                        || item.value.encryptedToken != "");
            && (!FindingAt(c, k).Skipped? <==> LookedAt(c, k) && holds)
            && (FindingAt(c, k) == NoToken(true) <==>
                  && LookedAt(c, k) && holds && IsDecrypted(c, k, item.value)
                  && DecryptToken(c.d.primitives, c.baseKey, item.value.encryptedToken, item.value.iv) == None)
  {
    OwnerFound(k, c.user);
    hide ToLower, HasSuffix, Contains, TrimSpace, CacheUser, OwnedByOther, DecryptToken;
  }
}
