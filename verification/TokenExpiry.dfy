/** When the refreshers make a request and what they store, with the arithmetic written out. */
module TokenExpiry {
  import opened Text
  import opened Auth
  import opened TokenRotation

  /** The Skype refresher presents the refresh token exactly when there is one and the stored Skype token is blank,
      has no expiry, or expires at most 60 seconds from now; it answers yes without a request exactly when the
      stored token is there and expires later than that. */
  lemma SkypeRefreshesIff(meta: Meta, saved: Meta, now: nat, moreScopes: string, reply: TokenReply, skype: SkypeReply)
    ensures var r := RefreshSkype(meta, saved, now, moreScopes, reply, skype);
            var stale := meta.skypeToken == "" || meta.skypeTokenExpiresAt == 0
                         || meta.skypeTokenExpiresAt * 1_000_000_000 <= now + 60 * 1_000_000_000;
            && (r.presented != [] <==> TrimSpace(meta.refreshToken) != "" && stale)
            && (r.presented != [] ==> r.presented == [TrimSpace(meta.refreshToken)])
            && (r.ok && r.presented == [] <==> !stale)
            && (r.presented == [] ==> r.meta == meta && r.saved == saved)
  {
    hide TrimSpace, TokenRequest, NormalizeTeamsUserID;
  }

  /** The Graph refresher likewise, with a stored token that counts as blank when it is all whitespace. */
  lemma GraphRefreshesIff(meta: Meta, saved: Meta, now: nat, first: TokenReply, second: TokenReply)
    ensures var r := RefreshGraph(meta, saved, now, first, second);
            var stale := TrimSpace(meta.graphAccessToken) == "" || meta.graphExpiresAt == 0
                         || meta.graphExpiresAt * 1_000_000_000 <= now + 60 * 1_000_000_000;
            && (r.presented != [] <==> TrimSpace(meta.refreshToken) != "" && stale)
            && (r.ok && r.presented == [] <==> !stale)
            && (r.presented == [] ==> r.meta == meta && r.saved == saved)
  {
    hide TrimSpace, TokenRequest;
  }

  /** Expiry in Unix seconds of a token granted now, 0 when the grant has no lifetime. */
  function ExpiryOf(expiresIn: int, now: nat): int {
    if expiresIn > 0 then now / 1_000_000_000 + expiresIn else 0
  }

  /** A Skype refresh that is made succeeds exactly when the endpoint grants an access token and the Skype token comes
      back, and then all of what is stored, in memory and saved, is known; the Graph token is left alone. */
  lemma SkypeRefreshStores(meta: Meta, saved: Meta, now: nat, moreScopes: string, reply: TokenReply, skype: SkypeReply)
    requires moreScopes == "" || IsSpace(moreScopes[0])
    ensures var r := RefreshSkype(meta, saved, now, moreScopes, reply, skype);
            r.presented != [] ==>
              && (r.ok <==> reply.Answer? && reply.accessToken != "" && skype.SkypeToken?)
              && (r.ok ==>
                    && r.saved == r.meta
                    && r.meta.skypeToken == skype.token
                    && r.meta.skypeTokenExpiresAt == skype.expiresAt
                    && r.meta.accessTokenExpiresAt == ExpiryOf(reply.expiresIn, now)
                    && IsTeamsUserID(r.meta.teamsUserID, skype.skypeID)
                    && r.meta.refreshToken == (if TrimSpace(reply.refreshToken) == "" then meta.refreshToken
                                               else TrimSpace(reply.refreshToken))
                    && r.meta.graphAccessToken == meta.graphAccessToken
                    && r.meta.graphExpiresAt == meta.graphExpiresAt)
  {
    SkypeRefreshKeepsGraphPair(meta, saved, now, moreScopes, reply, skype);
    UserIDIsPrefixed(if skype.SkypeError? then "" else skype.skypeID);
    hide TrimSpace, ShouldPersistGraphToken, NormalizeTeamsUserID, IsTeamsUserID;
  }

  /** The stored user id is the trimmed Skype id with "8:" in front, unless it is blank or begins with that. */
  predicate IsTeamsUserID(id: string, skypeID: string) {
    var v := TrimSpace(skypeID);
    if v == "" then id == ""
    else if |v| >= 2 && v[0] == '8' && v[1] == ':' then id == v
    else id == ['8', ':'] + v
  }

  lemma UserIDIsPrefixed(skypeID: string)
    ensures IsTeamsUserID(NormalizeTeamsUserID(skypeID), skypeID)
  {
    var v := TrimSpace(skypeID);
    hide TrimSpace;
    if |v| >= 2 {
      assert v[..2] == [v[0], v[1]];
    }
  }

  /** A Graph refresh that is made asks a second time exactly when the first answer has no access token; it succeeds
      exactly when the deciding answer has one that is not blank, with a lifetime, and then stores it trimmed. */
  lemma GraphRefreshStores(meta: Meta, saved: Meta, now: nat, first: TokenReply, second: TokenReply)
    ensures var r, refresh := RefreshGraph(meta, saved, now, first, second), TrimSpace(meta.refreshToken);
            var once := first.Answer? && first.accessToken != "";
            var reply := if once then first else second;
            r.presented != [] ==>
              && r.presented == (if once then [refresh] else [refresh, refresh])
              && (r.ok <==> reply.Answer? && TrimSpace(reply.accessToken) != "" && reply.expiresIn > 0)
              && (if r.ok then
                    && r.saved == r.meta
                    && r.meta == meta.(graphAccessToken := TrimSpace(reply.accessToken),
                                       graphExpiresAt := now / 1_000_000_000 + reply.expiresIn,
                                       refreshToken := if TrimSpace(reply.refreshToken) == "" then meta.refreshToken
                                                       else TrimSpace(reply.refreshToken))
                  else r.meta == meta && r.saved == saved)
  {
    GraphRequestResults(now, first, second);
    assert TrimSpace("") == "";
    hide TrimSpace, GraphRequests;
  }
}
