/** The two token refreshers that share one rotating refresh token under one lock. */
module TokenRotation {
  import opened Auth
  import opened Text

  // ----- the token endpoint

  const MBI_SCOPE := "service::api.fl.spaces.skype.com::MBI_SSL"
  const GRAPH_SCOPE := "https://" + "graph.microsoft.com" + "/Files.ReadWrite"

  /** The length of the first field: up to the first whitespace. */
  function FieldEnd(s: string): (n: nat)
    ensures n <= |s|
    ensures forall i | 0 <= i < n :: !IsSpace(s[i])
    ensures n < |s| ==> IsSpace(s[n])
  {
    if s == "" || IsSpace(s[0]) then 0 else 1 + FieldEnd(s[1..])
  }

  /** strings.Fields */
  function Fields(s: string): seq<string>
    decreases |s|
  {
    if s == "" then []
    else if IsSpace(s[0]) then Fields(s[1..])
    else [s[..FieldEnd(s)]] + Fields(s[FieldEnd(s)..])
  }

  /** What one scope says about the token: None when it does not decide. */
  function ScopeVerdict(part: string): Option<bool> {
    if Contains(part, MBI_MARKER) then Some(false)
    else if Contains(part, GRAPH_MARKER) then Some(true)
    else if HasSuffix(part, "files.readwrite") then Some(true)
    else None
  }

  predicate FirstVerdict(parts: seq<string>) {
    parts != [] &&
    match ScopeVerdict(parts[0])
    case Some(v) => v
    case None => FirstVerdict(parts[1..])
  }

  predicate ShouldPersistGraphToken(scope: string) {
    var trimmed := TrimSpace(scope);
    trimmed == "" || FirstVerdict(Fields(ToLower(trimmed)))
  }

  /** Either no decodable 2xx answer, or the decoded fields of one. */
  datatype TokenReply = TokenError | Answer(accessToken: string, refreshToken: string, expiresIn: int)

  /** An answer without an access token grants nothing (section 5.1 of RFC 6749). */
  predicate Grants(r: TokenReply) {
    r.Answer? && r.accessToken != ""
  }

  /** tokenRequest. `now` is in nanoseconds, expiry times are Unix seconds. */
  function TokenRequest(scope: string, now: nat, r: TokenReply): Option<AuthState> {
    if r.TokenError? || r.accessToken == "" then None
    else
      var expiresAt := if r.expiresIn > 0 then now / 1_000_000_000 + r.expiresIn else 0;
      var graph := ShouldPersistGraphToken(scope);
      Some(EMPTY_STATE.(accessToken := r.accessToken, refreshToken := r.refreshToken, expiresAtUnix := expiresAt,
                        graphAccessToken := if graph then r.accessToken else "",
                        graphExpiresAt := if graph then expiresAt else 0))
  }

  // ----- which scopes keep the token for Graph

  lemma TrimKeepsFirstWord(word: string, rest: string)
    requires word != "" && (forall i | 0 <= i < |word| :: !IsSpace(word[i]))
    requires rest == "" || IsSpace(rest[0])
    ensures var t := TrimSpace(word + rest);
            |t| >= |word| && t[..|word|] == word && (|t| > |word| ==> IsSpace(t[|word|]))
  {
    var s := word + rest;
    var l, r := TrimSpaceSplits(s);
    var t := TrimSpace(s);
    assert s[0] == word[0];
    assert (l + t + r)[0] == s[0];
    assert l == "";
    assert t + r == s;
    var k := |word| - 1;
    assert s[k] == word[k];
    assert s[k] == (t + r)[k];
    assert t == s[..|t|];
    assert s[..|word|] == word;
    assert |t| > |word| ==> t[|word|] == rest[0];
  }

  /** The first scope decides when it decides at all. */
  lemma FirstScopeDecides(word: string, rest: string)
    requires word != "" && (forall i | 0 <= i < |word| :: !IsSpace(word[i]))
    requires rest == "" || IsSpace(rest[0])
    requires ScopeVerdict(ToLower(word)).Some?
    ensures ShouldPersistGraphToken(word + rest) == ScopeVerdict(ToLower(word)).value
  {
    TrimKeepsFirstWord(word, rest);
    var t := TrimSpace(word + rest);
    var low := ToLower(t);
    hide ScopeVerdict, TrimSpace;
    LowerKeepsSpaces(t);
    LowerKeepsSpaces(word);
    assert low[0] == LowerChar(t[0]) && t[0] == t[..|word|][0] == word[0];
    assert forall i | 0 <= i < |word| :: t[i] == t[..|word|][i] == word[i];
    assert forall i | 0 <= i < |word| :: !IsSpace(low[i]);
    assert FieldEnd(low) == |word|;
    assert low[..|word|] == ToLower(word) by {
      forall i | 0 <= i < |word| ensures low[i] == ToLower(word)[i] {
        assert t[i] == t[..|word|][i];
      }
    }
  }

  lemma LowerKeepsSpaces(s: string)
    ensures forall i | 0 <= i < |s| :: IsSpace(ToLower(s)[i]) <==> IsSpace(s[i])
  {
  }

  /** Printable ASCII, so no whitespace. */
  predicate Printable(s: string) {
    forall i | 0 <= i < |s| :: '!' <= s[i] <= '~'
  }

  lemma PrintableHasNoSpace(s: string)
    requires Printable(s)
    ensures forall i | 0 <= i < |s| :: !IsSpace(s[i])
  {
  }

  lemma MBIScopeLowered()
    ensures ToLower(MBI_SCOPE) == MBI_MARKER
  {
    var low := ToLower(MBI_SCOPE);
    assert forall i | 0 <= i < |low| :: low[i] == LowerChar(MBI_SCOPE[i]);
  }

  lemma MBIScopePrintable()
    ensures Printable(MBI_SCOPE)
  {
  }

  lemma MBIVerdict()
    ensures ScopeVerdict(MBI_MARKER) == Some(false)
  {
    var marker := MBI_MARKER;
    assert marker[0..0 + |marker|] == marker;
    assert OccursAt(marker, MBI_MARKER, 0);
  }

  /** Tokens of an MBI-scoped refresh are never taken for Graph tokens, whatever scopes follow. */
  lemma MBIScopeNotForGraph(rest: string)
    requires rest == "" || IsSpace(rest[0])
    ensures !ShouldPersistGraphToken(MBI_SCOPE + rest)
  {
    hide ScopeVerdict, Fields, TrimSpace, ToLower;
    MBIScopeLowered();
    MBIScopePrintable();
    MBIVerdict();
    PrintableHasNoSpace(MBI_SCOPE);
    FirstScopeDecides(MBI_SCOPE, rest);
  }

  lemma GraphVerdict(low: string)
    requires low == "https://" + "graph.microsoft.com" + "/files.readwrite"
    ensures ScopeVerdict(low) == Some(true)
  {
    assert low[8..27] == "graph.microsoft.com";
    assert OccursAt(low, "graph.microsoft.com", 8);
    assert |low| - |MBI_MARKER| == 2;
    assert low[0] == 'h' && low[1] == 't' && low[2] == 't';
    assert MBI_MARKER[0] == 's';
    forall i | 0 <= i <= |low|
      ensures !OccursAt(low, MBI_MARKER, i)
    {
      if i <= 2 {
        assert low[i..i + |MBI_MARKER|][0] == low[i];
      }
    }
  }

  lemma LowerAppend(a: string, b: string)
    ensures ToLower(a + b) == ToLower(a) + ToLower(b)
  {
  }

  lemma GraphScopeLowered()
    ensures ToLower(GRAPH_SCOPE) == "https://" + "graph.microsoft.com" + "/files.readwrite"
  {
    LowerAppend("https://" + "graph.microsoft.com", "/Files.ReadWrite");
    LowerAppend("https://", "graph.microsoft.com");
    assert ToLower("https://") == "https://";
    assert ToLower("graph.microsoft.com") == "graph.microsoft.com";
    assert ToLower("/Files.ReadWrite") == "/files.readwrite";
  }

  lemma GraphScopePrintable()
    ensures Printable(GRAPH_SCOPE)
  {
  }

  lemma GraphScopeForGraph(rest: string)
    requires rest == "" || IsSpace(rest[0])
    ensures ShouldPersistGraphToken(GRAPH_SCOPE + rest)
  {
    hide ScopeVerdict, Fields, TrimSpace, ToLower;
    GraphScopeLowered();
    GraphScopePrintable();
    GraphVerdict(ToLower(GRAPH_SCOPE));
    PrintableHasNoSpace(GRAPH_SCOPE);
    FirstScopeDecides(GRAPH_SCOPE, rest);
  }

  // ----- the login

  /** The token fields of the login metadata. */
  datatype Meta = Meta(
    refreshToken: string,
    accessTokenExpiresAt: int,
    skypeToken: string,
    skypeTokenExpiresAt: int,
    graphAccessToken: string,
    graphExpiresAt: int,
    teamsUserID: string
  )

  datatype SkypeReply = SkypeError | SkypeToken(token: string, expiresAt: int, skypeID: string)

  const EXPIRY_SKEW: int := 60_000_000_000

  /** A non-zero expiry in Unix seconds lies more than the skew after `now`. */
  predicate ValidUntil(expiresAt: int, now: nat) {
    expiresAt != 0 && now + EXPIRY_SKEW < expiresAt * 1_000_000_000
  }

  predicate SkypeTokenValid(m: Meta, now: nat) {
    m.skypeToken != "" && ValidUntil(m.skypeTokenExpiresAt, now)
  }

  predicate GraphTokenValid(m: Meta, now: nat) {
    TrimSpace(m.graphAccessToken) != "" && ValidUntil(m.graphExpiresAt, now)
  }

  function NormalizeTeamsUserID(value: string): string {
    var v := TrimSpace(value);
    if v == "" then "" else if HasPrefix(v, "8:") then v else "8:" + v
  }

  datatype Refreshed = Refreshed(meta: Meta, saved: Meta, presented: seq<string>, ok: bool)

  /** ensureValidSkypeToken, with a save that succeeds. The scopes start with the MBI scope. */
  function RefreshSkype(meta: Meta, saved: Meta, now: nat, moreScopes: string, reply: TokenReply, skype: SkypeReply)
    : Refreshed
  {
    var refresh := TrimSpace(meta.refreshToken);
    if SkypeTokenValid(meta, now) then Refreshed(meta, saved, [], true)
    else if refresh == "" then Refreshed(meta, saved, [], false)
    else
      match TokenRequest(MBI_SCOPE + moreScopes, now, reply)
      case None => Refreshed(meta, saved, [refresh], false)
      case Some(state) =>
        var issued := TrimSpace(state.refreshToken);
        var rotated := if issued == "" then meta else meta.(refreshToken := issued);
        if skype.SkypeError? then
          Refreshed(rotated, if issued != "" && issued != refresh then rotated else saved, [refresh], false)
        else
          var withSkype := rotated.(accessTokenExpiresAt := state.expiresAtUnix, skypeToken := skype.token,
                                    skypeTokenExpiresAt := skype.expiresAt,
                                    teamsUserID := NormalizeTeamsUserID(skype.skypeID));
          var done := if TrimSpace(state.graphAccessToken) != "" && state.graphExpiresAt != 0
                      then withSkype.(graphAccessToken := TrimSpace(state.graphAccessToken),
                                      graphExpiresAt := state.graphExpiresAt)
                      else withSkype;
          Refreshed(done, done, [refresh], true)
  }

  /** refreshAccessTokenForGraphScope: a second request with more scopes when the first one fails. */
  function GraphRequests(now: nat, first: TokenReply, second: TokenReply): (Option<AuthState>, nat) {
    var state := TokenRequest(GRAPH_SCOPE + " offline_access", now, first);
    if state.Some? then (state, 1)
    else (TokenRequest("openid profile offline_access " + GRAPH_SCOPE, now, second), 2)
  }

  /** The state is good enough for ensureValidGraphToken to keep anything of it. */
  predicate UsableForGraph(state: AuthState) {
    TrimSpace(state.graphAccessToken) != "" && state.graphExpiresAt != 0
  }

  /** ensureValidGraphToken, with a save that succeeds. */
  function RefreshGraph(meta: Meta, saved: Meta, now: nat, first: TokenReply, second: TokenReply): Refreshed {
    var refresh := TrimSpace(meta.refreshToken);
    if GraphTokenValid(meta, now) then Refreshed(meta, saved, [], true)
    else if refresh == "" then Refreshed(meta, saved, [], false)
    else
      var (result, n) := GraphRequests(now, first, second);
      var presented := if n == 1 then [refresh] else [refresh, refresh];
      match result
      case None => Refreshed(meta, saved, presented, false)
      case Some(state) =>
        if !UsableForGraph(state) then Refreshed(meta, saved, presented, false)
        else
          var issued := TrimSpace(state.refreshToken);
          var done := (if issued == "" then meta else meta.(refreshToken := issued))
                      .(graphAccessToken := TrimSpace(state.graphAccessToken), graphExpiresAt := state.graphExpiresAt);
          Refreshed(done, done, presented, true)
  }

  /** The login object; both methods run under authMu from start to end. */
  class Login {
    var meta: Meta
    /** What the last Save wrote. */
    var saved: Meta

    constructor (meta: Meta)
      ensures this.meta == this.saved == meta
    {
      this.meta, saved := meta, meta;
    }

    method Save()
      modifies this`saved
      ensures saved == meta
    {
      saved := meta;
    }

    method EnsureValidSkypeToken(now: nat, moreScopes: string, reply: TokenReply, skype: SkypeReply)
      returns (ok: bool, presented: seq<string>)
      modifies this
      ensures Refreshed(meta, saved, presented, ok)
          == RefreshSkype(old(meta), old(saved), now, moreScopes, reply, skype)
    {
      hide TrimSpace, TokenRequest, NormalizeTeamsUserID;
      presented := [];
      if SkypeTokenValid(meta, now) {
        return true, presented;
      }
      var refresh := TrimSpace(meta.refreshToken);
      if refresh == "" {
        return false, presented;
      }
      presented := [refresh];
      var result := TokenRequest(MBI_SCOPE + moreScopes, now, reply);
      if result.None? {
        return false, presented;
      }
      var state := result.value;
      var rotated := false;
      if TrimSpace(state.refreshToken) != "" {
        meta := meta.(refreshToken := TrimSpace(state.refreshToken));
        rotated := meta.refreshToken != refresh;
      }
      if skype.SkypeError? {
        if rotated {
          Save();
        }
        return false, presented;
      }
      meta := meta.(accessTokenExpiresAt := state.expiresAtUnix, skypeToken := skype.token,
                    skypeTokenExpiresAt := skype.expiresAt);
      if TrimSpace(state.graphAccessToken) != "" && state.graphExpiresAt != 0 {
        meta := meta.(graphAccessToken := TrimSpace(state.graphAccessToken), graphExpiresAt := state.graphExpiresAt);
      }
      meta := meta.(teamsUserID := NormalizeTeamsUserID(skype.skypeID));
      Save();
      ok := true;
    }

    method EnsureValidGraphToken(now: nat, first: TokenReply, second: TokenReply)
      returns (ok: bool, presented: seq<string>)
      modifies this
      ensures Refreshed(meta, saved, presented, ok) == RefreshGraph(old(meta), old(saved), now, first, second)
    {
      hide TrimSpace, TokenRequest;
      presented := [];
      if GraphTokenValid(meta, now) {
        return true, presented;
      }
      var refresh := TrimSpace(meta.refreshToken);
      if refresh == "" {
        return false, presented;
      }
      var (result, n) := GraphRequests(now, first, second);
      presented := if n == 1 then [refresh] else [refresh, refresh];
      if result.None? || !UsableForGraph(result.value) {
        return false, presented;
      }
      var state := result.value;
      if TrimSpace(state.refreshToken) != "" {
        meta := meta.(refreshToken := TrimSpace(state.refreshToken));
      }
      meta := meta.(graphAccessToken := TrimSpace(state.graphAccessToken), graphExpiresAt := state.graphExpiresAt);
      Save();
      ok := true;
    }
  }

  // ----- any interleaving of the two

  datatype Step =
    | Skype(now: nat, moreScopes: string, reply: TokenReply, skype: SkypeReply)
    | Graph(now: nat, first: TokenReply, second: TokenReply)

  function Take(meta: Meta, saved: Meta, step: Step): Refreshed {
    match step
    case Skype(now, more, reply, skype) => RefreshSkype(meta, saved, now, more, reply, skype)
    case Graph(now, first, second) => RefreshGraph(meta, saved, now, first, second)
  }

  /** The answer carries a refresh token, usable access token or not. */
  predicate IssuesToken(r: TokenReply) {
    r.Answer? && TrimSpace(r.refreshToken) != ""
  }

  function IssuedBy(r: TokenReply, before: string): string {
    if IssuesToken(r) then TrimSpace(r.refreshToken) else before
  }

  predicate Rotates(r: TokenReply, newest: string) {
    IssuedBy(r, newest) != newest
  }

  predicate RequestsSkype(meta: Meta, now: nat) {
    !SkypeTokenValid(meta, now) && TrimSpace(meta.refreshToken) != ""
  }

  predicate RequestsGraph(meta: Meta, now: nat) {
    !GraphTokenValid(meta, now) && TrimSpace(meta.refreshToken) != ""
  }

  predicate Requests(meta: Meta, step: Step) {
    if step.Skype? then RequestsSkype(meta, step.now) else RequestsGraph(meta, step.now)
  }

  /** The newest refresh token after a step, whatever the step makes of it. */
  function NewestAfter(meta: Meta, step: Step, newest: string): string {
    if !Requests(meta, step) then newest
    else
      match step
      case Skype(_, _, reply, _) => IssuedBy(reply, newest)
      case Graph(_, first, second) =>
        if Grants(first) then IssuedBy(first, newest) else IssuedBy(second, IssuedBy(first, newest))
  }

  /** The reply to the last request of a Graph refresh. */
  function LastReply(step: Step): TokenReply
    requires step.Graph?
  {
    if Grants(step.first) then step.first else step.second
  }

  /** The Graph refresh keeps something of the reply: it has a lifetime and an access token that is not blank. */
  predicate KeptByGraph(r: TokenReply) {
    Grants(r) && r.expiresIn > 0 && TrimSpace(r.accessToken) != ""
  }

  /** The newest refresh token comes with a reply the refresher throws away: one without an access token, or for the
      Graph refresher without a lifetime or with a blank access token. */
  predicate DropsRotation(meta: Meta, step: Step, newest: string) {
    && Requests(meta, step)
    && match step
       case Skype(_, _, reply, _) => Rotates(reply, newest) && reply.accessToken == ""
       case Graph(_, first, _) =>
         var last := LastReply(step);
         if IssuesToken(last) then Rotates(last, newest) && !KeptByGraph(last)
         else !Grants(first) && Rotates(first, newest)
  }

  /** The first Graph request is answered with a new refresh token but no access token, so the second presents the
      one before. */
  predicate PresentsStale(meta: Meta, step: Step, newest: string) {
    step.Graph? && Requests(meta, step) && !Grants(step.first) && Rotates(step.first, newest)
  }

  /** Each request of the step presents the token that is newest when it is made. */
  predicate PresentsNewest(presented: seq<string>, step: Step, newest: string) {
    forall i | 0 <= i < |presented| ::
      presented[i] == if i == 0 || step.Skype? then newest else IssuedBy(step.first, newest)
  }

  /** Memory holds the newest token, and the saved copy is the same up to blanks around it. */
  predicate Current(meta: Meta, saved: Meta, newest: string) {
    && TrimSpace(meta.refreshToken) == newest
    && saved.(refreshToken := TrimSpace(saved.refreshToken)) == meta.(refreshToken := newest)
  }

  /** What a step achieves: it presents the newest token exactly unless it presents a stale one, leaves the newest
      token held and saved exactly unless it drops a rotation, and never blanks the token. */
  predicate KeepsNewest(meta: Meta, saved: Meta, step: Step, newest: string) {
    var r := Take(meta, saved, step);
    && (PresentsNewest(r.presented, step, newest) <==> !PresentsStale(meta, step, newest))
    && (Current(r.meta, r.saved, NewestAfter(meta, step, newest)) <==> !DropsRotation(meta, step, newest))
    && (newest != "" ==> TrimSpace(r.meta.refreshToken) != "")
  }

  lemma SkypeKeepsNewest(meta: Meta, saved: Meta, step: Step, newest: string)
    requires step.Skype? && Current(meta, saved, newest)
    ensures KeepsNewest(meta, saved, step, newest)
  {
    hide TrimSpace, ShouldPersistGraphToken, NormalizeTeamsUserID, SkypeTokenValid;
    TrimTwice(meta.refreshToken);
    if step.reply.Answer? {
      TrimTwice(step.reply.refreshToken);
    }
  }

  lemma GraphKeepsNewest(meta: Meta, saved: Meta, step: Step, newest: string)
    requires step.Graph? && Current(meta, saved, newest)
    ensures KeepsNewest(meta, saved, step, newest)
  {
    GraphRequestMade(meta, saved, step);
    if RequestsGraph(meta, step.now) {
      GraphReplyKeepsNewest(meta, saved, step, newest);
      GraphPresents(Take(meta, saved, step).presented, step, newest);
    } else {
      QuietStep(meta, step, newest);
    }
    hide TrimSpace, GraphTokenValid, GraphRequests, Grants, RefreshGraph, DropsRotation, NewestAfter, IssuedBy,
         PresentsNewest;
    TrimTwice(meta.refreshToken);
  }

  lemma GraphPresents(presented: seq<string>, step: Step, newest: string)
    requires step.Graph? && presented == if Grants(step.first) then [newest] else [newest, newest]
    ensures PresentsNewest(presented, step, newest) <==> Grants(step.first) || !Rotates(step.first, newest)
  {
    hide IssuedBy, Grants;
    if !Grants(step.first) {
      assert presented[1] == newest;
    }
  }

  lemma QuietStep(meta: Meta, step: Step, newest: string)
    requires !Requests(meta, step)
    ensures NewestAfter(meta, step, newest) == newest && !DropsRotation(meta, step, newest)
  {
  }

  /** What that reply leaves in memory. */
  function AfterGraphReply(meta: Meta, now: nat, r: TokenReply): Meta {
    if Grants(r) && UsableForGraph(GraphState(now, r)) then
      var issued := TrimSpace(r.refreshToken);
      (if issued == "" then meta else meta.(refreshToken := issued))
      .(graphAccessToken := TrimSpace(r.accessToken), graphExpiresAt := GraphState(now, r).graphExpiresAt)
    else meta
  }

  lemma GraphRequestMade(meta: Meta, saved: Meta, step: Step)
    requires step.Graph?
    ensures var r, refresh := Take(meta, saved, step), TrimSpace(meta.refreshToken);
            if RequestsGraph(meta, step.now) then
              && r.meta == AfterGraphReply(meta, step.now, LastReply(step))
              && r.saved == (if r.ok then r.meta else saved)
              && r.ok == (Grants(LastReply(step)) && UsableForGraph(GraphState(step.now, LastReply(step))))
              && r.presented == if Grants(step.first) then [refresh] else [refresh, refresh]
            else r.meta == meta && r.saved == saved && r.presented == []
  {
    GraphRequestResults(step.now, step.first, step.second);
    hide TrimSpace, GraphTokenValid, GraphRequests, Grants;
  }

  lemma GraphReplyKeepsNewest(meta: Meta, saved: Meta, step: Step, newest: string)
    requires step.Graph? && Current(meta, saved, newest) && RequestsGraph(meta, step.now)
    ensures var r := LastReply(step);
            var after := AfterGraphReply(meta, step.now, r);
            var kept := Grants(r) && UsableForGraph(GraphState(step.now, r));
            && (Current(after, if kept then after else saved, NewestAfter(meta, step, newest)) <==>
                  !DropsRotation(meta, step, newest))
            && TrimSpace(after.refreshToken) != ""
  {
    hide TrimSpace, GraphTokenValid;
    var r := LastReply(step);
    TrimTwice(meta.refreshToken);
    if r.Answer? {
      TrimTwice(r.refreshToken);
    }
    if Grants(r) {
      GraphExpiry(step.now, r);
    }
  }

  lemma GraphExpiry(now: nat, r: TokenReply)
    requires Grants(r)
    ensures GraphState(now, r).graphExpiresAt != 0 <==> r.expiresIn > 0
  {
  }

  function GraphState(now: nat, r: TokenReply): AuthState
    requires Grants(r)
  {
    var expiresAt := if r.expiresIn > 0 then now / 1_000_000_000 + r.expiresIn else 0;
    EMPTY_STATE.(accessToken := r.accessToken, refreshToken := r.refreshToken, expiresAtUnix := expiresAt,
                 graphAccessToken := r.accessToken, graphExpiresAt := expiresAt)
  }

  /** The second request is made exactly when the first grants nothing, and what either grants is a Graph token. */
  lemma GraphRequestResults(now: nat, first: TokenReply, second: TokenReply)
    ensures Grants(first) ==> GraphRequests(now, first, second) == (Some(GraphState(now, first)), 1)
    ensures !Grants(first) && Grants(second) ==> GraphRequests(now, first, second) == (Some(GraphState(now, second)), 2)
    ensures !Grants(first) && !Grants(second) ==> GraphRequests(now, first, second) == (None, 2)
  {
    hide ShouldPersistGraphToken, Grants;
    GraphScopeForGraph(" offline_access");
    GraphFallbackForGraph();
    GraphTokenRequest(GRAPH_SCOPE + " offline_access", now, first);
    GraphTokenRequest("openid profile offline_access " + GRAPH_SCOPE, now, second);
    hide TokenRequest, GraphState, GRAPH_SCOPE;
  }

  lemma GraphTokenRequest(scope: string, now: nat, r: TokenReply)
    requires ShouldPersistGraphToken(scope)
    ensures TokenRequest(scope, now, r) == if Grants(r) then Some(GraphState(now, r)) else None
  {
    hide ShouldPersistGraphToken;
  }

  // ----- the fallback scopes: three that do not decide, then the Graph scope

  lemma FieldsCons(word: string, rest: string)
    requires word != "" && (forall i | 0 <= i < |word| :: !IsSpace(word[i]))
    ensures Fields(word + " " + rest) == [word] + Fields(rest)
  {
    var s := word + " " + rest;
    assert forall i | 0 <= i < |word| :: s[i] == word[i];
    assert s[|word|] == ' ';
    assert FieldEnd(s) == |word|;
    assert s[..|word|] == word && s[|word|..] == " " + rest;
    assert (" " + rest)[1..] == rest;
  }

  lemma ShortScopeUndecided(word: string)
    requires |word| < 15
    ensures ScopeVerdict(word) == None
  {
    assert |"files.readwrite"| == 15;
  }

  lemma FallbackLowered()
    ensures ToLower("openid profile offline_access " + GRAPH_SCOPE)
         == "openid" + " " + ("profile" + " " + ("offline_access" + " " + ToLower(GRAPH_SCOPE)))
  {
    LowerAppend("openid profile offline_access ", GRAPH_SCOPE);
    ScopesLowered();
    hide ToLower, GRAPH_SCOPE;
    var graph := ToLower(GRAPH_SCOPE);
    assert "openid" + " " + ("profile" + " " + ("offline_access" + " ")) + graph
        == "openid" + " " + ("profile" + " " + ("offline_access" + " " + graph));
  }

  lemma ScopesLowered()
    ensures ToLower("openid profile offline_access ") == "openid" + " " + ("profile" + " " + ("offline_access" + " "))
  {
    LowerAppend("openid", " " + "profile" + (" " + ("offline_access" + " ")));
    LowerAppend(" " + "profile", " " + ("offline_access" + " "));
    assert ToLower("openid") == "openid";
    assert ToLower(" " + "profile") == " " + "profile";
    assert ToLower(" " + ("offline_access" + " ")) == " " + ("offline_access" + " ");
    hide ToLower;
    ScopesSpelled();
  }

  lemma ScopesSpelled()
    ensures "openid profile offline_access " == "openid" + " " + ("profile" + " " + ("offline_access" + " "))
    ensures "openid profile offline_access " == "openid" + (" " + "profile" + (" " + ("offline_access" + " ")))
  {
  }

  lemma FallbackTrimmed()
    ensures Trimmed("openid profile offline_access " + GRAPH_SCOPE)
  {
    var s := "openid profile offline_access " + GRAPH_SCOPE;
    assert s[|s| - 1] == "/Files.ReadWrite"[15];
  }

  lemma GraphFallbackForGraph()
    ensures ShouldPersistGraphToken("openid profile offline_access " + GRAPH_SCOPE)
  {
    var s := "openid profile offline_access " + GRAPH_SCOPE;
    FallbackTrimmed();
    TrimSpaceOfTrimmed(s);
    FallbackLowered();
    GraphScopeLowered();
    GraphScopePrintable();
    PrintableHasNoSpace(GRAPH_SCOPE);
    var graph := ToLower(GRAPH_SCOPE);
    LowerKeepsSpaces(GRAPH_SCOPE);
    GraphVerdict(graph);
    assert Printable("openid") && Printable("profile") && Printable("offline_access");
    hide ScopeVerdict, ToLower, TrimSpace, FieldEnd;
    PrintableHasNoSpace("openid");
    PrintableHasNoSpace("profile");
    PrintableHasNoSpace("offline_access");
    FieldsCons("openid", "profile" + " " + ("offline_access" + " " + graph));
    FieldsCons("profile", "offline_access" + " " + graph);
    FieldsCons("offline_access", graph);
    ShortScopeUndecided("openid");
    ShortScopeUndecided("profile");
    ShortScopeUndecided("offline_access");
    SingleField(graph);
    VerdictAfter("openid", Fields("profile" + " " + ("offline_access" + " " + graph)));
    VerdictAfter("profile", Fields("offline_access" + " " + graph));
    VerdictAfter("offline_access", Fields(graph));
  }

  lemma SingleField(word: string)
    requires word != "" && (forall i | 0 <= i < |word| :: !IsSpace(word[i]))
    ensures Fields(word) == [word]
  {
    assert FieldEnd(word) == |word|;
    assert word[..|word|] == word && word[|word|..] == "";
  }

  lemma VerdictAfter(word: string, rest: seq<string>)
    requires ScopeVerdict(word) == None
    ensures FirstVerdict([word] + rest) == FirstVerdict(rest)
  {
    assert ([word] + rest)[1..] == rest;
  }

  // ----- whole runs

  function MetaAfter(meta: Meta, saved: Meta, steps: seq<Step>): (Meta, Meta)
    decreases |steps|
  {
    if steps == [] then (meta, saved)
    else
      var r := Take(meta, saved, steps[0]);
      MetaAfter(r.meta, r.saved, steps[1..])
  }

  function NewestAfterAll(meta: Meta, saved: Meta, steps: seq<Step>, newest: string): string
    decreases |steps|
  {
    if steps == [] then newest
    else
      var r := Take(meta, saved, steps[0]);
      NewestAfterAll(r.meta, r.saved, steps[1..], NewestAfter(meta, steps[0], newest))
  }

  /** All along the run each request presents the token that is newest when it is made, and after each step memory
      and the saved copy hold the newest token. */
  predicate NewestThroughout(meta: Meta, saved: Meta, steps: seq<Step>, newest: string)
    decreases |steps|
  {
    steps == [] ||
    var r, next := Take(meta, saved, steps[0]), NewestAfter(meta, steps[0], newest);
    && PresentsNewest(r.presented, steps[0], newest)
    && Current(r.meta, r.saved, next)
    && NewestThroughout(r.meta, r.saved, steps[1..], next)
  }

  /** No step of the run drops a rotation or presents a stale token. */
  predicate NothingDropped(meta: Meta, saved: Meta, steps: seq<Step>, newest: string)
    decreases |steps|
  {
    steps == [] ||
    var r := Take(meta, saved, steps[0]);
    && !DropsRotation(meta, steps[0], newest) && !PresentsStale(meta, steps[0], newest)
    && NothingDropped(r.meta, r.saved, steps[1..], NewestAfter(meta, steps[0], newest))
  }

  lemma StepKeepsNewest(meta: Meta, saved: Meta, step: Step, newest: string)
    requires Current(meta, saved, newest)
    ensures KeepsNewest(meta, saved, step, newest)
  {
    hide *;
    match step
    case Skype(_, _, _, _) => SkypeKeepsNewest(meta, saved, step, newest);
    case Graph(_, _, _) => GraphKeepsNewest(meta, saved, step, newest);
  }

  /** Over any interleaving of the two refreshers, the newest refresh token is presented, held and saved throughout
      if and only if no step drops a rotation or presents a stale token. */
  lemma {:induction false} RotationKeptIff(meta: Meta, saved: Meta, steps: seq<Step>, newest: string)
    requires Current(meta, saved, newest)
    ensures NewestThroughout(meta, saved, steps, newest) <==> NothingDropped(meta, saved, steps, newest)
    decreases |steps|
  {
    hide Take, DropsRotation, PresentsStale, PresentsNewest, Current, TrimSpace, NewestAfter;
    if steps != [] {
      var r, next := Take(meta, saved, steps[0]), NewestAfter(meta, steps[0], newest);
      StepKeepsNewest(meta, saved, steps[0], newest);
      if Current(r.meta, r.saved, next) {
        RotationKeptIff(r.meta, r.saved, steps[1..], next);
      }
    }
  }

  /** A refresh token comes with an access token, and for the Graph refresher with one that is not blank and has a
      lifetime. */
  predicate HealthyStep(step: Step) {
    match step
    case Skype(_, _, reply, _) => IssuesToken(reply) ==> Grants(reply)
    case Graph(_, first, second) =>
      (IssuesToken(first) ==> KeptByGraph(first)) && (IssuesToken(second) ==> KeptByGraph(second))
  }

  lemma HealthyDropsNothing(meta: Meta, step: Step, newest: string)
    requires HealthyStep(step)
    ensures !DropsRotation(meta, step, newest) && !PresentsStale(meta, step, newest)
  {
    hide TrimSpace, Requests;
  }

  /** Over any interleaving of the two refreshers with healthy replies, every request presents the newest refresh
      token, memory and the saved copy end up with it, and a token once held is never lost. */
  lemma {:induction false} RotationNeverLost(meta: Meta, saved: Meta, steps: seq<Step>, newest: string)
    requires Current(meta, saved, newest)
    requires forall i | 0 <= i < |steps| :: HealthyStep(steps[i])
    ensures NewestThroughout(meta, saved, steps, newest)
    ensures var (m, s) := MetaAfter(meta, saved, steps); Current(m, s, NewestAfterAll(meta, saved, steps, newest))
    ensures newest != "" ==> NewestAfterAll(meta, saved, steps, newest) != ""
    decreases |steps|
  {
    hide Take, DropsRotation, PresentsStale, PresentsNewest, HealthyStep, TrimSpace, NewestAfter;
    if steps != [] {
      var r := Take(meta, saved, steps[0]);
      assert HealthyStep(steps[0]);
      StepKeepsNewest(meta, saved, steps[0], newest);
      HealthyDropsNothing(meta, steps[0], newest);
      RotationNeverLost(r.meta, r.saved, steps[1..], NewestAfter(meta, steps[0], newest));
    }
  }

  /** A Skype refresh never touches the stored Graph token, whatever the endpoint grants. */
  lemma SkypeRefreshKeepsGraphPair(meta: Meta, saved: Meta, now: nat, moreScopes: string, reply: TokenReply,
                                   skype: SkypeReply)
    requires moreScopes == "" || IsSpace(moreScopes[0])
    ensures var r := RefreshSkype(meta, saved, now, moreScopes, reply, skype);
            r.meta.graphAccessToken == meta.graphAccessToken && r.meta.graphExpiresAt == meta.graphExpiresAt
  {
    MBIScopeNotForGraph(moreScopes);
    hide ShouldPersistGraphToken, NormalizeTeamsUserID;
    assert TrimSpace("") == "";
    hide TrimSpace;
  }

  /** A rotation the code loses: the Graph endpoint rotates the refresh token but grants no lifetime. The next
      request presents the old token. */
  lemma RotationLostWithoutLifetime(now: nat)
    ensures var meta := Meta("old", 0, "", 0, "", 0, "");
            var r := RefreshGraph(meta, meta, now, Answer("token", "new", 0), TokenError);
            !r.ok && r.presented == ["old"] && r.meta.refreshToken == "old"
  {
    GraphScopeForGraph(" offline_access");
    hide ShouldPersistGraphToken;
    TrimSpaceOfTrimmed("old");
    assert TrimSpace("") == "";
  }

  /** And two the endpoint causes by answering with a refresh token but no access token: both refreshers drop it, and
      the second Graph request already presents the old one. */
  lemma RotationLostWithoutAccessToken(now: nat, moreScopes: string, skype: SkypeReply)
    ensures var meta, reply := Meta("old", 0, "", 0, "", 0, ""), Answer("", "new", 3600);
            && RefreshSkype(meta, meta, now, moreScopes, reply, skype) == Refreshed(meta, meta, ["old"], false)
            && RefreshGraph(meta, meta, now, reply, TokenError) == Refreshed(meta, meta, ["old", "old"], false)
  {
    TrimSpaceOfTrimmed("old");
    assert TrimSpace("") == "";
    hide ShouldPersistGraphToken;
  }
}
