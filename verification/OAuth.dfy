/** The authorization-code and refresh-token grants.  Storage is a map from code to record and a map from
    token hash to record; a handler call is one atomic step.  The clock, the random codes and tokens, the
    user lookup and the allocator are inputs of the step. */
module OAuth {
  import opened Basics
  import opened RedirectUris

  const REFRESH_TTL: int := 2592000000
  const DEFAULT_CODE_TTL: int := 60000
  const CLIENT_ID_SIZE: nat := 64
  const REDIRECT_URI_SIZE: nat := 512
  const SCOPE_SIZE: nat := 256
  const NONCE_SIZE: nat := 128
  const CHALLENGE_SIZE: nat := 256

  datatype Config = Config(clientId: string, redirectUris: string, codeTtl: int)
  datatype Client = Client(redirectUris: string, status: int)
  datatype User = User(id: nat, active: bool)

  /** The hash refresh tokens are stored under, and the S256 transformation of verifiers. */
  datatype Crypto = Crypto(hash: string -> string, s256: string -> string)

  datatype AuthCode = AuthCode(
    clientId: string, userId: nat, redirectUri: string, scope: string, nonce: string,
    challenge: string, challengeMethod: string, expiresAt: int, used: bool)

  datatype RefreshToken = RefreshToken(userId: nat, clientId: string, issuedAt: int, expiresAt: int, revoked: bool)

  datatype Store = Store(codes: map<string, AuthCode>, tokens: map<string, RefreshToken>)

  datatype Query = Query(
    clientId: Option<string>, redirectUri: Option<string>, responseType: Option<string>,
    scope: Option<string>, nonce: Option<string>,
    challenge: Option<string>, challengeMethod: Option<string>)

  /** One handler call with everything it reads from outside the two maps.  `code` and `issued` are the
      fresh random strings, `room` says whether the response buffer could be allocated. */
  datatype Event =
    | Authorize(cfg: Config, clients: map<string, Client>, query: Query, user: Option<User>,
                code: string, now: int, room: bool)
    | Exchange(presented: Option<string>, redirectUri: Option<string>, verifier: Option<string>,
               now: int, active: bool, issued: Option<string>, room: bool)
    | Refresh(token: Option<string>, now: int, active: bool, issued: Option<string>, room: bool)

  datatype Answer =
    | Refused(status: nat, error: string)
    | Redirected(code: string)
    | Issued(userId: nat, refreshToken: string)

  // -------------------------------------------------------------------------- checks

  function VerifyPkce(crypto: Crypto, verifier: Option<string>, challenge: string, challengeMethod: string): (ok: bool)
    ensures ok <==> challenge == "" || (verifier.Some? && Answers(crypto, verifier.value, challenge, challengeMethod))
  {
    if challenge == "" then true
    else if verifier.None? then false
    else if |verifier.value| < 43 || |verifier.value| > 128 then false
    else if challengeMethod == "plain" then verifier.value == challenge
    else if challengeMethod == "S256" then crypto.s256(verifier.value) == challenge
    else false
  }

  /** A verifier of legal length transforms to the challenge, section 4.6 of RFC 7636. */
  predicate Answers(crypto: Crypto, verifier: string, challenge: string, challengeMethod: string) {
    && 43 <= |verifier| <= 128
    && (challengeMethod == "plain" || challengeMethod == "S256")
    && challenge == (if challengeMethod == "plain" then verifier else crypto.s256(verifier))
  }

  /** The redirect list of a client that may ask for codes. */
  function RedirectList(ev: Event): Option<string>
    requires ev.Authorize? && ev.query.clientId.Some?
  {
    var id := ev.query.clientId.value;
    if id == ev.cfg.clientId then Some(ev.cfg.redirectUris)
    else if id in ev.clients && ev.clients[id].status == 1 then Some(ev.clients[id].redirectUris)
    else None
  }

  /** Everything an authorization request has to satisfy before a code is made. */
  ghost predicate Granted(ev: Event) {
    && ev.Authorize? && ev.cfg.clientId != ""
    && ev.query.clientId.Some? && ev.query.redirectUri.Some? && ev.query.responseType == Some("code")
    && (ev.query.challengeMethod.Some? ==> ev.query.challengeMethod.value == "S256" || ev.query.challengeMethod.value == "plain")
    && RedirectList(ev).Some?
    && Allowed(Clipped(RedirectList(ev).value, COPY_SIZE), ev.query.redirectUri.value)
    && ev.user.Some? && ev.user.value.active
  }

  function CodeTtl(cfg: Config): (ttl: int)
    ensures 0 < ttl
  {
    if cfg.codeTtl > 0 then cfg.codeTtl else DEFAULT_CODE_TTL
  }

  function Or(s: Option<string>, d: string): string {
    if s.Some? then s.value else d
  }

  function ChallengeMethod(q: Query): string {
    if q.challengeMethod.Some? then q.challengeMethod.value else if q.challenge.Some? then "plain" else ""
  }

  /** The record of a new code. */
  function NewCode(ev: Event): AuthCode
    requires ev.Authorize? && ev.query.clientId.Some? && ev.query.redirectUri.Some? && ev.user.Some?
  {
    AuthCode(Clipped(ev.query.clientId.value, CLIENT_ID_SIZE), ev.user.value.id,
             Clipped(ev.query.redirectUri.value, REDIRECT_URI_SIZE),
             Clipped(Or(ev.query.scope, ""), SCOPE_SIZE), Clipped(Or(ev.query.nonce, ""), NONCE_SIZE),
             Clipped(Or(ev.query.challenge, ""), CHALLENGE_SIZE), ChallengeMethod(ev.query),
             ev.now + CodeTtl(ev.cfg), false)
  }

  /** A field of `size` bytes holds the text, cut off where it does not fit. */
  ghost predicate HoldsText(field: string, text: string, size: nat) {
    field <= text && |field| == if |text| < size then |text| else size - 1
  }

  ghost predicate HoldsOptional(field: string, text: Option<string>, size: nat) {
    if text.Some? then HoldsText(field, text.value, size) else field == ""
  }

  /** The record of a code, field by field: client, user and redirect URI of the request, what it sent of the
      rest, a lifetime that is the configured one or a minute, and not used. */
  ghost predicate Records(ac: AuthCode, ev: Event)
    requires ev.Authorize? && ev.query.clientId.Some? && ev.query.redirectUri.Some? && ev.user.Some?
  {
    && HoldsText(ac.clientId, ev.query.clientId.value, 64) && ac.userId == ev.user.value.id
    && HoldsText(ac.redirectUri, ev.query.redirectUri.value, 512)
    && HoldsOptional(ac.scope, ev.query.scope, 256) && HoldsOptional(ac.nonce, ev.query.nonce, 128)
    && HoldsOptional(ac.challenge, ev.query.challenge, 256)
    && (ev.query.challengeMethod.Some? ==> ac.challengeMethod == ev.query.challengeMethod.value)
    && (ev.query.challengeMethod.None? ==> ac.challengeMethod == if ev.query.challenge.Some? then "plain" else "")
    && ac.expiresAt == ev.now + (if 0 < ev.cfg.codeTtl then ev.cfg.codeTtl else 60 * 1000)
    && !ac.used
  }

  lemma ClippedHolds(field: string, text: string, size: nat)
    requires 0 < size
    ensures HoldsText(field, text, size) <==> field == Clipped(text, size)
  {
    if HoldsText(field, text, size) { assert field == text[..|field|]; }
  }

  /** That determines the record. */
  lemma RecordsMeans(ac: AuthCode, ev: Event)
    requires ev.Authorize? && ev.query.clientId.Some? && ev.query.redirectUri.Some? && ev.user.Some?
    ensures Records(ac, ev) <==> ac == NewCode(ev)
  {
    var q := ev.query;
    ClippedHolds(ac.clientId, q.clientId.value, 64);
    ClippedHolds(ac.redirectUri, q.redirectUri.value, 512);
    ClippedHolds(ac.scope, Or(q.scope, ""), 256);
    ClippedHolds(ac.nonce, Or(q.nonce, ""), 128);
    ClippedHolds(ac.challenge, Or(q.challenge, ""), 256);
  }

  /** The client of the request may ask for codes, and `list` is where they may be sent. */
  ghost predicate MayAsk(ev: Event, list: string)
    requires ev.Authorize? && ev.query.clientId.Some?
  {
    var id := ev.query.clientId.value;
    || (id == ev.cfg.clientId && list == ev.cfg.redirectUris)
    || (id != ev.cfg.clientId && id in ev.clients && ev.clients[id].status == 1 && list == ev.clients[id].redirectUris)
  }

  lemma MayAskMeans(ev: Event)
    requires ev.Authorize? && ev.query.clientId.Some?
    ensures forall list :: MayAsk(ev, list) <==> RedirectList(ev) == Some(list)
  {
  }

  /** A code is made exactly for a complete request for one, by the configured client or a registered one of
      status 1, to an address on that client's list, on behalf of an active user. */
  lemma GrantedMeans(ev: Event)
    ensures Granted(ev) <==>
            && ev.Authorize? && ev.cfg.clientId != ""
            && ev.query.clientId.Some? && ev.query.redirectUri.Some? && ev.query.responseType == Some("code")
            && ev.query.challengeMethod in {None, Some("plain"), Some("S256")}
            && (exists list :: MayAsk(ev, list) && Allowed(Clipped(list, 512), ev.query.redirectUri.value))
            && ev.user.Some? && ev.user.value.active
  {
    if ev.Authorize? && ev.query.clientId.Some? {
      MayAskMeans(ev);
      assert RedirectList(ev).Some? ==> MayAsk(ev, RedirectList(ev).value);
    }
  }

  /** A code that may be traded now. */
  predicate Redeemable(crypto: Crypto, codes: map<string, AuthCode>, ev: Event)
    requires ev.Exchange? && ev.presented.Some? && ev.redirectUri.Some?
  {
    && ev.presented.value in codes
    && var ac := codes[ev.presented.value];
       !ac.used && ev.now <= ac.expiresAt && ac.redirectUri == ev.redirectUri.value
       && (ac.challenge == "" || (ev.verifier.Some? && Answers(crypto, ev.verifier.value, ac.challenge, ac.challengeMethod)))
  }

  function NewToken(userId: nat, clientId: string, now: int): RefreshToken {
    RefreshToken(userId, Clipped(clientId, CLIENT_ID_SIZE), now, now + REFRESH_TTL, false)
  }

  /** One live record more, under hash `h`, for 30 days and with at most 63 characters of the client id; every
      other record is as it was. */
  ghost predicate Stored(before: map<string, RefreshToken>, after: map<string, RefreshToken>, h: string,
                         userId: nat, clientId: string, now: int)
  {
    && after.Keys == before.Keys + {h} && (forall x :: x in before && x != h ==> after[x] == before[x])
    && after[h].userId == userId && !after[h].revoked
    && after[h].issuedAt == now && after[h].expiresAt == now + 30 * 24 * 60 * 60 * 1000
    && after[h].clientId <= clientId && |after[h].clientId| == if |clientId| <= 63 then |clientId| else 63
  }

  /** That determines the store. */
  lemma StoredMeans(before: map<string, RefreshToken>, after: map<string, RefreshToken>, h: string,
                    userId: nat, clientId: string, now: int)
    ensures Stored(before, after, h, userId, clientId, now) <==> after == before[h := NewToken(userId, clientId, now)]
  {
    var token := NewToken(userId, clientId, now);
    if Stored(before, after, h, userId, clientId, now) {
      assert after[h].clientId == clientId[..|after[h].clientId|] == token.clientId;
      assert after[h] == token;
    }
  }

  /** Every token of a user at a client, revoked. */
  function FamilyRevoked(tokens: map<string, RefreshToken>, userId: nat, clientId: string): (r: map<string, RefreshToken>)
    ensures r.Keys == tokens.Keys
    ensures forall h :: h in tokens && (tokens[h].userId, tokens[h].clientId) == (userId, clientId) ==> r[h] == tokens[h].(revoked := true)
    ensures forall h :: h in tokens && (tokens[h].userId, tokens[h].clientId) != (userId, clientId) ==> r[h] == tokens[h]
  {
    map h | h in tokens ::
      if tokens[h].userId == userId && tokens[h].clientId == clientId then tokens[h].(revoked := true) else tokens[h]
  }

  // --------------------------------------------------------------------- what a step does

  ghost function NextStore(crypto: Crypto, s: Store, ev: Event): Store {
    match ev
    case Authorize(_, _, _, _, code, _, _) =>
      if Granted(ev) then s.(codes := s.codes[code := NewCode(ev)]) else s
    case Exchange(presented, redirectUri, _, now, active, issued, _) =>
      if presented.None? || redirectUri.None? || !Redeemable(crypto, s.codes, ev) then s
      else
        var ac := s.codes[presented.value];
        var codes := s.codes[presented.value := ac.(used := true)];
        if !active || issued.None? then s.(codes := codes)
        else Store(codes, s.tokens[crypto.hash(issued.value) := NewToken(ac.userId, ac.clientId, now)])
    case Refresh(token, now, active, issued, _) =>
      if token.None? || crypto.hash(token.value) !in s.tokens then s
      else
        var h := crypto.hash(token.value);
        var rt := s.tokens[h];
        if rt.revoked then s.(tokens := FamilyRevoked(s.tokens, rt.userId, rt.clientId))
        else if now > rt.expiresAt || !active || issued.None? then s
        else
          s.(tokens := s.tokens[h := rt.(revoked := true)][crypto.hash(issued.value) := NewToken(rt.userId, rt.clientId, now)])
  }

  /** What a step answers. */
  ghost function Answered(crypto: Crypto, s: Store, ev: Event): Answer {
    match ev
    case Authorize(_, _, _, _, code, _, room) =>
      if !Granted(ev) then Refusal(ev) else if room then Redirected(code) else Refused(500, "Out of memory")
    case Exchange(presented, redirectUri, _, _, active, issued, room) =>
      if presented.None? || redirectUri.None? then Refused(400, "invalid_request")
      else if !Redeemable(crypto, s.codes, ev) then Refused(400, "invalid_grant")
      else Minted(s.codes[presented.value].userId, active, issued, room)
    case Refresh(token, now, active, issued, room) =>
      if token.None? then Refused(400, "invalid_request")
      else if !Usable(crypto, s.tokens, token.value, now) then Refused(400, "invalid_grant")
      else Minted(s.tokens[crypto.hash(token.value)].userId, active, issued, room)
  }

  /** How minting tokens for an accepted grant ends. */
  function Minted(userId: nat, active: bool, issued: Option<string>, room: bool): Answer {
    if !active then Refused(403, "user_inactive")
    else if issued.None? then Refused(500, "server_error")
    else if !room then Refused(500, "Out of memory")
    else Issued(userId, issued.value)
  }

  /** The first fault of an authorization request that is not granted. */
  ghost function Refusal(ev: Event): Answer
    requires ev.Authorize? && !Granted(ev)
  {
    var q := ev.query;
    if ev.cfg.clientId == "" then Refused(400, "oauth_not_configured")
    else if q.clientId.None? || q.redirectUri.None? || q.responseType.None? then Refused(400, "invalid_request")
    else if q.challengeMethod.Some? && q.challengeMethod.value !in {"S256", "plain"} then Refused(400, "invalid_request")
    else if RedirectList(ev).None? then Refused(400, "unauthorized_client")
    else if !Allowed(Clipped(RedirectList(ev).value, COPY_SIZE), q.redirectUri.value) then Refused(400, "invalid_redirect_uri")
    else if q.responseType.value != "code" then Refused(400, "unsupported_response_type")
    else if ev.user.None? then Refused(401, "authentication_required")
    else Refused(403, "user_inactive")
  }

  predicate Usable(crypto: Crypto, tokens: map<string, RefreshToken>, token: string, now: int) {
    var h := crypto.hash(token);
    h in tokens && !tokens[h].revoked && now <= tokens[h].expiresAt
  }

  // ------------------------------------------------------------------------ the handlers

  class Server {
    const crypto: Crypto
    var codes: map<string, AuthCode>
    var tokens: map<string, RefreshToken>

    ghost function State(): Store
      reads this
    {
      Store(codes, tokens)
    }

    constructor (crypto: Crypto)
      ensures State() == Store(map[], map[]) && this.crypto == crypto
    {
      this.crypto := crypto;
      codes, tokens := map[], map[];
    }

    method HandleAuthorize(ev: Event) returns (answer: Answer)
      requires ev.Authorize?
      modifies this`codes
      ensures State() == NextStore(crypto, old(State()), ev)
      ensures answer == Answered(crypto, old(State()), ev)
      ensures answer.Redirected? ==> answer.code in codes && Records(codes[answer.code], ev)
    {
      var q := ev.query;
      if ev.cfg.clientId == "" { return Refused(400, "oauth_not_configured"); }
      if q.clientId.None? || q.redirectUri.None? || q.responseType.None? { return Refused(400, "invalid_request"); }
      if q.challengeMethod.Some? && q.challengeMethod.value != "S256" && q.challengeMethod.value != "plain" {
        return Refused(400, "invalid_request");
      }
      var list: string;
      if q.clientId.value == ev.cfg.clientId {
        list := ev.cfg.redirectUris;
      } else {
        if q.clientId.value !in ev.clients || ev.clients[q.clientId.value].status != 1 {
          return Refused(400, "unauthorized_client");
        }
        list := ev.clients[q.clientId.value].redirectUris;
      }
      var allowed := IsAllowed(Some(list), q.redirectUri.value);
      if !allowed { return Refused(400, "invalid_redirect_uri"); }
      if q.responseType.value != "code" { return Refused(400, "unsupported_response_type"); }
      if ev.user.None? { return Refused(401, "authentication_required"); }
      if !ev.user.value.active { return Refused(403, "user_inactive"); }
      RecordsMeans(NewCode(ev), ev);
      codes := codes[ev.code := NewCode(ev)];
      if !ev.room { return Refused(500, "Out of memory"); }
      answer := Redirected(ev.code);
    }

    method StoreRefreshToken(userId: nat, clientId: string, token: string, now: int)
      modifies this`tokens
      ensures Stored(old(tokens), tokens, crypto.hash(token), userId, clientId, now)
    {
      StoredMeans(tokens, tokens[crypto.hash(token) := NewToken(userId, clientId, now)], crypto.hash(token), userId, clientId, now);
      tokens := tokens[crypto.hash(token) := NewToken(userId, clientId, now)];
    }

    method HandleExchange(ev: Event) returns (answer: Answer)
      requires ev.Exchange?
      modifies this`codes, this`tokens
      ensures State() == NextStore(crypto, old(State()), ev)
      ensures answer == Answered(crypto, old(State()), ev)
    {
      if ev.presented.None? || ev.redirectUri.None? { return Refused(400, "invalid_request"); }
      var code := ev.presented.value;
      if code !in codes { return Refused(400, "invalid_grant"); }
      var ac := codes[code];
      if ac.used { return Refused(400, "invalid_grant"); }
      if ev.now > ac.expiresAt { return Refused(400, "invalid_grant"); }
      if ac.redirectUri != ev.redirectUri.value { return Refused(400, "invalid_grant"); }
      if ac.challenge != "" {
        if !VerifyPkce(crypto, ev.verifier, ac.challenge, ac.challengeMethod) { return Refused(400, "invalid_grant"); }
      }
      codes := codes[code := ac.(used := true)];
      if !ev.active { return Refused(403, "user_inactive"); }
      if ev.issued.None? { return Refused(500, "server_error"); }
      ghost var before := tokens;
      StoreRefreshToken(ac.userId, ac.clientId, ev.issued.value, ev.now);
      StoredMeans(before, tokens, crypto.hash(ev.issued.value), ac.userId, ac.clientId, ev.now);
      if !ev.room { return Refused(500, "Out of memory"); }
      answer := Issued(ac.userId, ev.issued.value);
    }

    method HandleRefresh(ev: Event) returns (answer: Answer)
      requires ev.Refresh?
      modifies this`tokens
      ensures State() == NextStore(crypto, old(State()), ev)
      ensures answer == Answered(crypto, old(State()), ev)
    {
      if ev.token.None? { return Refused(400, "invalid_request"); }
      var h := crypto.hash(ev.token.value);
      if h !in tokens { return Refused(400, "invalid_grant"); }
      var rt := tokens[h];
      if rt.revoked {
        tokens := FamilyRevoked(tokens, rt.userId, rt.clientId);
        return Refused(400, "invalid_grant");
      }
      if ev.now > rt.expiresAt { return Refused(400, "invalid_grant"); }
      if !ev.active { return Refused(403, "user_inactive"); }
      if ev.issued.None? { return Refused(500, "server_error"); }
      tokens := tokens[h := rt.(revoked := true)];
      ghost var before := tokens;
      StoreRefreshToken(rt.userId, rt.clientId, ev.issued.value, ev.now);
      StoredMeans(before, tokens, crypto.hash(ev.issued.value), rt.userId, rt.clientId, ev.now);
      if !ev.room { return Refused(500, "Out of memory"); }
      answer := Issued(rt.userId, ev.issued.value);
    }
  }
}
