/** What a grant is good for: whose codes and tokens they are, what takes them away, and that nothing else
    does. */
module OAuthGrants {
  import opened Basics
  import opened RedirectUris
  import opened OAuth
  import opened OAuthRuns

  // ---------------------------------------------------------------------- parts of a run

  /** The store after the events, from any store on. */
  ghost function Later(crypto: Crypto, s: Store, evs: Run): Store
    decreases |evs|
  {
    if evs == [] then s else Later(crypto, NextStore(crypto, s, evs[0]), evs[1..])
  }

  ghost predicate FreshFrom(crypto: Crypto, s: Store, evs: Run)
    decreases |evs|
  {
    evs != [] ==> Fresh(crypto, s, evs[0]) && FreshFrom(crypto, NextStore(crypto, s, evs[0]), evs[1..])
  }

  lemma {:induction false} PartOfRun(crypto: Crypto, run: Run, i: nat, j: nat)
    requires Legal(crypto, run) && i <= j <= |run|
    ensures Later(crypto, Before(crypto, run, i), run[i..j]) == Before(crypto, run, j)
    ensures FreshFrom(crypto, Before(crypto, run, i), run[i..j])
    decreases j - i
  {
    if i < j {
      PartOfRun(crypto, run, i + 1, j);
      Unroll(crypto, run, i);
      assert run[i..j][0] == run[i] && run[i..j][1..] == run[i + 1..j];
      assert Fresh(crypto, Before(crypto, run, i), run[i]);
    }
  }

  // -------------------------------------------------------------------- what revokes a token

  /** The event trades the token `h` for a new one. */
  ghost predicate RotatesNow(crypto: Crypto, s: Store, ev: Event, h: string) {
    && ev.Refresh? && ev.token.Some? && crypto.hash(ev.token.value) == h
    && h in s.tokens && !s.tokens[h].revoked && ev.now <= s.tokens[h].expiresAt && ev.active && ev.issued.Some?
  }

  /** The event presents a revoked token of that user at that client. */
  ghost predicate Replays(crypto: Crypto, s: Store, ev: Event, userId: nat, clientId: string) {
    && ev.Refresh? && ev.token.Some? && crypto.hash(ev.token.value) in s.tokens
    && var rt := s.tokens[crypto.hash(ev.token.value)]; rt.revoked && rt.userId == userId && rt.clientId == clientId
  }

  /** Some event rotates the token `h`, or replays one of its user at its client. */
  ghost predicate Taken(crypto: Crypto, s: Store, evs: Run, h: string, userId: nat, clientId: string)
    decreases |evs|
  {
    && evs != []
    && (|| RotatesNow(crypto, s, evs[0], h) || Replays(crypto, s, evs[0], userId, clientId)
        || Taken(crypto, NextStore(crypto, s, evs[0]), evs[1..], h, userId, clientId))
  }

  /** A step revokes exactly the token it rotates, or every token of the family of a revoked one it presents;
      every other record, of another user or another client in particular, stays exactly as it was. */
  lemma StepRevokes(crypto: Crypto, s: Store, ev: Event, h: string)
    requires Fresh(crypto, s, ev) && h in s.tokens
    ensures h in NextStore(crypto, s, ev).tokens
    ensures var rt, rt' := s.tokens[h], NextStore(crypto, s, ev).tokens[h];
            if RotatesNow(crypto, s, ev, h) || Replays(crypto, s, ev, rt.userId, rt.clientId)
            then rt' == rt.(revoked := true) else rt' == rt
  {
  }

  /** Over every run: a token is revoked if and only if it was, or has been taken. */
  lemma {:induction false} RevokedExactly(crypto: Crypto, s: Store, evs: Run, h: string)
    requires FreshFrom(crypto, s, evs) && h in s.tokens
    ensures h in Later(crypto, s, evs).tokens
    ensures var rt := s.tokens[h];
            Later(crypto, s, evs).tokens[h]
            == rt.(revoked := rt.revoked || Taken(crypto, s, evs, h, rt.userId, rt.clientId))
    decreases |evs|
  {
    if evs != [] {
      StepRevokes(crypto, s, evs[0], h);
      RevokedExactly(crypto, NextStore(crypto, s, evs[0]), evs[1..], h);
    }
  }

  // ------------------------------------------------------------------------- used codes

  ghost predicate SpendsNow(crypto: Crypto, s: Store, ev: Event, c: string) {
    ev.Exchange? && ev.presented == Some(c) && ev.redirectUri.Some? && Redeemable(crypto, s.codes, ev)
  }

  ghost predicate Spent(crypto: Crypto, s: Store, evs: Run, c: string)
    decreases |evs|
  {
    evs != [] && (SpendsNow(crypto, s, evs[0], c) || Spent(crypto, NextStore(crypto, s, evs[0]), evs[1..], c))
  }

  lemma StepUses(crypto: Crypto, s: Store, ev: Event, c: string)
    requires Fresh(crypto, s, ev) && c in s.codes
    ensures c in NextStore(crypto, s, ev).codes
    ensures NextStore(crypto, s, ev).codes[c] == s.codes[c].(used := s.codes[c].used || SpendsNow(crypto, s, ev, c))
  {
  }

  /** Over every run: a code is used up if and only if it was, or has been spent. */
  lemma {:induction false} UsedExactly(crypto: Crypto, s: Store, evs: Run, c: string)
    requires FreshFrom(crypto, s, evs) && c in s.codes
    ensures c in Later(crypto, s, evs).codes
    ensures Later(crypto, s, evs).codes[c] == s.codes[c].(used := s.codes[c].used || Spent(crypto, s, evs, c))
    decreases |evs|
  {
    if evs != [] {
      StepUses(crypto, s, evs[0], c);
      UsedExactly(crypto, NextStore(crypto, s, evs[0]), evs[1..], c);
    }
  }

  // ------------------------------------------------------------------- what codes are good for

  /** The verifier answers the challenge the request sent, or it sent none. */
  ghost predicate Verified(crypto: Crypto, q: Query, verifier: Option<string>) {
    q.challenge.None? || q.challenge.value == "" ||
    (verifier.Some? && 43 <= |verifier.value| <= 128
     && HoldsText(if q.challengeMethod == Some("S256") then crypto.s256(verifier.value) else verifier.value, q.challenge.value, 256))
  }

  lemma VerifiedMeans(crypto: Crypto, ac: AuthCode, ev: Event, verifier: Option<string>)
    requires Granted(ev) && Records(ac, ev)
    ensures (ac.challenge == "" || (verifier.Some? && Answers(crypto, verifier.value, ac.challenge, ac.challengeMethod)))
            <==> Verified(crypto, ev.query, verifier)
  {
    if ev.query.challenge.Some? && verifier.Some? {
      ClippedHolds(ac.challenge, ev.query.challenge.value, 256);
      ClippedHolds(verifier.value, ev.query.challenge.value, 256);
      ClippedHolds(crypto.s256(verifier.value), ev.query.challenge.value, 256);
    }
  }

  lemma RedirectUriIsWhole(ac: AuthCode, ev: Event)
    requires Granted(ev) && Records(ac, ev)
    ensures Some(ac.redirectUri) == ev.query.redirectUri
  {
    AllowedIsShort(RedirectList(ev).value, ev.query.redirectUri.value);
    ClippedHolds(ac.redirectUri, ev.query.redirectUri.value, 512);
  }

  /** A granted request stores its record under its code. */
  lemma CodeIsStored(crypto: Crypto, s: Store, ev: Event)
    requires Granted(ev)
    ensures ev.code in NextStore(crypto, s, ev).codes && Records(NextStore(crypto, s, ev).codes[ev.code], ev)
  {
    RecordsMeans(NewCode(ev), ev);
  }

  /** How an exchange answers for a code with the record of the request `grant`, used or not. */
  lemma ExchangeAnswers(crypto: Crypto, s: Store, grant: Event, ev: Event, ac: AuthCode)
    requires Granted(grant) && Records(ac, grant) && ev.Exchange? && ev.presented == Some(grant.code)
    requires grant.code in s.codes && s.codes[grant.code] == ac.(used := s.codes[grant.code].used)
    ensures Answered(crypto, s, ev).Issued? <==>
            && !s.codes[grant.code].used
            && ev.now <= grant.now + (if 0 < grant.cfg.codeTtl then grant.cfg.codeTtl else 60 * 1000)
            && ev.redirectUri == grant.query.redirectUri && Verified(crypto, grant.query, ev.verifier)
            && ev.active && ev.issued.Some? && ev.room
    ensures Answered(crypto, s, ev).Issued? ==> Answered(crypto, s, ev) == Issued(grant.user.value.id, ev.issued.value)
  {
    RedirectUriIsWhole(ac, grant);
    VerifiedMeans(crypto, ac, grant, ev.verifier);
  }

  /** A code presented after it was granted is answered with tokens, for the user it was granted to, if and only
      if it has not been spent, is in time, comes with the redirect URI and a verifier for the challenge of the
      request, the user is active, and issuing and answering succeed. */
  lemma CodeIsGoodExactly(crypto: Crypto, run: Run, i: nat, j: nat)
    requires Legal(crypto, run) && i < j < |run| && Granted(run[i]) && run[j].Exchange? && run[j].presented == Some(run[i].code)
    ensures AnswerAt(crypto, run, j).Issued? <==>
            && !Spent(crypto, Before(crypto, run, i + 1), run[i + 1..j], run[i].code)
            && run[j].now <= run[i].now + (if 0 < run[i].cfg.codeTtl then run[i].cfg.codeTtl else 60 * 1000)
            && run[j].redirectUri == run[i].query.redirectUri
            && Verified(crypto, run[i].query, run[j].verifier)
            && run[j].active && run[j].issued.Some? && run[j].room
    ensures AnswerAt(crypto, run, j).Issued? ==> AnswerAt(crypto, run, j) == Issued(run[i].user.value.id, run[j].issued.value)
  {
    var s := Before(crypto, run, i + 1);
    Unroll(crypto, run, i);
    CodeIsStored(crypto, Before(crypto, run, i), run[i]);
    PartOfRun(crypto, run, i + 1, j);
    UsedExactly(crypto, s, run[i + 1..j], run[i].code);
    ExchangeAnswers(crypto, Before(crypto, run, j), run[i], run[j], s.codes[run[i].code]);
  }

  // ------------------------------------------------------------------ what tokens are good for

  /** The event trades a code or a token of that user at that client for the new token `h`. */
  ghost predicate Issues(crypto: Crypto, s: Store, ev: Event, h: string, userId: nat, clientId: string) {
    && !ev.Authorize? && ev.active && ev.issued.Some? && crypto.hash(ev.issued.value) == h
    && (ev.Exchange? ==>
          && ev.presented.Some? && SpendsNow(crypto, s, ev, ev.presented.value)
          && s.codes[ev.presented.value].userId == userId && s.codes[ev.presented.value].clientId == clientId)
    && (ev.Refresh? ==>
          && ev.token.Some? && RotatesNow(crypto, s, ev, crypto.hash(ev.token.value))
          && var rt := s.tokens[crypto.hash(ev.token.value)]; rt.userId == userId && rt.clientId == clientId)
  }

  /** The new token is stored, not revoked, for that user and client, for thirty days. */
  lemma IssuedTokenIsStored(crypto: Crypto, s: Store, ev: Event, h: string, userId: nat, clientId: string)
    requires Fits(s) && Issues(crypto, s, ev, h, userId, clientId)
    ensures h in NextStore(crypto, s, ev).tokens
    ensures NextStore(crypto, s, ev).tokens[h] == RefreshToken(userId, clientId, ev.now, ev.now + 30 * 24 * 60 * 60 * 1000, false)
  {
  }

  /** A token presented after it was issued is answered with new tokens, for its user, if and only if it has
      neither expired nor been taken away, its user is active, and issuing and answering succeed. */
  lemma TokenIsGoodExactly(crypto: Crypto, run: Run, i: nat, j: nat, h: string, userId: nat, clientId: string)
    requires Legal(crypto, run) && i < j < |run| && Issues(crypto, Before(crypto, run, i), run[i], h, userId, clientId)
    requires run[j].Refresh? && run[j].token.Some? && crypto.hash(run[j].token.value) == h
    ensures AnswerAt(crypto, run, j).Issued? <==>
            && run[j].now <= run[i].now + 30 * 24 * 60 * 60 * 1000
            && !Taken(crypto, Before(crypto, run, i + 1), run[i + 1..j], h, userId, clientId)
            && run[j].active && run[j].issued.Some? && run[j].room
    ensures AnswerAt(crypto, run, j).Issued? ==> AnswerAt(crypto, run, j) == Issued(userId, run[j].issued.value)
  {
    Unroll(crypto, run, i);
    RunFits(crypto, run[..i]);
    IssuedTokenIsStored(crypto, Before(crypto, run, i), run[i], h, userId, clientId);
    PartOfRun(crypto, run, i + 1, j);
    RevokedExactly(crypto, Before(crypto, run, i + 1), run[i + 1..j], h);
  }

  // --------------------------------------------------------------- where a chain comes from

  /** Every refresh token is for the user and the client of the authorization request that was granted the code
      its chain started with. */
  lemma {:induction false} TokenBelongsToGrant(crypto: Crypto, run: Run, h: string) returns (i: nat)
    requires Legal(crypto, run) && h in After(crypto, run).tokens
    ensures var r, rt := Root(crypto, run, h), After(crypto, run).tokens[h];
            && i < r && Granted(run[i]) && run[r].presented == Some(run[i].code)
            && rt.userId == run[i].user.value.id && HoldsText(rt.clientId, run[i].query.clientId.value, 64)
    decreases |run|
  {
    var n := |run| - 1;
    var front, ev := run[..n], run[n];
    var s := After(crypto, front);
    LegalFront(crypto, run);
    RunFits(crypto, front);
    if h in s.tokens {
      StepKeeps(crypto, s, ev, h);
      i := TokenBelongsToGrant(crypto, front, h);
    } else if ev.Refresh? {
      i := TokenBelongsToGrant(crypto, front, crypto.hash(ev.token.value));
    } else {
      i := CodeHasOrigin(crypto, run, n, ev.presented.value);
    }
  }

  // ------------------------------------------------------------------------------ refusals

  /** The server has a client of its own, and the request says what it must in a form that can be read. */
  predicate WellAsked(ev: Event)
    requires ev.Authorize?
  {
    && ev.cfg.clientId != "" && ev.query.clientId.Some? && ev.query.redirectUri.Some? && ev.query.responseType.Some?
    && ev.query.challengeMethod in {None, Some("plain"), Some("S256")}
  }

  /** And it comes from a client that may ask, with an address of that client. */
  ghost predicate WellAddressed(ev: Event)
    requires ev.Authorize?
  {
    WellAsked(ev) && exists list :: MayAsk(ev, list) && Allowed(Clipped(list, 512), ev.query.redirectUri.value)
  }

  /** Which answer an authorization request gets, fault by fault. */
  lemma AuthorizeAnswers(crypto: Crypto, s: Store, ev: Event)
    requires ev.Authorize?
    ensures Answered(crypto, s, ev) ==
            if ev.cfg.clientId == "" then Refused(400, "oauth_not_configured")
            else if !WellAsked(ev) then Refused(400, "invalid_request")
            else if !exists list :: MayAsk(ev, list) then Refused(400, "unauthorized_client")
            else if !WellAddressed(ev) then Refused(400, "invalid_redirect_uri")
            else if ev.query.responseType.value != "code" then Refused(400, "unsupported_response_type")
            else if ev.user.None? then Refused(401, "authentication_required")
            else if !ev.user.value.active then Refused(403, "user_inactive")
            else if !ev.room then Refused(500, "Out of memory")
            else Redirected(ev.code)
  {
    if WellAsked(ev) {
      MayAskMeans(ev);
      if RedirectList(ev).Some? {
        assert MayAsk(ev, RedirectList(ev).value);
      } else {
        assert forall list :: !MayAsk(ev, list);
      }
    }
  }

  /** Which answer an exchange gets; all but the first two have spent the code. */
  lemma ExchangeRefusals(crypto: Crypto, s: Store, ev: Event)
    requires ev.Exchange?
    ensures var answer := Answered(crypto, s, ev);
            && (answer == Refused(400, "invalid_request") <==> ev.presented.None? || ev.redirectUri.None?)
            && (answer == Refused(400, "invalid_grant") <==>
                ev.presented.Some? && ev.redirectUri.Some? && !SpendsNow(crypto, s, ev, ev.presented.value))
            && (ev.presented.Some? && SpendsNow(crypto, s, ev, ev.presented.value) ==> TradeEnds(ev.active, ev.issued, ev.room, answer))
  {
  }

  lemma RefreshRefusals(crypto: Crypto, s: Store, ev: Event)
    requires ev.Refresh?
    ensures var answer := Answered(crypto, s, ev);
            && (answer == Refused(400, "invalid_request") <==> ev.token.None?)
            && (answer == Refused(400, "invalid_grant") <==> ev.token.Some? && !LiveAt(s, crypto.hash(ev.token.value), ev.now))
            && (ev.token.Some? && LiveAt(s, crypto.hash(ev.token.value), ev.now) ==> TradeEnds(ev.active, ev.issued, ev.room, answer))
  {
  }

  predicate LiveAt(s: Store, h: string, now: int) {
    h in s.tokens && !s.tokens[h].revoked && now <= s.tokens[h].expiresAt
  }

  /** An accepted code or token is refused for its user first, then for want of tokens, then of memory. */
  predicate TradeEnds(active: bool, issued: Option<string>, room: bool, answer: Answer) {
    && (answer == Refused(403, "user_inactive") <==> !active)
    && (answer == Refused(500, "server_error") <==> active && issued.None?)
    && (answer == Refused(500, "Out of memory") <==> active && issued.Some? && !room)
    && (answer.Issued? <==> active && issued.Some? && room) && (answer.Issued? ==> answer.refreshToken == issued.value)
  }
}
