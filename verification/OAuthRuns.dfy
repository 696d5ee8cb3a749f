/** What holds over every run of the authorization and token endpoints. */
module OAuthRuns {
  import opened Basics
  import opened RedirectUris
  import opened OAuth

  type Run = seq<Event>

  ghost function After(crypto: Crypto, run: Run): Store
    decreases |run|
  {
    if run == [] then Store(map[], map[])
    else NextStore(crypto, After(crypto, run[..|run| - 1]), run[|run| - 1])
  }

  /** The store a step of the run works on. */
  ghost function Before(crypto: Crypto, run: Run, i: nat): Store
    requires i <= |run|
  {
    After(crypto, run[..i])
  }

  ghost function AnswerAt(crypto: Crypto, run: Run, i: nat): Answer
    requires i < |run|
  {
    Answered(crypto, Before(crypto, run, i), run[i])
  }

  /** New codes and the hashes of new tokens have not been stored before. */
  predicate Fresh(crypto: Crypto, s: Store, ev: Event) {
    if ev.Authorize? then ev.code !in s.codes
    else ev.issued.Some? ==> crypto.hash(ev.issued.value) !in s.tokens
  }

  ghost predicate Legal(crypto: Crypto, run: Run) {
    forall i :: 0 <= i < |run| ==> Fresh(crypto, Before(crypto, run, i), run[i])
  }

  // ----------------------------------------------------------------- nothing is undone

  ghost predicate CodeKept(a: Store, b: Store, c: string) {
    c in a.codes ==> c in b.codes && b.codes[c].(used := a.codes[c].used) == a.codes[c] && (a.codes[c].used ==> b.codes[c].used)
  }

  ghost predicate TokenKept(a: Store, b: Store, h: string) {
    h in a.tokens ==>
      h in b.tokens && b.tokens[h].(revoked := a.tokens[h].revoked) == a.tokens[h] && (a.tokens[h].revoked ==> b.tokens[h].revoked)
  }

  lemma StepKeeps(crypto: Crypto, s: Store, ev: Event, x: string)
    requires Fresh(crypto, s, ev)
    ensures CodeKept(s, NextStore(crypto, s, ev), x) && TokenKept(s, NextStore(crypto, s, ev), x)
  {
  }

  lemma Unroll(crypto: Crypto, run: Run, i: nat)
    requires i < |run|
    ensures Before(crypto, run, i + 1) == NextStore(crypto, Before(crypto, run, i), run[i])
  {
    assert run[..i + 1][..i] == run[..i];
  }

  /** Records only ever change by being used up or revoked, and that is never taken back. */
  lemma {:induction false} RunKeeps(crypto: Crypto, run: Run, i: nat, j: nat, x: string)
    requires Legal(crypto, run) && i <= j <= |run|
    ensures CodeKept(Before(crypto, run, i), Before(crypto, run, j), x)
    ensures TokenKept(Before(crypto, run, i), Before(crypto, run, j), x)
    decreases j - i
  {
    if i < j {
      RunKeeps(crypto, run, i, j - 1, x);
      Unroll(crypto, run, j - 1);
      StepKeeps(crypto, Before(crypto, run, j - 1), run[j - 1], x);
    }
  }

  // ------------------------------------------------------------------ authorization codes

  /** Event `i` granted code `c`, and its record is what is stored, used or not. */
  ghost predicate Made(crypto: Crypto, run: Run, i: nat, c: string, ac: AuthCode)
    requires i < |run|
  {
    Granted(run[i]) && run[i].code == c && Records(ac.(used := false), run[i])
  }

  lemma WhereCodesComeFrom(crypto: Crypto, s: Store, ev: Event, c: string)
    requires c in NextStore(crypto, s, ev).codes
    ensures var ac := NextStore(crypto, s, ev).codes[c];
            if Granted(ev) && ev.code == c then ac == NewCode(ev) else c in s.codes && ac.(used := s.codes[c].used) == s.codes[c]
  {
  }

  /** Every stored code was granted by an earlier authorization request. */
  lemma {:induction false} CodeHasOrigin(crypto: Crypto, run: Run, j: nat, c: string) returns (i: nat)
    requires j <= |run| && c in Before(crypto, run, j).codes
    ensures i < j && Made(crypto, run, i, c, Before(crypto, run, j).codes[c])
    decreases j
  {
    if j == 0 {
      assert false;
    } else {
      Unroll(crypto, run, j - 1);
      WhereCodesComeFrom(crypto, Before(crypto, run, j - 1), run[j - 1], c);
      if Granted(run[j - 1]) && run[j - 1].code == c {
        RecordsMeans(NewCode(run[j - 1]), run[j - 1]);
        i := j - 1;
      } else {
        i := CodeHasOrigin(crypto, run, j - 1, c);
      }
    }
  }

  /** The exchange got past its checks; the code is spent, whatever happens afterwards. */
  ghost predicate Spends(crypto: Crypto, run: Run, j: nat, c: string)
    requires j < |run|
  {
    && run[j].Exchange? && run[j].presented == Some(c) && run[j].redirectUri.Some?
    && Redeemable(crypto, Before(crypto, run, j).codes, run[j])
  }

  /** Every token response to a code comes after an authorization request that was granted that code to that
      user, before the code expires, with the redirect URI of that request, which was an entry of the list of
      its client, and with a verifier that answers the challenge of that request if it sent one. */
  lemma CodeResponseWasAuthorized(crypto: Crypto, run: Run, j: nat) returns (i: nat, list: string)
    requires j < |run| && run[j].Exchange? && AnswerAt(crypto, run, j).Issued?
    ensures i < j && Granted(run[i]) && run[j].presented == Some(run[i].code)
    ensures AnswerAt(crypto, run, j).userId == run[i].user.value.id
    ensures run[j].now <= run[i].now + if 0 < run[i].cfg.codeTtl then run[i].cfg.codeTtl else 60 * 1000
    ensures run[j].redirectUri == run[i].query.redirectUri
    ensures MayAsk(run[i], list) && Allowed(Clipped(list, 512), run[j].redirectUri.value)
    ensures var q := run[i].query;
            q.challenge.Some? && q.challenge.value != "" ==>
            && run[j].verifier.Some? && 43 <= |run[j].verifier.value| <= 128
            && HoldsText(if q.challengeMethod == Some("S256") then crypto.s256(run[j].verifier.value) else run[j].verifier.value,
                         q.challenge.value, 256)
  {
    i := CodeHasOrigin(crypto, run, j, run[j].presented.value);
    GrantedMeans(run[i]);
    list := RedirectList(run[i]).value;
    AllowedIsShort(list, run[i].query.redirectUri.value);
    ClippedHolds(Before(crypto, run, j).codes[run[i].code].redirectUri, run[i].query.redirectUri.value, 512);
  }

  /** An allowed URI fits the record of the code whole. */
  lemma AllowedIsShort(list: string, uri: string)
    requires Allowed(Clipped(list, COPY_SIZE), uri)
    ensures Clipped(uri, REDIRECT_URI_SIZE) == uri
  {
    var s := Clipped(list, COPY_SIZE);
    var i, j :| IsField(s, i, j) && i < j && Trim(s[i..j]) == uri;
    var a, b := TrimMeans(s[i..j]);
  }

  /** Each code is spent at most once. */
  lemma CodeIsSpentOnce(crypto: Crypto, run: Run, i: nat, j: nat, c: string)
    requires Legal(crypto, run) && i < j < |run| && Spends(crypto, run, i, c)
    ensures !Spends(crypto, run, j, c)
  {
    Unroll(crypto, run, i);
    RunKeeps(crypto, run, i + 1, j, c);
  }

  /** So each code yields at most one token response. */
  lemma OneResponsePerCode(crypto: Crypto, run: Run, i: nat, j: nat)
    requires Legal(crypto, run) && i < |run| && j < |run|
    requires run[i].Exchange? && run[j].Exchange? && run[i].presented == run[j].presented
    requires AnswerAt(crypto, run, i).Issued? && AnswerAt(crypto, run, j).Issued?
    ensures i == j
  {
    var c := run[i].presented.value;
    assert Spends(crypto, run, i, c) && Spends(crypto, run, j, c);
    if i < j {
      CodeIsSpentOnce(crypto, run, i, j, c);
    } else if j < i {
      CodeIsSpentOnce(crypto, run, j, i, c);
    }
  }

  // --------------------------------------------------------------------- refresh tokens

  /** The refresh with this token stored a successor for it. */
  ghost predicate Rotates(crypto: Crypto, run: Run, i: nat, h: string)
    requires i < |run|
  {
    && run[i].Refresh? && run[i].token.Some? && crypto.hash(run[i].token.value) == h
    && Usable(crypto, Before(crypto, run, i).tokens, run[i].token.value, run[i].now)
    && run[i].active && run[i].issued.Some?
  }

  /** Each refresh token is redeemed at most once. */
  lemma TokenRotatesOnce(crypto: Crypto, run: Run, i: nat, j: nat, h: string)
    requires Legal(crypto, run) && i < j < |run| && Rotates(crypto, run, i, h)
    ensures !Rotates(crypto, run, j, h)
  {
    Unroll(crypto, run, i);
    RunKeeps(crypto, run, i + 1, j, h);
  }

  lemma OneResponsePerToken(crypto: Crypto, run: Run, i: nat, j: nat)
    requires Legal(crypto, run) && i < |run| && j < |run|
    requires run[i].Refresh? && run[j].Refresh? && run[i].token.Some? && run[j].token.Some?
    requires crypto.hash(run[i].token.value) == crypto.hash(run[j].token.value)
    requires AnswerAt(crypto, run, i).Issued? && AnswerAt(crypto, run, j).Issued?
    ensures i == j
  {
    var h := crypto.hash(run[i].token.value);
    assert Rotates(crypto, run, i, h) && Rotates(crypto, run, j, h);
    if i < j {
      TokenRotatesOnce(crypto, run, i, j, h);
    } else if j < i {
      TokenRotatesOnce(crypto, run, j, i, h);
    }
  }

  /** Event `i` stored the token `h`, and its dates are those of that event. */
  ghost predicate StoredBy(crypto: Crypto, run: Run, i: nat, h: string, rt: RefreshToken)
    requires i < |run|
  {
    && !run[i].Authorize? && run[i].issued.Some? && crypto.hash(run[i].issued.value) == h
    && rt.issuedAt == run[i].now && rt.expiresAt == run[i].now + REFRESH_TTL
  }

  lemma WhereTokensComeFrom(crypto: Crypto, s: Store, ev: Event, h: string)
    requires h in NextStore(crypto, s, ev).tokens && h !in s.tokens
    ensures !ev.Authorize? && ev.issued.Some? && crypto.hash(ev.issued.value) == h
    ensures var rt := NextStore(crypto, s, ev).tokens[h]; rt.issuedAt == ev.now && rt.expiresAt == ev.now + REFRESH_TTL
  {
  }

  /** Every stored token was stored by an earlier code exchange or refresh. */
  lemma {:induction false} TokenHasOrigin(crypto: Crypto, run: Run, j: nat, h: string) returns (i: nat)
    requires Legal(crypto, run) && j <= |run| && h in Before(crypto, run, j).tokens
    ensures i < j && StoredBy(crypto, run, i, h, Before(crypto, run, j).tokens[h])
    decreases j
  {
    if j == 0 {
      assert false;
    } else {
      Unroll(crypto, run, j - 1);
      if h in Before(crypto, run, j - 1).tokens {
        StepKeeps(crypto, Before(crypto, run, j - 1), run[j - 1], h);
        i := TokenHasOrigin(crypto, run, j - 1, h);
      } else {
        WhereTokensComeFrom(crypto, Before(crypto, run, j - 1), run[j - 1], h);
        i := j - 1;
      }
    }
  }

  /** A refresh token is answered with tokens only within thirty days of the step that issued it. */
  lemma RefreshResponseIsInTime(crypto: Crypto, run: Run, j: nat) returns (i: nat)
    requires Legal(crypto, run) && j < |run| && run[j].Refresh? && AnswerAt(crypto, run, j).Issued?
    ensures i < j && !run[i].Authorize? && run[i].issued.Some?
    ensures crypto.hash(run[i].issued.value) == crypto.hash(run[j].token.value)
    ensures run[j].now <= run[i].now + REFRESH_TTL
  {
    i := TokenHasOrigin(crypto, run, j, crypto.hash(run[j].token.value));
  }

  /** Presenting a revoked token again leaves every token its user then has at its client unredeemable for
      good, section 10.4 of RFC 6749. */
  lemma ReplayEndsFamily(crypto: Crypto, run: Run, i: nat, j: nat, h: string)
    requires Legal(crypto, run) && i < j < |run|
    requires run[i].Refresh? && run[i].token.Some? && run[j].Refresh? && run[j].token.Some?
    requires var s := Before(crypto, run, i);
             var replayed := crypto.hash(run[i].token.value);
             && replayed in s.tokens && s.tokens[replayed].revoked
             && h in s.tokens && s.tokens[h].userId == s.tokens[replayed].userId
             && s.tokens[h].clientId == s.tokens[replayed].clientId
    requires crypto.hash(run[j].token.value) == h
    ensures AnswerAt(crypto, run, j) == Refused(400, "invalid_grant")
  {
    Unroll(crypto, run, i);
    RunKeeps(crypto, run, i + 1, j, h);
  }

  // ------------------------------------------------------------------------- chains

  /** The code exchange that a token descends from. */
  ghost function Root(crypto: Crypto, run: Run, h: string): (r: nat)
    requires h in After(crypto, run).tokens
    ensures r < |run| && run[r].Exchange?
    decreases |run|
  {
    var front := run[..|run| - 1];
    var ev := run[|run| - 1];
    if h in After(crypto, front).tokens then Root(crypto, front, h)
    else if ev.Refresh? then Root(crypto, front, crypto.hash(ev.token.value))
    else |run| - 1
  }

  /** In each chain that a code exchange starts, at most one token is not revoked. */
  lemma {:induction false} OneLiveTokenPerChain(crypto: Crypto, run: Run, g: string, h: string)
    requires Legal(crypto, run)
    requires g in After(crypto, run).tokens && h in After(crypto, run).tokens
    requires !After(crypto, run).tokens[g].revoked && !After(crypto, run).tokens[h].revoked
    requires Root(crypto, run, g) == Root(crypto, run, h)
    ensures g == h
    decreases |run|
  {
    var front := run[..|run| - 1];
    var ev := run[|run| - 1];
    var s := After(crypto, front);
    LegalFront(crypto, run);
    StepKeeps(crypto, s, ev, g);
    StepKeeps(crypto, s, ev, h);
    if g in s.tokens && h in s.tokens {
      OneLiveTokenPerChain(crypto, front, g, h);
    } else if g in s.tokens || h in s.tokens {
      var elder := if g in s.tokens then g else h;
      if ev.Refresh? {
        OneLiveTokenPerChain(crypto, front, elder, crypto.hash(ev.token.value));
      }
    }
  }

  lemma LegalFront(crypto: Crypto, run: Run)
    requires Legal(crypto, run) && run != []
    ensures Legal(crypto, run[..|run| - 1]) && Fresh(crypto, After(crypto, run[..|run| - 1]), run[|run| - 1])
  {
    var n := |run| - 1;
    forall i | 0 <= i < n ensures Fresh(crypto, Before(crypto, run[..n], i), run[..n][i]) {
      assert run[..n][..i] == run[..i];
      assert Fresh(crypto, Before(crypto, run, i), run[i]);
    }
    assert Fresh(crypto, Before(crypto, run, n), run[n]);
  }

  // -------------------------------------------------------------------- counting a family

  predicate LiveFor(rt: RefreshToken, userId: nat, clientId: string) {
    rt.userId == userId && rt.clientId == clientId && !rt.revoked
  }

  ghost function LiveIn<K>(tokens: map<K, RefreshToken>, userId: nat, clientId: string): set<K> {
    set h | h in tokens && LiveFor(tokens[h], userId, clientId)
  }

  ghost function Live(s: Store, userId: nat, clientId: string): set<string> {
    LiveIn(s.tokens, userId, clientId)
  }

  /** Client ids in the store fit their field, so they are stored again unchanged. */
  ghost predicate Fits(s: Store) {
    && (forall c :: c in s.codes ==> |s.codes[c].clientId| < CLIENT_ID_SIZE)
    && (forall h :: h in s.tokens ==> |s.tokens[h].clientId| < CLIENT_ID_SIZE)
  }

  lemma StepFits(crypto: Crypto, s: Store, ev: Event)
    requires Fits(s)
    ensures Fits(NextStore(crypto, s, ev))
  {
  }

  lemma {:induction false} RunFits(crypto: Crypto, run: Run)
    ensures Fits(After(crypto, run))
    decreases |run|
  {
    if run != [] {
      RunFits(crypto, run[..|run| - 1]);
      StepFits(crypto, After(crypto, run[..|run| - 1]), run[|run| - 1]);
    }
  }

  /** A refresh that stores a successor leaves every family with as many live tokens as before. */
  lemma RefreshKeepsCount(crypto: Crypto, run: Run, i: nat, h: string, userId: nat, clientId: string)
    requires Legal(crypto, run) && i < |run| && Rotates(crypto, run, i, h)
    ensures |Live(Before(crypto, run, i + 1), userId, clientId)| == |Live(Before(crypto, run, i), userId, clientId)|
  {
    var s := Before(crypto, run, i);
    Unroll(crypto, run, i);
    RunFits(crypto, run[..i]);
    assert Fresh(crypto, s, run[i]);
    var next := NewToken(s.tokens[h].userId, s.tokens[h].clientId, run[i].now);
    SuccessorTakesOver(s.tokens, h, crypto.hash(run[i].issued.value), next, userId, clientId);
  }

  lemma SuccessorTakesOver<K>(tokens: map<K, RefreshToken>, h: K, g: K, next: RefreshToken, userId: nat, clientId: string)
    requires h in tokens && !tokens[h].revoked && g !in tokens && !next.revoked
    requires next.userId == tokens[h].userId && next.clientId == tokens[h].clientId
    ensures |LiveIn(tokens[h := tokens[h].(revoked := true)][g := next], userId, clientId)| == |LiveIn(tokens, userId, clientId)|
  {
    var live := LiveIn(tokens, userId, clientId);
    var later := LiveIn(tokens[h := tokens[h].(revoked := true)][g := next], userId, clientId);
    if LiveFor(next, userId, clientId) {
      assert h in live && g !in live;
      assert later == live - {h} + {g};
    } else {
      assert later == live;
    }
  }

  lemma NewcomerCounts<K>(tokens: map<K, RefreshToken>, g: K, next: RefreshToken, userId: nat, clientId: string)
    requires g !in tokens
    ensures |LiveIn(tokens[g := next], userId, clientId)|
         == |LiveIn(tokens, userId, clientId)| + if LiveFor(next, userId, clientId) then 1 else 0
  {
    var live := LiveIn(tokens, userId, clientId);
    var later := LiveIn(tokens[g := next], userId, clientId);
    assert later == if LiveFor(next, userId, clientId) then live + {g} else live;
  }

  lemma {:induction false} SubsetIsSmaller<K>(a: set<K>, b: set<K>)
    requires a <= b
    ensures |a| <= |b|
  {
    assert b == a + (b - a);
  }

  /** How often a code exchange stored a token for the family. */
  ghost function Started(crypto: Crypto, run: Run, userId: nat, clientId: string): nat
    decreases |run|
  {
    if run == [] then 0
    else Started(crypto, run[..|run| - 1], userId, clientId)
         + if Starts(crypto, After(crypto, run[..|run| - 1]), run[|run| - 1], userId, clientId) then 1 else 0
  }

  ghost predicate Starts(crypto: Crypto, s: Store, ev: Event, userId: nat, clientId: string) {
    && ev.Exchange? && ev.presented.Some? && ev.redirectUri.Some? && Redeemable(crypto, s.codes, ev)
    && ev.active && ev.issued.Some?
    && s.codes[ev.presented.value].userId == userId && s.codes[ev.presented.value].clientId == clientId
  }

  /** No step makes a live token out of nothing: a family gains one with a code exchange of its own only. */
  lemma StepCount(crypto: Crypto, s: Store, ev: Event, userId: nat, clientId: string)
    requires Fresh(crypto, s, ev) && Fits(s)
    ensures |Live(NextStore(crypto, s, ev), userId, clientId)|
         <= |Live(s, userId, clientId)| + if Starts(crypto, s, ev, userId, clientId) then 1 else 0
  {
    var t := NextStore(crypto, s, ev);
    match ev {
      case Authorize(_, _, _, _, _, _, _) =>
      case Exchange(presented, _, _, now, _, issued, _) =>
        if t.tokens != s.tokens {
          var ac := s.codes[presented.value];
          NewcomerCounts(s.tokens, crypto.hash(issued.value), NewToken(ac.userId, ac.clientId, now), userId, clientId);
        }
      case Refresh(token, now, active, issued, _) =>
        if token.Some? && crypto.hash(token.value) in s.tokens {
          var h := crypto.hash(token.value);
          if s.tokens[h].revoked {
            SubsetIsSmaller(Live(t, userId, clientId), Live(s, userId, clientId));
          } else if Usable(crypto, s.tokens, token.value, now) && active && issued.Some? {
            var next := NewToken(s.tokens[h].userId, s.tokens[h].clientId, now);
            SuccessorTakesOver(s.tokens, h, crypto.hash(issued.value), next, userId, clientId);
          }
        }
    }
  }

  /** A user never has more live tokens at a client than code exchanges there. */
  lemma {:induction false} LiveTokensAreEarned(crypto: Crypto, run: Run, userId: nat, clientId: string)
    requires Legal(crypto, run)
    ensures |Live(After(crypto, run), userId, clientId)| <= Started(crypto, run, userId, clientId)
    decreases |run|
  {
    if run == [] {
      assert Live(After(crypto, run), userId, clientId) == {};
    } else {
      LegalFront(crypto, run);
      LiveTokensAreEarned(crypto, run[..|run| - 1], userId, clientId);
      RunFits(crypto, run[..|run| - 1]);
      StepCount(crypto, After(crypto, run[..|run| - 1]), run[|run| - 1], userId, clientId);
    }
  }
}
