/** Tokens over whole runs of login, refresh and logout. A JWT is an ideal, unforgeable record:
    the signing itself is outside the model. */
module Sessions {
  import opened Results
  import opened Accounts
  import opened Answers

  const SECOND := 1_000_000_000
  const DAY := 24 * 3600 * SECOND
  const REFRESH_LIFE := 14 * DAY

  datatype Jwt = Jwt(id: string, user: string, role: string, expires: int)
  datatype RefreshToken = RefreshToken(token: string, username: string, expires: int)

  // A JWT carries its expiry as a NumericDate, in whole seconds.
  function NumericDate(t: int): int { t - t % SECOND }

  function MintJwt(id: string, a: Account, now: int): Jwt {
    Jwt(id, a.username, a.role, NumericDate(now + DAY))
  }

  function MintRefresh(token: string, username: string, now: int): RefreshToken {
    RefreshToken(token, username, now + REFRESH_LIFE)
  }

  datatype Session = Session(users: Users, store: map<string, RefreshToken>, minted: set<Jwt>)

  // A handler's clock readings: `at` for its check, `mint` when it makes the JWT, `issue` when it
  // makes the refresh token. `id` and `refresh` are the random strings it draws.
  datatype Event =
    | Login(user: string, password: string, code: string, at: Readings, mint: int, issue: int, id: string, refresh: string)
    | Refresh(token: string, now: int, mint: int, id: string)
    | Logout(now: int)
    | Manage(call: Call)

  function LoginEffect(env: Env, s: Session, e: Event): Effect
    requires e.Login?
  {
    Apply(env, s.users, Authenticate(e.user, e.password, e.code, e.at))
  }

  predicate LoginSucceeds(env: Env, s: Session, e: Event) {
    e.Login? && e.user != "" && e.password != "" && LoginEffect(env, s, e).reply.LoggedIn?
  }

  predicate RefreshSucceeds(s: Session, e: Event) {
    e.Refresh? && e.token in s.store && e.now <= s.store[e.token].expires && s.store[e.token].username in s.users
  }

  // ParseJWT: one of ours, and strictly before its expiry (section 4.1.4 of RFC 7519).
  predicate Accepts(s: Session, j: Jwt, now: int) {
    j in s.minted && now < j.expires
  }

  function Step(env: Env, s: Session, e: Event): Session {
    match e
    case Login(user, password, code, at, mint, issue, id, refresh) =>
      if user == "" || password == "" then s
      else
        var effect := LoginEffect(env, s, e);
        if !effect.reply.LoggedIn? then s.(users := effect.users)
        else
          var a := effect.reply.account;
          Session(effect.users, s.store[refresh := MintRefresh(refresh, a.username, issue)], s.minted + {MintJwt(id, a, mint)})
    case Refresh(token, now, mint, id) =>
      if !RefreshSucceeds(s, e) then s
      else s.(minted := s.minted + {MintJwt(id, s.users[s.store[token].username], mint)})
    case Logout(_) => s.(store := map[])
    case Manage(call) => s.(users := Apply(env, s.users, call).users)
  }

  // What a login does, by the account it leaves.
  lemma LoginStep(env: Env, s: Session, e: Event)
    requires e.Login? && e.user != "" && e.password != "" && Keyed(s.users)
    ensures var effect := LoginEffect(env, s, e);
      && (!effect.reply.LoggedIn? ==> Step(env, s, e) == Session(effect.users, s.store, s.minted))
      && (effect.reply.LoggedIn? ==>
            && e.user in effect.users && effect.reply.account == effect.users[e.user]
            && effect.reply.account.username == e.user
            && Step(env, s, e) == Session(effect.users, s.store[e.refresh := MintRefresh(e.refresh, e.user, e.issue)],
                                          s.minted + {MintJwt(e.id, effect.reply.account, e.mint)}))
  {}

  lemma MintedIsAccepted(s: Session, id: string, a: Account, mint: int)
    requires MintJwt(id, a, mint) in s.minted
    ensures Accepts(s, MintJwt(id, a, mint), mint)
  {}

  // The session after a run; the last event is applied last.
  function After(env: Env, s: Session, run: seq<Event>): Session {
    if run == [] then s else Step(env, After(env, s, run[..|run| - 1]), run[|run| - 1])
  }

  // The session before event i of a run.
  function Before(env: Env, s: Session, run: seq<Event>, i: nat): Session
    requires i <= |run|
  {
    After(env, s, run[..i])
  }

  // A login at the handler succeeds exactly when name and password are given and everything
  // Authenticate asks for is right.
  lemma LoginSucceedsIff(env: Env, s: Session, e: Event)
    requires e.Login?
    ensures LoginSucceeds(env, s, e) <==>
      && e.user != "" && e.password != ""
      && RightAttempt(env, s.users, Authenticate(e.user, e.password, e.code, e.at))
  {
    AuthenticateAnswers(env, s.users, Authenticate(e.user, e.password, e.code, e.at));
  }

  // The Manager calls a run makes.
  function Calls(run: seq<Event>): seq<Call> {
    if run == [] then []
    else
      Calls(run[..|run| - 1])
      + match run[|run| - 1]
        case Login(user, password, code, at, _, _, _, _) =>
          if user == "" || password == "" then [] else [Authenticate(user, password, code, at)]
        case Manage(call) => [call]
        case _ => []
  }

  // The accounts of a session are those of its Manager calls alone, so what holds over runs of
  // calls, the lockout bound above all, holds over sessions.
  lemma {:induction false} AccountsAreRuns(env: Env, s: Session, run: seq<Event>)
    ensures After(env, s, run).users == Run(env, s.users, Calls(run))
  {
    if run != [] {
      var init, e := run[..|run| - 1], run[|run| - 1];
      AccountsAreRuns(env, s, init);
      var calls := if e.Login? && e.user != "" && e.password != "" then [Authenticate(e.user, e.password, e.code, e.at)]
                   else if e.Manage? then [e.call] else [];
      RunConcat(env, s.users, Calls(init), calls);
      if calls == [] {
        assert Calls(init) + [] == Calls(init);
      } else {
        assert calls[1..] == [];
      }
    }
  }

  // ------------------------------------------------------------------ the clock

  ghost predicate Timely(e: Event, from: int) {
    match e
    case Login(_, _, _, at, mint, issue, _, _) => from <= at.check <= at.verify <= at.stamp <= mint <= issue
    case Refresh(_, now, mint, _) => from <= now <= mint
    case Logout(now) => from <= now
    case Manage(call) => Accounts.Timely(call, from)
  }

  function Clock(e: Event, from: int): int {
    match e
    case Login(_, _, _, _, _, issue, _, _) => issue
    case Refresh(_, _, mint, _) => mint
    case Logout(now) => now
    case Manage(call) => Accounts.Clock(call, from)
  }

  function LastReading(run: seq<Event>, from: int): int {
    if run == [] then from else Clock(run[|run| - 1], LastReading(run[..|run| - 1], from))
  }

  ghost predicate Ordered(run: seq<Event>, from: int) {
    run == [] ||
    (Ordered(run[..|run| - 1], from) && Timely(run[|run| - 1], LastReading(run[..|run| - 1], from)))
  }

  // ------------------------------------------------------------------ invariants

  // No minted token outlives its minting by more than a day.
  ghost predicate ExpiresWithin(s: Session, clock: int) {
    forall j <- s.minted :: j.expires <= clock + DAY
  }

  lemma {:induction false} MintedExpireSoon(env: Env, s: Session, run: seq<Event>, from: int)
    requires ExpiresWithin(s, from) && Ordered(run, from)
    ensures ExpiresWithin(After(env, s, run), LastReading(run, from))
  {
    if run != [] {
      var init := run[..|run| - 1];
      MintedExpireSoon(env, s, init, from);
      StepClock(run[|run| - 1], LastReading(init, from));
    }
  }

  lemma StepClock(e: Event, from: int)
    requires Timely(e, from)
    ensures from <= Clock(e, from)
  {}

  ghost predicate NoLoginSucceeds(env: Env, s: Session, run: seq<Event>) {
    forall i :: 0 <= i < |run| ==> !LoginSucceeds(env, Before(env, s, run, i), run[i])
  }

  lemma {:induction false} StoreStaysEmpty(env: Env, s: Session, run: seq<Event>)
    requires s.store == map[] && NoLoginSucceeds(env, s, run)
    ensures After(env, s, run).store == map[] && After(env, s, run).minted == s.minted
  {
    if run != [] {
      var init := run[..|run| - 1];
      forall i | 0 <= i < |init| ensures !LoginSucceeds(env, Before(env, s, init, i), init[i]) {
        assert init[..i] == run[..i];
        assert !LoginSucceeds(env, Before(env, s, run, i), run[i]);
      }
      StoreStaysEmpty(env, s, init);
      assert !LoginSucceeds(env, Before(env, s, run, |run| - 1), run[|run| - 1]);
    }
  }

  // ------------------------------------------------------------------ logout is final

  // In any run, if a logout happens and no login succeeds after it, every later refresh fails,
  // whatever came before.
  lemma LogoutEndsRefresh(env: Env, s: Session, before: seq<Event>, t: int, after: seq<Event>, i: nat)
    requires NoLoginSucceeds(env, After(env, s, before + [Logout(t)]), after) && i < |after|
    ensures var out := After(env, s, before + [Logout(t)]);
      !RefreshSucceeds(Before(env, out, after, i), after[i])
  {
    assert (before + [Logout(t)])[..|before|] == before;
    EmptyStoreRefuses(env, After(env, s, before + [Logout(t)]), after, i);
  }

  // In any such run with the logout at `t` no token is minted any more, and no token is accepted
  // at `t` plus a day or later, for any user.
  lemma LogoutIsFinal(env: Env, s: Session, before: seq<Event>, t: int, after: seq<Event>, from: int, j: Jwt, now: int)
    requires ExpiresWithin(s, from) && Ordered(before + [Logout(t)], from)
    requires NoLoginSucceeds(env, After(env, s, before + [Logout(t)]), after)
    requires now >= t + 24 * 3600 * 1_000_000_000
    ensures var out := After(env, s, before + [Logout(t)]);
      && After(env, out, after).minted == out.minted
      && !Accepts(After(env, out, after), j, now)
  {
    var run := before + [Logout(t)];
    assert run[..|run| - 1] == before;
    MintedExpireSoon(env, s, run, from);
    StoreStaysEmpty(env, After(env, s, run), after);
  }

  lemma EmptyStoreRefuses(env: Env, s: Session, run: seq<Event>, i: nat)
    requires s.store == map[] && NoLoginSucceeds(env, s, run) && i < |run|
    ensures !RefreshSucceeds(Before(env, s, run, i), run[i])
  {
    forall k | 0 <= k < i ensures !LoginSucceeds(env, Before(env, s, run[..i], k), run[..i][k]) {
      assert run[..i][..k] == run[..k];
      assert !LoginSucceeds(env, Before(env, s, run, k), run[k]);
    }
    StoreStaysEmpty(env, s, run[..i]);
  }

  // The condition is needed: one login that succeeds after the logout, with no further logout,
  // leaves its refresh token good until it expires.
  lemma {:induction false} LoginRevives(env: Env, s: Session, login: Event, after: seq<Event>)
    requires Keyed(s.users) && LoginSucceeds(env, s, login)
    requires forall e <- after :: !e.Logout? && !(e.Login? && e.refresh == login.refresh)
    ensures var end := After(env, Step(env, s, login), after);
      && login.refresh in end.store
      && end.store[login.refresh] == MintRefresh(login.refresh, login.user, login.issue)
      && forall now, mint, id :: now <= login.issue + 14 * 24 * 3600 * 1_000_000_000 ==>
           RefreshSucceeds(end, Refresh(login.refresh, now, mint, id))
    decreases after
  {
    if after != [] {
      LoginRevives(env, s, login, after[..|after| - 1]);
      var prior := After(env, Step(env, s, login), after[..|after| - 1]);
      assert after[|after| - 1] in after;
      StepGrows(env, prior, after[|after| - 1]);
    }
  }

  // ------------------------------------------------------------------ accepted until it expires

  lemma {:induction false} AfterConcat(env: Env, s: Session, a: seq<Event>, b: seq<Event>)
    ensures After(env, s, a + b) == After(env, After(env, s, a), b)
    decreases b
  {
    if b == [] {
      assert a + b == a;
    } else {
      assert (a + b)[..|a + b| - 1] == a + b[..|b| - 1];
      AfterConcat(env, s, a, b[..|b| - 1]);
    }
  }

  lemma {:induction false} MintedStays(env: Env, s: Session, run: seq<Event>)
    ensures s.minted <= After(env, s, run).minted
  {
    if run != [] { MintedStays(env, s, run[..|run| - 1]); }
  }

  // The event gives `user` a JWT: a login of theirs, or a refresh with their token.
  ghost predicate Gives(env: Env, s: Session, e: Event, user: string) {
    || (LoginSucceeds(env, s, e) && e.user == user)
    || (RefreshSucceeds(s, e) && s.store[e.token].username == user)
  }

  lemma GivenToken(env: Env, s: Session, e: Event, user: string) returns (j: Jwt)
    requires Keyed(s.users) && Gives(env, s, e, user)
    ensures j in Step(env, s, e).minted && j.user == user && j.id == e.id && j.expires == NumericDate(e.mint + DAY)
    ensures user in Step(env, s, e).users && j.role == Step(env, s, e).users[user].role
  {
    if e.Login? {
      LoginStep(env, s, e);
      j := MintJwt(e.id, LoginEffect(env, s, e).reply.account, e.mint);
    } else {
      j := MintJwt(e.id, s.users[user], e.mint);
    }
  }

  // A JWT made by a login or a refresh is accepted, whatever happens afterwards and logouts
  // included, until the whole second of 24 hours after its minting, and refused from then on.
  lemma AcceptedForADay(env: Env, s: Session, before: seq<Event>, e: Event, after: seq<Event>, user: string)
    returns (j: Jwt)
    requires Keyed(s.users) && Gives(env, After(env, s, before), e, user)
    ensures j.user == user && j.id == e.id
    ensures user in After(env, s, before + [e]).users && j.role == After(env, s, before + [e]).users[user].role
    ensures var end := After(env, s, before + [e] + after);
      && (forall now :: now + 1_000_000_000 <= e.mint + 24 * 3600 * 1_000_000_000 ==> Accepts(end, j, now))
      && (forall now :: now >= e.mint + 24 * 3600 * 1_000_000_000 ==> !Accepts(end, j, now))
  {
    var prior := After(env, s, before);
    UsersGrow(env, s, before);
    j := GivenToken(env, prior, e, user);
    assert (before + [e])[..|before|] == before;
    assert After(env, s, before + [e]) == Step(env, prior, e);
    AfterConcat(env, s, before + [e], after);
    MintedStays(env, Step(env, prior, e), after);
  }

  // No event removes an account or changes its role.
  lemma StepGrows(env: Env, s: Session, e: Event)
    ensures Grows(s.users, Step(env, s, e).users)
    ensures Keyed(s.users) ==> Keyed(Step(env, s, e).users)
  {
    match e
    case Login(user, password, code, at, _, _, _, _) => StepKeeps(env, s.users, Authenticate(user, password, code, at));
    case Manage(call) => StepKeeps(env, s.users, call);
    case _ =>
  }

  lemma {:induction false} UsersGrow(env: Env, s: Session, run: seq<Event>)
    ensures Grows(s.users, After(env, s, run).users)
    ensures Keyed(s.users) ==> Keyed(After(env, s, run).users)
  {
    if run != [] {
      UsersGrow(env, s, run[..|run| - 1]);
      StepGrows(env, After(env, s, run[..|run| - 1]), run[|run| - 1]);
    }
  }

  // ------------------------------------------------------------------ lineage

  // Event i of the run is a login of `user` that succeeds.
  ghost predicate LoginAt(env: Env, s: Session, run: seq<Event>, i: int, user: string) {
    0 <= i < |run| && run[i].Login? && run[i].user == user && LoginSucceeds(env, Before(env, s, run, i), run[i])
  }

  // Login i issued the refresh token r: it drew r's string, for r's user, with r's expiry.
  ghost predicate IssuedAt(env: Env, s: Session, run: seq<Event>, i: int, r: RefreshToken) {
    LoginAt(env, s, run, i, r.username) && r == MintRefresh(run[i].refresh, run[i].user, run[i].issue)
  }

  // Event k is a refresh that succeeds, with the token that login i issued.
  ghost predicate RefreshedAt(env: Env, s: Session, run: seq<Event>, i: int, k: int) {
    && 0 <= i < k < |run| && run[i].Login? && run[k].Refresh?
    && run[k].token == run[i].refresh
    && RefreshSucceeds(Before(env, s, run, k), run[k])
    && Before(env, s, run, k).store[run[k].token] == MintRefresh(run[i].refresh, run[i].user, run[i].issue)
  }

  // Token j was made by login i itself (k == i), or by refresh k with the token of login i.
  ghost predicate MadeAt(env: Env, s: Session, run: seq<Event>, i: int, k: int, j: Jwt) {
    && LoginAt(env, s, run, i, j.user)
    && (k == i || RefreshedAt(env, s, run, i, k))
    && j.id == run[k].id && j.expires == NumericDate(run[k].mint + DAY)
  }

  lemma PrefixKeeps(env: Env, s: Session, run: seq<Event>, i: int, k: int, r: RefreshToken, j: Jwt)
    requires run != []
    ensures var init := run[..|run| - 1];
      && (IssuedAt(env, s, init, i, r) ==> IssuedAt(env, s, run, i, r))
      && (MadeAt(env, s, init, i, k, j) ==> MadeAt(env, s, run, i, k, j))
  {
    var init := run[..|run| - 1];
    if 0 <= i < |init| { assert init[..i] == run[..i]; }
    if 0 <= k < |init| { assert init[..k] == run[..k]; }
  }

  lemma {:induction false} StoredCameFromLogin(env: Env, s: Session, run: seq<Event>, token: string) returns (i: int)
    requires Keyed(s.users) && s.store == map[] && token in After(env, s, run).store
    ensures IssuedAt(env, s, run, i, After(env, s, run).store[token]) && run[i].refresh == token
    ensures After(env, s, run).store[token].expires == run[i].issue + 14 * 24 * 3600 * 1_000_000_000
  {
    var init, e := run[..|run| - 1], run[|run| - 1];
    var prior := After(env, s, init);
    UsersGrow(env, s, init);
    if LoginSucceeds(env, prior, e) && e.refresh == token {
      i := |run| - 1;
      assert run[..i] == init;
    } else {
      i := StoredCameFromLogin(env, s, init, token);
      PrefixKeeps(env, s, run, i, i, prior.store[token], Jwt("", "", "", 0));
    }
  }

  lemma {:induction false} MintedCameFromLogin(env: Env, s: Session, run: seq<Event>, j: Jwt) returns (i: int, k: int)
    requires Keyed(s.users) && s.store == map[] && s.minted == {} && j in After(env, s, run).minted
    ensures MadeAt(env, s, run, i, k, j)
    ensures j.user in After(env, s, run).users && After(env, s, run).users[j.user].role == j.role
  {
    var init, e := run[..|run| - 1], run[|run| - 1];
    var prior := After(env, s, init);
    UsersGrow(env, s, init);
    StepGrows(env, prior, e);
    if j in prior.minted {
      i, k := MintedCameFromLogin(env, s, init, j);
      PrefixKeeps(env, s, run, i, k, RefreshToken("", "", 0), j);
    } else if e.Login? {
      i, k := |run| - 1, |run| - 1;
      assert run[..i] == init;
    } else {
      i := StoredCameFromLogin(env, s, init, e.token);
      k := |run| - 1;
      PrefixKeeps(env, s, run, i, k, prior.store[e.token], j);
      assert run[..k] == init;
    }
  }

  // Every token accepted at `now` descends from a login of its user, carries the role that user
  // still has, and that login is less than 14 days and 24 hours old, not counting the time the
  // refresh handler itself took between its check and its minting.
  lemma AcceptedTokensDescend(env: Env, s: Session, run: seq<Event>, j: Jwt, now: int, from: int) returns (i: int, k: int)
    requires Keyed(s.users) && s.store == map[] && s.minted == {} && Ordered(run, from)
    requires Accepts(After(env, s, run), j, now)
    ensures MadeAt(env, s, run, i, k, j)
    ensures j.user in After(env, s, run).users && After(env, s, run).users[j.user].role == j.role
    ensures k == i ==> now < run[i].mint + 24 * 3600 * 1_000_000_000
    ensures k > i ==> now < run[i].issue + (14 + 1) * 24 * 3600 * 1_000_000_000 + (run[k].mint - run[k].now)
  {
    i, k := MintedCameFromLogin(env, s, run, j);
  }

  // ------------------------------------------------------------------ the store is its history

  // The refresh token a run has left for a string: that of the last login that drew it, unless a
  // logout followed.
  function LastIssued(env: Env, s: Session, run: seq<Event>, token: string): Option<RefreshToken> {
    if run == [] then None
    else
      var init, e := run[..|run| - 1], run[|run| - 1];
      if e.Logout? then None
      else if e.Login? && e.refresh == token && LoginSucceeds(env, After(env, s, init), e)
      then Some(MintRefresh(token, e.user, e.issue))
      else LastIssued(env, s, init, token)
  }

  lemma StoreStep(env: Env, s: Session, e: Event, token: string)
    requires Keyed(s.users)
    ensures Grows(s.users, Step(env, s, e).users)
    ensures e.Logout? ==> Step(env, s, e).store == map[]
    ensures e.Login? && e.refresh == token && LoginSucceeds(env, s, e) ==>
      && token in Step(env, s, e).store && Step(env, s, e).store[token] == MintRefresh(token, e.user, e.issue)
      && e.user in Step(env, s, e).users
    ensures !e.Logout? && !(e.Login? && e.refresh == token && LoginSucceeds(env, s, e)) ==>
      && (token in Step(env, s, e).store <==> token in s.store)
      && (token in s.store ==> Step(env, s, e).store[token] == s.store[token])
  {
    StepGrows(env, s, e);
    if e.Login? && e.user != "" && e.password != "" { LoginStep(env, s, e); }
  }

  lemma {:induction false} StoreIsIssued(env: Env, s: Session, run: seq<Event>, token: string)
    requires Keyed(s.users) && s.store == map[]
    ensures var issued := LastIssued(env, s, run, token);
      && (token in After(env, s, run).store <==> issued.Some?)
      && (issued.Some? ==> After(env, s, run).store[token] == issued.value && issued.value.username in After(env, s, run).users)
    decreases run
  {
    if run != [] {
      var init, last := run[..|run| - 1], run[|run| - 1];
      StoreIsIssued(env, s, init, token);
      UsersGrow(env, s, init);
      StoreStep(env, After(env, s, init), last, token);
    }
  }

  // A refresh succeeds exactly for such a token that has not expired: no refresh makes, extends
  // or spends one.
  lemma RefreshIffIssued(env: Env, s: Session, run: seq<Event>, e: Event)
    requires Keyed(s.users) && s.store == map[] && e.Refresh?
    ensures var issued := LastIssued(env, s, run, e.token);
      RefreshSucceeds(After(env, s, run), e) <==> issued.Some? && e.now <= issued.value.expires
  {
    StoreIsIssued(env, s, run, e.token);
  }
}
