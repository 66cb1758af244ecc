/** The login, refresh and logout handlers over the Manager object and the in-memory refresh
    store. Each call is one atomic step of the session model. */
module AuthHandlers {
  import opened Results
  import opened Accounts
  import Storage
  import opened AccountManager
  import opened Sessions

  datatype Response =
    | BadRequest
    | Unauthorized
    | LoggedIn(jwt: Jwt, refresh: string)
    | Refreshed(jwt: Jwt)

  class AuthHandler {
    const manager: Manager
    var refreshStore: map<string, RefreshToken>
    ghost var minted: set<Jwt>

    ghost predicate Valid()
      reads manager`users, manager.users.Values
    {
      manager.Valid() && Keyed(manager.View())
    }

    ghost function State(): Session
      reads this`refreshStore, this`minted, manager`users, manager.users.Values
    {
      Session(manager.View(), refreshStore, minted)
    }

    constructor (manager: Manager)
      requires manager.Valid() && Keyed(manager.View())
      ensures this.manager == manager && Valid() && State() == Session(manager.View(), map[], {})
    {
      this.manager, refreshStore, minted := manager, map[], {};
    }

    // Authenticate, seen from the session model.
    method CheckLogin(user: string, password: string, code: string, at: Readings, fault: Storage.Fault)
      returns (reply: Reply)
      requires Valid()
      modifies manager`disk, manager.users.Values
      ensures Valid() && manager.users == old(manager.users)
      ensures var effect := Apply(manager.env, old(manager.View()), Authenticate(user, password, code, at));
        manager.View() == effect.users && reply == effect.reply
    {
      StepKeeps(manager.env, manager.View(), Authenticate(user, password, code, at));
      var answer, order := manager.Authenticate(user, password, code, at, fault);
      return answer;
    }

    // The tokens of a login that succeeded.
    method Grant(account: Account, mint: int, issue: int, id: string, refresh: string) returns (jwt: Jwt)
      modifies this`refreshStore, this`minted
      ensures jwt == MintJwt(id, account, mint)
      ensures refreshStore == old(refreshStore)[refresh := MintRefresh(refresh, account.username, issue)]
      ensures minted == old(minted) + {jwt}
    {
      jwt := MintJwt(id, account, mint);
      minted := minted + {jwt};
      refreshStore := refreshStore[refresh := MintRefresh(refresh, account.username, issue)];
    }

    method Login(user: string, password: string, code: string, at: Readings, mint: int, issue: int,
                 id: string, refresh: string, fault: Storage.Fault) returns (r: Response)
      requires Valid()
      modifies this`refreshStore, this`minted, manager`disk, manager.users.Values
      ensures Valid() && manager.users == old(manager.users)
      ensures var e := Event.Login(user, password, code, at, mint, issue, id, refresh);
        && State() == Step(manager.env, old(State()), e)
        && (r.BadRequest? <==> user == "" || password == "") && !r.Refreshed?
        && (r.LoggedIn? <==> LoginSucceeds(manager.env, old(State()), e))
        && (r.LoggedIn? ==>
              && user in State().users && r.jwt == MintJwt(id, State().users[user], mint)
              && r.refresh == refresh && refresh in refreshStore && Accepts(State(), r.jwt, mint))
    {
      ghost var before, e := State(), Event.Login(user, password, code, at, mint, issue, id, refresh);
      if user == "" || password == "" { return BadRequest; }
      var reply := CheckLogin(user, password, code, at, fault);
      LoginStep(manager.env, before, e);
      if !reply.LoggedIn? { return Unauthorized; }
      var jwt := Grant(reply.account, mint, issue, id, refresh);
      MintedIsAccepted(State(), id, reply.account, mint);
      return Response.LoggedIn(jwt, refresh);
    }

    method Refresh(token: string, now: int, mint: int, id: string) returns (r: Response)
      requires Valid()
      modifies this`minted
      ensures Valid()
      ensures var e := Event.Refresh(token, now, mint, id);
        && State() == Step(manager.env, old(State()), e)
        && (r.Refreshed? <==> RefreshSucceeds(old(State()), e)) && (!r.Refreshed? ==> r == Unauthorized)
        && (r.Refreshed? ==>
              && r.jwt == MintJwt(id, State().users[refreshStore[token].username], mint)
              && Accepts(State(), r.jwt, mint))
    {
      if token !in refreshStore || now > refreshStore[token].expires { return Unauthorized; }
      var account := manager.Get(refreshStore[token].username);
      if account.None? { return Unauthorized; }
      var jwt := MintJwt(id, account.value, mint);
      minted := minted + {jwt};
      MintedIsAccepted(State(), id, account.value, mint);
      return Refreshed(jwt);
    }

    // Every entry is deleted, one at a time.
    method Logout(now: int)
      requires Valid()
      modifies this`refreshStore
      ensures Valid() && State() == Step(manager.env, old(State()), Event.Logout(now))
    {
      while refreshStore != map[]
        invariant manager.View() == old(manager.View()) && minted == old(minted)
        decreases |refreshStore|
      {
        var token :| token in refreshStore;
        assert |refreshStore - {token}| < |refreshStore| by {
          assert refreshStore == (refreshStore - {token})[token := refreshStore[token]];
        }
        refreshStore := refreshStore - {token};
      }
    }
  }
}
