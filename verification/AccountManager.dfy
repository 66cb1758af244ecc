/** The Manager object: user records mutated in place behind a map, and the file they are saved
    to. Every method is tied to the account functions by the value of its map. */
module AccountManager {
  import opened Results
  import opened Accounts
  import opened Storage

  class User {
    var username: string
    var hash: string
    var secret: string
    var verified: bool
    var requireTotp: bool
    var role: string
    var lastLogin: int
    var failed: int
    var lockedUntil: int

    constructor (a: Account)
      ensures Snapshot() == a
    {
      username, hash, secret := a.username, a.hash, a.secret;
      verified, requireTotp, role := a.verified, a.requireTotp, a.role;
      lastLogin, failed, lockedUntil := a.lastLogin, a.failed, a.lockedUntil;
    }

    function Snapshot(): Account
      reads this
    {
      Account(username, hash, secret, verified, requireTotp, role, lastLogin, failed, lockedUntil)
    }

    method CountFailure(env: Env, stamp: int)
      modifies this
      ensures Snapshot() == Penalise(env, old(Snapshot()), stamp)
    {
      failed := failed + 1;
      if failed >= env.max {
        lockedUntil := stamp + env.lock;
        failed := 0;
      }
    }

    method RecordLogin(stamp: int)
      modifies this
      ensures Snapshot() == Admit(old(Snapshot()), stamp)
    {
      failed := 0;
      lockedUntil := ZERO_TIME;
      lastLogin := stamp;
    }
  }

  class Manager {
    var users: map<string, User>
    var disk: Disk
    const env: Env

    ghost predicate Valid()
      reads this`users
    {
      forall j, k :: j in users && k in users && j != k ==> users[j] != users[k]
    }

    // The accounts as values.
    ghost function View(): Users
      reads this`users, users.Values
    {
      map k <- users :: users[k].Snapshot()
    }

    ghost function State(): Machine
      reads this, users.Values
    {
      Machine(View(), disk)
    }

    // `after` is what `call` makes of `before`, saved in `order` with that fault, and `reply` is
    // the answer it gives.
    ghost predicate Did(before: Machine, call: Call, order: seq<string>, fault: Fault, reply: Reply, after: Machine) {
      && Orderly(env, before.users, Request(call, order, fault))
      && after == Serve(env, before, Request(call, order, fault))
      && reply == Answer(env, before.users, call, fault)
    }

    // A call that does not save leaves everything, and gives the answer of the account model.
    ghost predicate Idles(call: Call, reply: Reply)
      reads this, users.Values
    {
      var effect := Apply(env, View(), call);
      effect == Effect(View(), reply, false)
    }

    lemma IdleDid(call: Call, fault: Fault, reply: Reply)
      requires Idles(call, reply)
      ensures Did(State(), call, [], fault, reply, State())
    {}

    // Only the record under `k` has changed, or been added.
    twostate lemma OneUpdated(k: string)
      requires k in users && users.Keys == old(users.Keys) + {k}
      requires forall j <- old(users) :: j != k ==> users[j].Snapshot() == old(users[j].Snapshot())
      ensures View() == old(View())[k := users[k].Snapshot()]
    {}

    constructor Empty(env: Env, disk: Disk)
      ensures Valid() && users == map[] && View() == map[] && this.disk == disk && this.env == env
    {
      users, this.disk, this.env := map[], disk, env;
    }

    // A new record under its own name, in place of an earlier one of that name.
    method Put(a: Account)
      requires Valid()
      modifies this`users
      ensures Valid() && a.username in users && fresh(users[a.username])
      ensures users == old(users)[a.username := users[a.username]]
      ensures View() == old(View())[a.username := a]
    {
      var u := new User(a);
      users := users[a.username := u];
      OneUpdated(a.username);
    }

    // NewManager: null where the source returns an error. `dirMade` is whether MkdirAll worked.
    static method New(env: Env, dirMade: bool, disk: Disk, hash: Option<string>, fault: Fault) returns (m: Manager?)
      ensures m == null <==> !dirMade || disk.file.Torn? || (NoAccounts(disk.file) && (hash.None? || !fault.NoFault?))
      ensures m != null && disk.file.Records? && disk.file.list != [] ==>
        m.disk == disk && HoldsLastRecords(disk.file.list, m.View())
      ensures m != null && NoAccounts(disk.file) ==>
        m.View() == FirstAccounts(hash.value) && m.disk.file == Records([m.View()["admin"]])
      ensures m != null ==> fresh(m) && fresh(m.users.Values) && m.Valid() && m.env == env
                            && Boot(disk, hash, fault) == Some(m.State())
    {
      StartExactly(disk, hash, fault);
      if !dirMade { return null; }
      var manager := new Manager.Empty(env, disk);
      var ok := manager.LoadFile();
      if !ok { return null; }
      if |manager.users| == 0 {
        assert manager.View() == map[];
        if hash.None? { return null; }
        var account := NewAccount(ADMIN, hash.value, ADMIN, false);
        manager.Put(account);
        ghost var order;
        ok, order := manager.SaveLocked(fault);
        if !ok { return null; }
        assert manager.View() == map[ADMIN := account];
        OneVisit(order, ADMIN);
        assert Listing(manager.View(), order) == [account];
      } else {
        var k :| k in manager.users;
        assert k in manager.View();
      }
      return manager;
    }

    static lemma OneVisit(order: seq<string>, k: string)
      requires Visits(order, {k})
      ensures order == [k]
    {
      assert k in order;
      VisitsKey(order, {k}, 0);
      if |order| > 1 { VisitsKey(order, {k}, 1); }
    }

    static lemma VisitsKey(order: seq<string>, keys: set<string>, i: nat)
      requires Visits(order, keys) && i < |order|
      ensures order[i] in keys
    {
      assert order[i] in order;
    }

    method LoadFile() returns (ok: bool)
      requires Valid() && users == map[]
      modifies this`users
      ensures Valid() && fresh(users.Values)
      ensures ok <==> !disk.file.Torn?
      ensures ok ==> Load(disk.file) == Some(View())
    {
      if disk.file.Torn? { return false; }
      if disk.file.Records? {
        var list := disk.file.list;
        for i := 0 to |list|
          invariant Valid() && forall k <- users :: fresh(users[k])
          invariant View() == Index(list[..i])
        {
          assert list[..i + 1][..i] == list[..i];
          Put(list[i]);
        }
        assert list[..|list|] == list;
      }
      return true;
    }

    // The map is visited in an order Go does not fix.
    method SaveLocked(fault: Fault) returns (ok: bool, ghost order: seq<string>)
      requires Valid()
      modifies this`disk
      ensures Visits(order, View().Keys)
      ensures disk == Save(old(disk), Listing(View(), order), fault) && ok == fault.NoFault?
    {
      var list: seq<Account> := [];
      order := [];
      var rest := users.Keys;
      while rest != {}
        invariant rest <= users.Keys
        invariant Visits(order, users.Keys - rest)
        invariant list == Listing(View(), order)
      {
        var k :| k in rest;
        list := list + [users[k].Snapshot()];
        order := order + [k];
        rest := rest - {k};
      }
      if fault.WriteFails? {
        disk := Disk(disk.file, fault.leftover);
        return false, order;
      }
      disk := Disk(disk.file, Records(list));
      if fault.RenameFails? { return false, order; }
      disk := Disk(disk.tmp, Absent);
      return true, order;
    }

    // SaveLocked at the end of a call that has changed the map: what it leaves is what the call
    // does to the machine.
    method Commit(ghost before: Machine, ghost call: Call, fault: Fault) returns (ok: bool, ghost order: seq<string>)
      requires Valid() && Apply(env, before.users, call).saves
      requires View() == Apply(env, before.users, call).users && disk == before.disk
      modifies this`disk
      ensures ok == fault.NoFault?
      ensures Did(before, call, order, fault, Answer(env, before.users, call, fault), State())
    {
      ok, order := SaveLocked(fault);
    }

    // A copy of one account.
    method Get(username: string) returns (found: Option<Account>)
      ensures found == if username in View() then Some(View()[username]) else None
    {
      if username !in users { return None; }
      return Some(users[username].Snapshot());
    }

    // The failure branch of Authenticate, the same for a wrong password and a wrong code.
    method Fail(username: string, ghost call: Call, stamp: int, fault: Fault) returns (ghost order: seq<string>)
      requires Valid() && username in users && Apply(env, View(), call).saves
      requires Apply(env, View(), call).users == View()[username := Penalise(env, View()[username], stamp)]
      modifies this`disk, users.Values
      ensures users == old(users)
      ensures Did(old(State()), call, order, fault, Answer(env, old(View()), call, fault), State())
    {
      ghost var before := State();
      var u := users[username];
      u.CountFailure(env, stamp);
      OneUpdated(username);
      var _, visited := Commit(before, call, fault);
      return visited;
    }

    // The success branch of Authenticate.
    method Succeed(username: string, ghost call: Call, stamp: int, fault: Fault)
      returns (account: Account, ghost order: seq<string>)
      requires Valid() && username in users && Apply(env, View(), call).saves
      requires Apply(env, View(), call).users == View()[username := Admit(View()[username], stamp)]
      modifies this`disk, users.Values
      ensures users == old(users) && account == Admit(old(View())[username], stamp)
      ensures Did(old(State()), call, order, fault, Answer(env, old(View()), call, fault), State())
    {
      ghost var before := State();
      var u := users[username];
      u.RecordLogin(stamp);
      account := u.Snapshot();
      OneUpdated(username);
      var _, visited := Commit(before, call, fault);
      return account, visited;
    }

    method Authenticate(username: string, password: string, code: string, at: Readings, fault: Fault)
      returns (reply: Reply, ghost order: seq<string>)
      requires Valid()
      modifies this`disk, users.Values
      ensures Valid() && users == old(users)
      ensures Did(old(State()), Call.Authenticate(username, password, code, at), order, fault, reply, State())
    {
      order := [];
      ghost var call := Call.Authenticate(username, password, code, at);
      if username !in users {
        IdleDid(call, fault, UnknownUser);
        return UnknownUser, order;
      }
      var u := users[username];
      assert View()[username] == u.Snapshot();
      if at.check < u.lockedUntil {
        IdleDid(call, fault, Locked);
        return Locked, order;
      }
      if !env.matches(u.hash, password) {
        order := Fail(username, call, at.stamp, fault);
        return WrongPassword, order;
      }
      if u.requireTotp || (u.verified && u.secret != "") {
        if code == "" {
          IdleDid(call, fault, CodeRequired);
          return CodeRequired, order;
        }
        if u.secret == "" {
          IdleDid(call, fault, NotConfigured);
          return NotConfigured, order;
        }
        if !env.valid(u.secret, code, at.verify) {
          order := Fail(username, call, at.stamp, fault);
          return WrongCode, order;
        }
      }
      var account, visited := Succeed(username, call, at.stamp, fault);
      return LoggedIn(account), visited;
    }

    // What RegisterUser and EnsureBootstrap do once they know the name is free.
    method AddUser(a: Account, ghost call: Call, fault: Fault) returns (ok: bool, ghost order: seq<string>)
      requires Valid() && a.username !in users && Apply(env, View(), call).saves
      requires Apply(env, View(), call).users == View()[a.username := a]
      modifies this`users, this`disk
      ensures Valid() && forall k <- users :: users[k] in old(users.Values) || fresh(users[k])
      ensures ok == fault.NoFault?
      ensures Did(old(State()), call, order, fault, Answer(env, old(View()), call, fault), State())
    {
      ghost var before := State();
      Put(a);
      ok, order := Commit(before, call, fault);
    }

    method RegisterUser(username: string, hash: Option<string>, role: string, requireTotp: bool, fault: Fault)
      returns (reply: Reply, ghost order: seq<string>)
      requires Valid()
      modifies this`users, this`disk
      ensures Valid() && forall k <- users :: users[k] in old(users.Values) || fresh(users[k])
      ensures Did(old(State()), Call.Register(username, hash, role, requireTotp), order, fault, reply, State())
    {
      order := [];
      if username in users { return AlreadyExists, order; }
      if hash.None? { return HashFailed, order; }
      ghost var call := Call.Register(username, hash, role, requireTotp);
      var ok, visited := AddUser(NewAccount(username, hash.value, role, requireTotp), call, fault);
      return if ok then Accepted else SaveFailed, visited;
    }

    method SetTOTPSecret(username: string, secret: string, fault: Fault)
      returns (reply: Reply, ghost order: seq<string>)
      requires Valid()
      modifies this`disk, users.Values
      ensures Valid() && users == old(users)
      ensures Did(old(State()), Call.SetSecret(username, secret), order, fault, reply, State())
    {
      order := [];
      ghost var before, call := State(), Call.SetSecret(username, secret);
      if username !in users { return UnknownUser, order; }
      var u := users[username];
      u.secret := secret;
      u.verified := false;
      OneUpdated(username);
      var ok, visited := Commit(before, call, fault);
      return if ok then Accepted else SaveFailed, visited;
    }

    method VerifyTOTP(username: string, code: string, now: int, fault: Fault)
      returns (reply: Reply, ghost order: seq<string>)
      requires Valid()
      modifies this`disk, users.Values
      ensures Valid() && users == old(users)
      ensures Did(old(State()), Call.Verify(username, code, now), order, fault, reply, State())
    {
      order := [];
      ghost var before, call := State(), Call.Verify(username, code, now);
      if username !in users { return UnknownUser, order; }
      var u := users[username];
      if u.secret == "" { return NotConfigured, order; }
      if !env.valid(u.secret, code, now) { return WrongCode, order; }
      u.verified := true;
      u.requireTotp := true;
      OneUpdated(username);
      var ok, visited := Commit(before, call, fault);
      return if ok then Accepted else SaveFailed, visited;
    }

    method ChangePassword(username: string, oldPassword: string, newPassword: string, hash: Option<string>, fault: Fault)
      returns (reply: Reply, ghost order: seq<string>)
      requires Valid()
      modifies this`disk, users.Values
      ensures Valid() && users == old(users)
      ensures Did(old(State()), Call.ChangePassword(username, oldPassword, newPassword, hash), order, fault, reply, State())
    {
      order := [];
      ghost var before, call := State(), Call.ChangePassword(username, oldPassword, newPassword, hash);
      if username !in users { return UnknownUser, order; }
      var u := users[username];
      if !env.matches(u.hash, oldPassword) { return WrongPassword, order; }
      if |newPassword| < MIN_PASSWORD { return TooShort, order; }
      if hash.None? { return HashFailed, order; }
      u.hash := hash.value;
      OneUpdated(username);
      var ok, visited := Commit(before, call, fault);
      return if ok then Accepted else SaveFailed, visited;
    }

    method EnsureBootstrap(hash: Option<string>, fault: Fault) returns (reply: Reply, ghost order: seq<string>)
      requires Valid()
      modifies this`users, this`disk
      ensures Valid() && forall k <- users :: users[k] in old(users.Values) || fresh(users[k])
      ensures Did(old(State()), Call.EnsureBootstrap(hash), order, fault, reply, State())
    {
      order := [];
      if ADMIN in users { return Accepted, order; }
      if hash.None? { return HashFailed, order; }
      var ok, visited := AddUser(NewAccount(ADMIN, hash.value, ADMIN, false), Call.EnsureBootstrap(hash), fault);
      return if ok then Accepted else SaveFailed, visited;
    }
  }
}
