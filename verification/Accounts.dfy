/** User accounts as values, and what each Manager call does to them. */
module Accounts {
  import opened Results

  // Times are nanoseconds after the zero `time.Time`, which is 0.
  const ZERO_TIME := 0
  const ADMIN := "admin"
  const MIN_PASSWORD := 8

  datatype Account = Account(
    username: string, hash: string, secret: string, verified: bool, requireTotp: bool,
    role: string, lastLogin: int, failed: int, lockedUntil: int)

  type Users = map<string, Account>

  // The configured bounds, and the two checks done by libraries outside the repository: does a
  // password match a bcrypt hash, and is a code valid for a TOTP secret at a time.
  datatype Env = Env(
    max: int, lock: int,
    matches: (string, string) -> bool, valid: (string, string, int) -> bool)
  {
    ghost predicate Valid() { max > 0 && lock > 0 }
  }

  // The clock readings of one Authenticate call, in the order it takes them: for the lock check,
  // inside the code check, and for the new deadline or the login time.
  datatype Readings = Readings(check: int, verify: int, stamp: int)

  // A `hash` argument is what bcrypt returns for the new password, None when it fails.
  datatype Call =
    | Authenticate(user: string, password: string, code: string, at: Readings)
    | Register(user: string, hash: Option<string>, role: string, requireTotp: bool)
    | SetSecret(user: string, secret: string)
    | Verify(user: string, code: string, now: int)
    | ChangePassword(user: string, password: string, newPassword: string, hash: Option<string>)
    | EnsureBootstrap(hash: Option<string>)

  datatype Reply =
    | LoggedIn(account: Account)
    | UnknownUser | Locked | WrongPassword | CodeRequired | NotConfigured | WrongCode
    | Accepted | AlreadyExists | HashFailed | TooShort | SaveFailed

  // The accounts after a call, its answer when saving works, and whether it saves at all.
  datatype Effect = Effect(users: Users, reply: Reply, saves: bool)

  function NewAccount(username: string, hash: string, role: string, requireTotp: bool): Account {
    Account(username, hash, "", false, requireTotp, role, ZERO_TIME, 0, ZERO_TIME)
  }

  predicate NeedsCode(a: Account) {
    a.requireTotp || (a.verified && a.secret != "")
  }

  // A failed attempt: count it, and at the limit lock and start counting again.
  function Penalise(env: Env, a: Account, stamp: int): Account {
    if a.failed + 1 >= env.max then a.(failed := 0, lockedUntil := stamp + env.lock)
    else a.(failed := a.failed + 1)
  }

  function Admit(a: Account, stamp: int): Account {
    a.(failed := 0, lockedUntil := ZERO_TIME, lastLogin := stamp)
  }

  function Login(env: Env, users: Users, user: string, password: string, code: string, at: Readings): Effect {
    if user !in users then Effect(users, UnknownUser, false)
    else
      var a := users[user];
      if at.check < a.lockedUntil then Effect(users, Locked, false)
      else if !env.matches(a.hash, password) then
        Effect(users[user := Penalise(env, a, at.stamp)], WrongPassword, true)
      else if NeedsCode(a) && code == "" then Effect(users, CodeRequired, false)
      else if NeedsCode(a) && a.secret == "" then Effect(users, NotConfigured, false)
      else if NeedsCode(a) && !env.valid(a.secret, code, at.verify) then
        Effect(users[user := Penalise(env, a, at.stamp)], WrongCode, true)
      else Effect(users[user := Admit(a, at.stamp)], LoggedIn(Admit(a, at.stamp)), true)
  }

  function Apply(env: Env, users: Users, call: Call): Effect {
    match call
    case Authenticate(user, password, code, at) => Login(env, users, user, password, code, at)
    case Register(user, hash, role, requireTotp) =>
      if user in users then Effect(users, AlreadyExists, false)
      else if hash.None? then Effect(users, HashFailed, false)
      else Effect(users[user := NewAccount(user, hash.value, role, requireTotp)], Accepted, true)
    case SetSecret(user, secret) =>
      if user !in users then Effect(users, UnknownUser, false)
      else Effect(users[user := users[user].(secret := secret, verified := false)], Accepted, true)
    case Verify(user, code, now) =>
      if user !in users then Effect(users, UnknownUser, false)
      else if users[user].secret == "" then Effect(users, NotConfigured, false)
      else if !env.valid(users[user].secret, code, now) then Effect(users, WrongCode, false)
      else Effect(users[user := users[user].(verified := true, requireTotp := true)], Accepted, true)
    case ChangePassword(user, password, newPassword, hash) =>
      if user !in users then Effect(users, UnknownUser, false)
      else if !env.matches(users[user].hash, password) then Effect(users, WrongPassword, false)
      else if |newPassword| < MIN_PASSWORD then Effect(users, TooShort, false)
      else if hash.None? then Effect(users, HashFailed, false)
      else Effect(users[user := users[user].(hash := hash.value)], Accepted, true)
    case EnsureBootstrap(hash) =>
      if ADMIN in users then Effect(users, Accepted, false)
      else if hash.None? then Effect(users, HashFailed, false)
      else Effect(users[ADMIN := NewAccount(ADMIN, hash.value, ADMIN, false)], Accepted, true)
  }

  function Run(env: Env, users: Users, calls: seq<Call>): Users
    decreases calls
  {
    if calls == [] then users else Run(env, Apply(env, users, calls[0]).users, calls[1..])
  }

  // ------------------------------------------------------------------ the clock of a run

  ghost predicate Timely(call: Call, from: int) {
    match call
    case Authenticate(_, _, _, at) => from <= at.check <= at.verify <= at.stamp
    case Verify(_, _, now) => from <= now
    case _ => true
  }

  function Clock(call: Call, from: int): int {
    match call
    case Authenticate(_, _, _, at) => at.stamp
    case Verify(_, _, now) => now
    case _ => from
  }

  // The clock never goes back, within a call or between calls, and starts at `from`.
  ghost predicate Ordered(calls: seq<Call>, from: int) {
    calls == [] || (Timely(calls[0], from) && Ordered(calls[1..], Clock(calls[0], from)))
  }

  function LastReading(calls: seq<Call>, from: int): int
    decreases calls
  {
    if calls == [] then from else LastReading(calls[1..], Clock(calls[0], from))
  }

  // ------------------------------------------------------------------ what every call keeps

  // Every account is stored under its own name.
  ghost predicate Keyed(users: Users) {
    forall k <- users :: users[k].username == k
  }

  // Counters below the limit, and no deadline further away than one lockout.
  ghost predicate Bounded(env: Env, users: Users, clock: int) {
    forall k <- users :: 0 <= users[k].failed < env.max && users[k].lockedUntil <= clock + env.lock
  }

  // A verified second factor is a required one.
  ghost predicate VerifiedRequired(users: Users) {
    forall k <- users :: users[k].verified ==> users[k].requireTotp
  }

  // Accounts stay, keep their role, and never drop the requirement of a code.
  ghost predicate Grows(users: Users, later: Users) {
    forall k <- users ::
      k in later && later[k].role == users[k].role && (users[k].requireTotp ==> later[k].requireTotp)
  }

  // What a call does to one account that was there before.
  ghost predicate Evolves(a: Account, b: Account) {
    && b.username == a.username && b.role == a.role
    && (a.requireTotp ==> b.requireTotp)
    && ((a.verified ==> a.requireTotp) ==> b.verified ==> b.requireTotp)
  }

  lemma StepEvolves(env: Env, users: Users, call: Call, k: string)
    ensures k in users ==> k in Apply(env, users, call).users && Evolves(users[k], Apply(env, users, call).users[k])
    ensures k !in users && k in Apply(env, users, call).users ==>
      var a := Apply(env, users, call).users[k]; a.username == k && !a.verified && a.failed == 0
  {}

  lemma UnsavedChangesNothing(env: Env, users: Users, call: Call)
    requires !Apply(env, users, call).saves
    ensures Apply(env, users, call).users == users
  {}

  lemma StepKeeps(env: Env, users: Users, call: Call)
    ensures Keyed(users) ==> Keyed(Apply(env, users, call).users)
    ensures VerifiedRequired(users) ==> VerifiedRequired(Apply(env, users, call).users)
    ensures Grows(users, Apply(env, users, call).users)
  {
    var users' := Apply(env, users, call).users;
    forall k | k in users' ensures k in users ==> Evolves(users[k], users'[k])
                           ensures k !in users ==> users'[k].username == k && !users'[k].verified
    {
      StepEvolves(env, users, call, k);
    }
    forall k | k in users ensures k in users' { StepEvolves(env, users, call, k); }
  }

  lemma StepKeepsBounds(env: Env, users: Users, call: Call, from: int)
    requires env.Valid() && from >= 0 && Bounded(env, users, from) && Timely(call, from)
    ensures Bounded(env, Apply(env, users, call).users, Clock(call, from))
  {
    var users' := Apply(env, users, call).users;
    forall k | k in users'
      ensures 0 <= users'[k].failed < env.max && users'[k].lockedUntil <= Clock(call, from) + env.lock
    {
      StepBounds(env, users, call, k, from);
    }
  }

  lemma StepBounds(env: Env, users: Users, call: Call, k: string, from: int)
    requires env.Valid() && from >= 0 && Timely(call, from) && k in Apply(env, users, call).users
    requires k in users ==> 0 <= users[k].failed < env.max && users[k].lockedUntil <= from + env.lock
    ensures var a := Apply(env, users, call).users[k];
      0 <= a.failed < env.max && a.lockedUntil <= Clock(call, from) + env.lock
  {}

  // Only calls that name a user change that user's account; other accounts stay as they are.
  lemma OthersUntouched(env: Env, users: Users, call: Call, k: string)
    requires k in users && (call.EnsureBootstrap? || call.user != k)
    ensures k in Apply(env, users, call).users && Apply(env, users, call).users[k] == users[k]
  {}

  lemma {:induction false} RunKeeps(env: Env, users: Users, calls: seq<Call>)
    ensures Keyed(users) ==> Keyed(Run(env, users, calls))
    ensures VerifiedRequired(users) ==> VerifiedRequired(Run(env, users, calls))
    ensures Grows(users, Run(env, users, calls))
    decreases calls
  {
    if calls != [] {
      StepKeeps(env, users, calls[0]);
      RunKeeps(env, Apply(env, users, calls[0]).users, calls[1..]);
    }
  }

  lemma {:induction false} RunKeepsBounds(env: Env, users: Users, calls: seq<Call>, from: int)
    requires env.Valid() && from >= 0 && Bounded(env, users, from) && Ordered(calls, from)
    ensures LastReading(calls, from) >= from
    ensures Bounded(env, Run(env, users, calls), LastReading(calls, from))
    decreases calls
  {
    if calls != [] {
      StepKeepsBounds(env, users, calls[0], from);
      RunKeepsBounds(env, Apply(env, users, calls[0]).users, calls[1..], Clock(calls[0], from));
    }
  }

  lemma {:induction false} RunConcat(env: Env, users: Users, a: seq<Call>, b: seq<Call>)
    ensures Run(env, users, a + b) == Run(env, Run(env, users, a), b)
    decreases a
  {
    if a == [] {
      assert a + b == b;
    } else {
      assert (a + b)[1..] == a[1..] + b;
      RunConcat(env, Apply(env, users, a[0]).users, a[1..], b);
    }
  }
}
