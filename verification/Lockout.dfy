/** What the failed-attempt counter and the lock deadline guarantee over whole runs. */
module Lockout {
  import opened Accounts
  import opened Answers
  import opened Arithmetic

  // A call that evaluates a wrong password or a wrong code for `user`, by the stored fields and the
  // request. Locked, "code required" and "not configured" calls evaluate nothing.
  predicate Misses(env: Env, users: Users, call: Call, user: string) {
    call.Authenticate? && call.user == user && WrongAttempt(env, users, call)
  }

  // A call for `user` that has everything right.
  predicate LogsIn(env: Env, users: Users, call: Call, user: string) {
    call.Authenticate? && call.user == user && RightAttempt(env, users, call)
  }

  // Wrong attempts evaluated for `user` in the closed interval [lo, hi].
  function Misguesses(env: Env, users: Users, calls: seq<Call>, user: string, lo: int, hi: int): nat
    decreases calls
  {
    if calls == [] then 0
    else
      (if Misses(env, users, calls[0], user) && lo <= calls[0].at.check <= hi then 1 else 0)
      + Misguesses(env, Apply(env, users, calls[0]).users, calls[1..], user, lo, hi)
  }

  ghost predicate NoLogin(env: Env, users: Users, calls: seq<Call>, user: string, lo: int, hi: int)
    decreases calls
  {
    calls == [] ||
    (!(LogsIn(env, users, calls[0], user) && lo <= calls[0].at.check <= hi)
     && NoLogin(env, Apply(env, users, calls[0]).users, calls[1..], user, lo, hi))
  }

  function Max(a: int, b: int): int { if a < b then b else a }

  // The attempts left before `hi`: a full round for every lockout that still fits after the
  // earliest moment an attempt can be evaluated, less the misses already counted.
  function AttemptsLeft(env: Env, failed: int, earliest: int, hi: int): int
    requires env.Valid()
  {
    if earliest > hi then 0
    else env.max * ((hi - earliest) / env.lock + 1) - (if failed < env.max then failed else env.max - 1)
  }

  function Earliest(users: Users, user: string, lo: int): int {
    if user in users then Max(users[user].lockedUntil, lo) else lo
  }

  function Failed(users: Users, user: string): int {
    if user in users then users[user].failed else 0
  }

  lemma RoundsMonotone(env: Env, a: int, b: int)
    requires env.Valid() && 0 <= a <= b
    ensures env.max <= env.max * (a / env.lock + 1) <= env.max * (b / env.lock + 1)
  {
    DivBelow(0, env.lock);
    DivMonotone(0, a, env.lock);
    DivMonotone(a, b, env.lock);
    MulMonotone(env.max, 1, a / env.lock + 1);
    MulMonotone(env.max, a / env.lock + 1, b / env.lock + 1);
  }

  lemma LaterIsFewer(env: Env, failed: int, a: int, b: int, hi: int)
    requires env.Valid() && failed >= 0 && a <= b
    ensures 0 <= AttemptsLeft(env, failed, b, hi) <= AttemptsLeft(env, failed, a, hi)
  {
    if b <= hi {
      RoundsMonotone(env, hi - b, hi - a);
    } else if a <= hi {
      RoundsMonotone(env, 0, hi - a);
    }
  }

  // One evaluated miss uses up one attempt, whether or not it locks.
  lemma MissUsesOne(env: Env, a: Account, at: Readings, hi: int)
    requires env.Valid() && a.failed >= 0 && at.check <= at.stamp && at.check <= hi
    ensures var b := Penalise(env, a, at.stamp);
      b.failed >= 0
      && 1 + AttemptsLeft(env, b.failed, if b.failed == 0 then at.stamp + env.lock else at.check, hi)
         <= AttemptsLeft(env, a.failed, at.check, hi)
  {
    RoundsMonotone(env, hi - at.check, hi - at.check);
    if a.failed + 1 >= env.max {
      LaterIsFewer(env, 0, at.check + env.lock, at.stamp + env.lock, hi);
      if at.check + env.lock <= hi {
        DivStep(hi - at.check - env.lock, env.lock);
        MulNext(env.max, (hi - at.check) / env.lock);
      }
    }
  }

  lemma {:induction false} NoneAfter(env: Env, users: Users, calls: seq<Call>, user: string, lo: int, hi: int, from: int)
    requires Ordered(calls, from) && hi < from
    ensures Misguesses(env, users, calls, user, lo, hi) == 0
    decreases calls
  {
    if calls != [] {
      NoneAfter(env, Apply(env, users, calls[0]).users, calls[1..], user, lo, hi, Clock(calls[0], from));
    }
  }

  // A call that neither evaluates a miss nor logs the user in leaves counter and deadline alone.
  lemma SameCounter(env: Env, users: Users, call: Call, user: string)
    requires !Misses(env, users, call, user) && !LogsIn(env, users, call, user)
    ensures var users' := Apply(env, users, call).users;
      && Failed(users', user) == Failed(users, user)
      && forall from :: from >= 0 ==> Earliest(users', user, from) == Earliest(users, user, from)
  {}

  // Inside the interval, misses never exceed the attempts left.
  lemma {:induction false} AttemptsBound(env: Env, users: Users, calls: seq<Call>, user: string, lo: int, hi: int, from: int)
    requires env.Valid() && 0 <= from && lo <= from && Ordered(calls, from)
    requires Failed(users, user) >= 0 && NoLogin(env, users, calls, user, lo, hi)
    ensures Misguesses(env, users, calls, user, lo, hi)
         <= AttemptsLeft(env, Failed(users, user), Earliest(users, user, from), hi)
    decreases calls
  {
    var earliest := Earliest(users, user, from);
    LaterIsFewer(env, Failed(users, user), earliest, earliest, hi);
    if calls != [] {
      var call := calls[0];
      var users', from' := Apply(env, users, call).users, Clock(call, from);
      if call.Authenticate? && call.at.check > hi {
        NoneAfter(env, users', calls[1..], user, lo, hi, from');
      } else {
        if Misses(env, users, call, user) {
          var a := users[user];
          MissUsesOne(env, a, call.at, hi);
          LaterIsFewer(env, a.failed, earliest, call.at.check, hi);
          var b := Penalise(env, a, call.at.stamp);
          LaterIsFewer(env, b.failed, if b.failed == 0 then call.at.stamp + env.lock else call.at.check,
                       Earliest(users', user, from'), hi);
        } else {
          SameCounter(env, users, call, user);
          LaterIsFewer(env, Failed(users, user), earliest, Earliest(users', user, from'), hi);
        }
        AttemptsBound(env, users', calls[1..], user, lo, hi, from');
      }
    }
  }

  // Over any run with a forward clock in which `user` does not log in during [lo, hi], the wrong
  // attempts evaluated for `user` in that interval number at most `max` for each whole lockout
  // that fits in it, plus `max`, whatever else is called and whatever counter was loaded.
  lemma {:induction false} LockoutBound(env: Env, users: Users, calls: seq<Call>, user: string, lo: int, hi: int, from: int)
    requires env.Valid() && 0 <= from && lo <= hi && Ordered(calls, from)
    requires Failed(users, user) >= 0 && NoLogin(env, users, calls, user, lo, hi)
    ensures Misguesses(env, users, calls, user, lo, hi) <= env.max * ((hi - lo) / env.lock + 1)
    decreases calls
  {
    RoundsMonotone(env, 0, hi - lo);
    if lo <= from || (calls != [] && calls[0].Authenticate? && lo <= calls[0].at.check) {
      var start := Max(lo, from);
      AttemptsBound(env, users, calls, user, lo, hi, start);
      LaterIsFewer(env, Failed(users, user), lo, Earliest(users, user, start), hi);
    } else if calls != [] {
      LockoutBound(env, Apply(env, users, calls[0]).users, calls[1..], user, lo, hi, Clock(calls[0], from));
    }
  }

  // ------------------------------------------------------------------ the bound is attained

  // What is tried over and over: a password with a code.
  datatype Guess = Guess(password: string, code: string)

  // Wrong at every moment of the interval: a wrong password, or the right one with a code that is
  // asked for and never valid.
  ghost predicate WrongThroughout(env: Env, a: Account, g: Guess, lo: int, hi: int) {
    env.matches(a.hash, g.password) ==>
      AsksCode(a) && g.code != "" && a.secret != "" && forall t :: lo <= t <= hi ==> !env.valid(a.secret, g.code, t)
  }

  function Miss(user: string, g: Guess, t: int): Call {
    Authenticate(user, g.password, g.code, Readings(t, t, t))
  }

  // `n` wrong attempts, `max` at a time, one lockout apart.
  function Rounds(env: Env, user: string, g: Guess, t: int, counted: int, n: nat): seq<Call>
    decreases n
  {
    if n == 0 then []
    else if counted + 1 >= env.max then [Miss(user, g, t)] + Rounds(env, user, g, t + env.lock, 0, n - 1)
    else [Miss(user, g, t)] + Rounds(env, user, g, t, counted + 1, n - 1)
  }

  function NextTime(env: Env, counted: int, t: int): int {
    if counted + 1 >= env.max then t + env.lock else t
  }

  lemma OneRoundFewer(env: Env, a: Account, t: int, hi: int)
    requires env.Valid() && 0 <= a.failed && 1 <= AttemptsLeft(env, a.failed, t, hi)
    ensures t <= hi
    ensures AttemptsLeft(env, Penalise(env, a, t).failed, NextTime(env, a.failed, t), hi)
         == AttemptsLeft(env, a.failed, t, hi) - 1
  {
    if t + env.lock <= hi {
      DivStep(hi - t - env.lock, env.lock);
      MulNext(env.max, (hi - t) / env.lock);
    } else if t <= hi {
      DivBelow(hi - t, env.lock);
    }
  }

  lemma RoundsFirst(env: Env, a: Account, user: string, g: Guess, t: int, n: nat)
    requires env.Valid() && 0 <= a.failed && n > 0
    ensures Rounds(env, user, g, t, a.failed, n)
         == [Miss(user, g, t)] + Rounds(env, user, g, NextTime(env, a.failed, t), Penalise(env, a, t).failed, n - 1)
  {}

  lemma {:induction false} RoundsAllMiss(env: Env, users: Users, user: string, g: Guess, t: int, n: nat, lo: int, hi: int)
    requires env.Valid() && user in users && WrongThroughout(env, users[user], g, lo, hi)
    requires 0 <= users[user].failed && users[user].lockedUntil <= t && lo <= t
    requires n <= AttemptsLeft(env, users[user].failed, t, hi)
    ensures var calls := Rounds(env, user, g, t, users[user].failed, n);
      && Ordered(calls, t) && NoLogin(env, users, calls, user, lo, hi)
      && Misguesses(env, users, calls, user, lo, hi) == n
    decreases n
  {
    if n > 0 {
      var a, call := users[user], Miss(user, g, t);
      var b, next := Penalise(env, a, t), NextTime(env, a.failed, t);
      OneRoundFewer(env, a, t, hi);
      OneMiss(env, users, user, g, t, lo, hi);
      RoundsFirst(env, a, user, g, t, n);
      RoundsAllMiss(env, users[user := b], user, g, next, n - 1, lo, hi);
      var rest := Rounds(env, user, g, next, b.failed, n - 1);
      OrderedEarlier(rest, next, t);
      MissFirst(env, users, call, users[user := b], rest, user, t, lo, hi);
    }
  }

  lemma MissFirst(env: Env, users: Users, call: Call, users': Users, rest: seq<Call>, user: string, t: int, lo: int, hi: int)
    requires Apply(env, users, call).users == users' && Misses(env, users, call, user)
    requires call.at == Readings(t, t, t) && lo <= t <= hi
    requires Ordered(rest, t)
    requires NoLogin(env, users', rest, user, lo, hi)
    ensures Ordered([call] + rest, t) && NoLogin(env, users, [call] + rest, user, lo, hi)
    ensures Misguesses(env, users, [call] + rest, user, lo, hi) == 1 + Misguesses(env, users', rest, user, lo, hi)
  {
    assert ([call] + rest)[1..] == rest;
  }

  lemma OneMiss(env: Env, users: Users, user: string, g: Guess, t: int, lo: int, hi: int)
    requires user in users && WrongThroughout(env, users[user], g, lo, hi) && users[user].lockedUntil <= t && lo <= t <= hi
    ensures Misses(env, users, Miss(user, g, t), user)
    ensures Apply(env, users, Miss(user, g, t)).users == users[user := Penalise(env, users[user], t)]
  {
    AuthenticateLeaves(env, users, Miss(user, g, t));
  }

  lemma {:induction false} OrderedEarlier(calls: seq<Call>, from: int, earlier: int)
    requires Ordered(calls, from) && earlier <= from
    ensures Ordered(calls, earlier)
    decreases calls
  {
    if calls != [] && !calls[0].Authenticate? && !calls[0].Verify? { OrderedEarlier(calls[1..], from, earlier); }
  }

  // From every state, for every interval and every guess that is wrong throughout, by its password
  // or by its code, some run evaluates exactly as many wrong attempts as AttemptsBound allows; with
  // a zero counter and no lock that is the whole of LockoutBound.
  lemma LockoutBoundAttained(env: Env, users: Users, user: string, g: Guess, lo: int, hi: int)
    requires env.Valid() && 0 <= lo <= hi && user in users && WrongThroughout(env, users[user], g, lo, hi)
    requires users[user].failed >= 0
    ensures var a, earliest := users[user], Earliest(users, user, lo);
      var n := AttemptsLeft(env, a.failed, earliest, hi);
      && n >= 0
      && (a.failed == 0 && a.lockedUntil <= lo ==> n == env.max * ((hi - lo) / env.lock + 1))
      && var calls := Rounds(env, user, g, earliest, a.failed, n);
      && Ordered(calls, lo) && NoLogin(env, users, calls, user, lo, hi)
      && Misguesses(env, users, calls, user, lo, hi) == n
  {
    var a, earliest := users[user], Earliest(users, user, lo);
    var n := AttemptsLeft(env, a.failed, earliest, hi);
    LaterIsFewer(env, a.failed, earliest, earliest, hi);
    RoundsAllMiss(env, users, user, g, earliest, n, lo, hi);
    OrderedEarlier(Rounds(env, user, g, earliest, a.failed, n), earliest, lo);
  }

  // ------------------------------------------------------------------ no permanent lockout

  // After any run, whatever was attempted, the deadline is at most one lockout after the last
  // clock reading; and from the deadline on the right password (with a valid code where one is
  // asked for and set up) logs in, clears counter and deadline, and leaves every other account
  // as it was.
  lemma NoPermanentLockout(env: Env, users: Users, calls: seq<Call>, from: int,
                           user: string, password: string, code: string, at: Readings)
    requires env.Valid() && 0 <= from && Bounded(env, users, from) && Ordered(calls, from)
    requires user in Run(env, users, calls)
    requires at.check >= Run(env, users, calls)[user].lockedUntil
    requires env.matches(Run(env, users, calls)[user].hash, password)
    requires var a := Run(env, users, calls)[user];
      AsksCode(a) ==> code != "" && a.secret != "" && env.valid(a.secret, code, at.verify)
    ensures var before := Run(env, users, calls);
      var call := Authenticate(user, password, code, at);
      var after := Run(env, users, calls + [call]);
      && before[user].lockedUntil <= LastReading(calls, from) + env.lock
      && after.Keys == before.Keys
      && Apply(env, before, call).reply == LoggedIn(after[user])
      && after[user].failed == 0 && after[user].lockedUntil == ZERO_TIME && after[user].lastLogin == at.stamp
      && forall k <- before :: k != user ==> after[k] == before[k]
  {
    RunKeepsBounds(env, users, calls, from);
    RunConcat(env, users, calls, [Authenticate(user, password, code, at)]);
  }
}
