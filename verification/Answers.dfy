/** When each Manager call gives which answer, and what it leaves, read off the stored fields and
    the request alone: the predicates and constants here are written out and share nothing with the
    definition of the calls. */
module Answers {
  import opened Results
  import opened Accounts

  // Does Authenticate get past the lock, and past the password?
  predicate Unlocked(users: Users, call: Call) {
    call.Authenticate? && call.user in users && call.at.check >= users[call.user].lockedUntil
  }

  predicate KnowsPassword(env: Env, users: Users, call: Call) {
    Unlocked(users, call) && env.matches(users[call.user].hash, call.password)
  }

  // Is a code asked for?
  predicate AsksCode(a: Account) {
    a.requireTotp || (a.verified && a.secret != "")
  }

  // A password or a code that is evaluated and wrong.
  predicate WrongAttempt(env: Env, users: Users, call: Call) {
    && Unlocked(users, call)
    && (env.matches(users[call.user].hash, call.password) ==>
          var a := users[call.user];
          AsksCode(a) && call.code != "" && a.secret != "" && !env.valid(a.secret, call.code, call.at.verify))
  }

  // Everything asked for is right.
  predicate RightAttempt(env: Env, users: Users, call: Call) {
    && KnowsPassword(env, users, call)
    && var a := users[call.user];
    AsksCode(a) ==> call.code != "" && a.secret != "" && env.valid(a.secret, call.code, call.at.verify)
  }

  // Each answer of Authenticate has its own condition on the account and the request.
  lemma AuthenticateAnswers(env: Env, users: Users, call: Call)
    requires call.Authenticate?
    ensures var r := Apply(env, users, call).reply;
      && (r == UnknownUser <==> call.user !in users)
      && (r == Locked <==> call.user in users && call.at.check < users[call.user].lockedUntil)
      && (r == WrongPassword || r == WrongCode <==> WrongAttempt(env, users, call))
      && (r == WrongPassword <==> Unlocked(users, call) && !env.matches(users[call.user].hash, call.password))
      && (r == CodeRequired <==>
            KnowsPassword(env, users, call) && AsksCode(users[call.user]) && call.code == "")
      && (r == NotConfigured <==>
            && KnowsPassword(env, users, call) && AsksCode(users[call.user])
            && call.code != "" && users[call.user].secret == "")
      && (r.LoggedIn? <==> RightAttempt(env, users, call))
  {}

  // A wrong attempt is counted, or at the limit locks and clears the count; a right one clears
  // both; both are saved; any other answer changes and saves nothing. Nothing else changes.
  lemma AuthenticateLeaves(env: Env, users: Users, call: Call)
    requires call.Authenticate?
    ensures var effect := Apply(env, users, call);
      && (effect.saves <==> WrongAttempt(env, users, call) || RightAttempt(env, users, call))
      && (!effect.saves ==> effect.users == users)
      && (WrongAttempt(env, users, call) ==>
            var a := users[call.user];
            effect.users == users[call.user :=
              if a.failed + 1 < env.max then a.(failed := a.failed + 1)
              else a.(failed := 0, lockedUntil := call.at.stamp + env.lock)])
      && (RightAttempt(env, users, call) ==>
            var b := users[call.user].(failed := 0, lockedUntil := 0, lastLogin := call.at.stamp);
            effect.users == users[call.user := b] && effect.reply == LoggedIn(b))
  {
    AuthenticateAnswers(env, users, call);
  }

  // Registering needs a free name; the account has the given role and requirement, and nothing else.
  lemma RegisterAnswers(env: Env, users: Users, user: string, hash: Option<string>, role: string, requireTotp: bool)
    ensures var effect := Apply(env, users, Register(user, hash, role, requireTotp));
      && (effect.reply == AlreadyExists <==> user in users)
      && (effect.reply == HashFailed <==> user !in users && hash.None?)
      && (effect.reply == Accepted <==> user !in users && hash.Some?)
      && (effect.saves <==> effect.reply == Accepted)
      && effect.users == if effect.reply == Accepted
                         then users[user := Account(user, hash.value, "", false, requireTotp, role, 0, 0, 0)] else users
  {}

  // Enrolling replaces the secret, unproven; the requirement of a code stays as it was.
  lemma SetSecretAnswers(env: Env, users: Users, user: string, secret: string)
    ensures var effect := Apply(env, users, SetSecret(user, secret));
      && (effect.reply == Accepted <==> user in users)
      && (effect.reply == UnknownUser <==> user !in users)
      && (effect.saves <==> effect.reply == Accepted)
      && effect.users == if user in users then users[user := users[user].(secret := secret, verified := false)] else users
  {}

  // A code valid for the stored secret is accepted, and marks it verified and required.
  lemma VerifyAnswers(env: Env, users: Users, user: string, code: string, now: int)
    ensures var effect := Apply(env, users, Verify(user, code, now));
      && (effect.reply == UnknownUser <==> user !in users)
      && (effect.reply == NotConfigured <==> user in users && users[user].secret == "")
      && (effect.reply == WrongCode <==>
            user in users && users[user].secret != "" && !env.valid(users[user].secret, code, now))
      && (effect.reply == Accepted <==>
            user in users && users[user].secret != "" && env.valid(users[user].secret, code, now))
      && (effect.saves <==> effect.reply == Accepted)
      && effect.users == if effect.reply == Accepted
                         then users[user := users[user].(verified := true, requireTotp := true)] else users
  {}

  // A new password of eight bytes or more is accepted from who knows the old one.
  lemma ChangePasswordAnswers(env: Env, users: Users, user: string, oldPassword: string,
                              newPassword: string, hash: Option<string>)
    ensures var effect := Apply(env, users, ChangePassword(user, oldPassword, newPassword, hash));
      && (effect.reply == UnknownUser <==> user !in users)
      && (effect.reply == WrongPassword <==> user in users && !env.matches(users[user].hash, oldPassword))
      && (effect.reply == TooShort <==> user in users && env.matches(users[user].hash, oldPassword) && |newPassword| <= 7)
      && (effect.reply == HashFailed <==>
            user in users && env.matches(users[user].hash, oldPassword) && |newPassword| >= 8 && hash.None?)
      && (effect.reply == Accepted <==>
            user in users && env.matches(users[user].hash, oldPassword) && |newPassword| >= 8 && hash.Some?)
      && (effect.saves <==> effect.reply == Accepted)
      && effect.users == if effect.reply == Accepted then users[user := users[user].(hash := hash.value)] else users
  {}

  // The administrator is created once, with no code required.
  lemma BootstrapAnswers(env: Env, users: Users, hash: Option<string>)
    ensures var effect := Apply(env, users, EnsureBootstrap(hash));
      && (effect.reply == Accepted <==> "admin" in users || hash.Some?)
      && (effect.reply == HashFailed <==> "admin" !in users && hash.None?)
      && (effect.saves <==> "admin" !in users && hash.Some?)
      && effect.users == if effect.saves
                         then users["admin" := Account("admin", hash.value, "", false, false, "admin", 0, 0, 0)] else users
  {}
}
