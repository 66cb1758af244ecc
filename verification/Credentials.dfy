/** A changed password and an enrolled secret are what later calls check, until they change again. */
module Credentials {
  import opened Results
  import opened Accounts
  import opened Answers

  ghost predicate NoPasswordChange(calls: seq<Call>, user: string) {
    forall c <- calls :: !(c.ChangePassword? && c.user == user)
  }

  ghost predicate NoEnrolment(calls: seq<Call>, user: string) {
    forall c <- calls :: !(c.SetSecret? && c.user == user)
  }

  lemma {:induction false} HashKept(env: Env, users: Users, calls: seq<Call>, user: string)
    requires user in users && NoPasswordChange(calls, user)
    ensures user in Run(env, users, calls) && Run(env, users, calls)[user].hash == users[user].hash
    decreases calls
  {
    if calls != [] {
      assert calls[0] in calls;
      HashKept(env, Apply(env, users, calls[0]).users, calls[1..], user);
    }
  }

  // After a password change only a password that matches the new hash gets past the password
  // check, whatever ran in between; the change itself needed the old password and eight characters.
  lemma PasswordChangeTakesEffect(env: Env, users: Users, change: Call, calls: seq<Call>, login: Call)
    requires change.ChangePassword? && Apply(env, users, change).reply == Accepted
    requires NoPasswordChange(calls, change.user)
    requires login.Authenticate? && login.user == change.user
    ensures var user, after := change.user, Run(env, users, [change] + calls);
      && user in users && env.matches(users[user].hash, change.password) && |change.newPassword| >= 8
      && user in after && change.hash.Some?
      && (Apply(env, after, login).reply == WrongPassword
          <==> login.at.check >= after[user].lockedUntil && !env.matches(change.hash.value, login.password))
      && after[user].hash == change.hash.value
      && (Apply(env, after, login).reply.LoggedIn? <==> RightAttempt(env, after, login))
  {
    assert ([change] + calls)[1..] == calls;
    HashKept(env, Apply(env, users, change).users, calls, change.user);
    AuthenticateAnswers(env, Run(env, users, [change] + calls), login);
  }

  // A registration takes a free name; afterwards, until the password changes, a login of that name
  // needs a password matching the registered hash, a valid code if one was required, and yields
  // the registered role.
  lemma RegistrationTakesEffect(env: Env, users: Users, register: Call, calls: seq<Call>, login: Call)
    requires register.Register? && Apply(env, users, register).reply == Accepted
    requires NoPasswordChange(calls, register.user)
    requires login.Authenticate? && login.user == register.user
    ensures var user, after := register.user, Run(env, users, [register] + calls);
      && user !in users && user in after && register.hash.Some?
      && (Apply(env, after, login).reply.LoggedIn? ==>
            && env.matches(register.hash.value, login.password)
            && Apply(env, after, login).reply.account.role == register.role
            && (register.requireTotp ==> login.code != "" && env.valid(after[user].secret, login.code, login.at.verify)))
  {
    var added := Apply(env, users, register).users;
    assert ([register] + calls)[1..] == calls;
    assert added[register.user] == NewAccount(register.user, register.hash.value, register.role, register.requireTotp);
    HashKept(env, added, calls, register.user);
    RunKeeps(env, added, calls);
  }

  // The account a call creates, and whether it requires a code.
  predicate Creates(env: Env, users: Users, create: Call, user: string, hash: string, requireTotp: bool) {
    && user !in users && Apply(env, users, create).reply == Accepted
    && match create
       case Register(name, h, _, required) => name == user && h == Some(hash) && required == requireTotp
       case EnsureBootstrap(h) => user == "admin" && h == Some(hash) && !requireTotp
       case _ => false
  }

  // Without a secret no code is ever proven, so the requirement stays as it was.
  lemma {:induction false} BareStaysBare(env: Env, users: Users, calls: seq<Call>, user: string)
    requires user in users && users[user].secret == "" && NoEnrolment(calls, user)
    ensures var after := Run(env, users, calls);
      user in after && after[user].secret == "" && after[user].requireTotp == users[user].requireTotp
    decreases calls
  {
    if calls != [] {
      assert calls[0] in calls;
      BareStaysBare(env, Apply(env, users, calls[0]).users, calls[1..], user);
    }
  }

  // A registered or bootstrapped account, until its password changes or a secret is enrolled: an
  // unlocked login succeeds with the password alone exactly when no code was required; when one
  // was, no login succeeds at all.
  lemma NewAccountLogsIn(env: Env, users: Users, create: Call, calls: seq<Call>, login: Call,
                         user: string, hash: string, requireTotp: bool)
    requires Creates(env, users, create, user, hash, requireTotp)
    requires NoPasswordChange(calls, user) && NoEnrolment(calls, user)
    requires login.Authenticate? && login.user == user
    ensures var after := Run(env, users, [create] + calls);
      && user in after
      && (Apply(env, after, login).reply.LoggedIn? <==>
            login.at.check >= after[user].lockedUntil && env.matches(hash, login.password) && !requireTotp)
  {
    var made := Apply(env, users, create).users;
    assert ([create] + calls)[1..] == calls;
    assert made[user].hash == hash && made[user].secret == "" && made[user].requireTotp == requireTotp;
    HashKept(env, made, calls, user);
    BareStaysBare(env, made, calls, user);
    AuthenticateAnswers(env, Run(env, made, calls), login);
  }

  // Once a bootstrap has succeeded there is an administrator for good, and later bootstraps, with
  // whatever hash, change and save nothing.
  lemma BootstrapOnce(env: Env, users: Users, hash: Option<string>, calls: seq<Call>, again: Option<string>)
    requires Apply(env, users, EnsureBootstrap(hash)).reply == Accepted
    ensures var after := Run(env, users, [EnsureBootstrap(hash)] + calls);
      && ADMIN in after && (ADMIN !in users ==> after[ADMIN].role == ADMIN)
      && Apply(env, after, EnsureBootstrap(again)) == Effect(after, Accepted, false)
  {
    assert ([EnsureBootstrap(hash)] + calls)[1..] == calls;
    RunKeeps(env, Apply(env, users, EnsureBootstrap(hash)).users, calls);
  }

  // Call i of the run is a VerifyTOTP of `user` with a code valid for `secret`.
  ghost predicate ProvenAt(env: Env, calls: seq<Call>, i: int, user: string, secret: string) {
    0 <= i < |calls| && calls[i].Verify? && calls[i].user == user && env.valid(secret, calls[i].code, calls[i].now)
  }

  lemma {:induction false} SecretKept(env: Env, users: Users, calls: seq<Call>, user: string)
    requires user in users && NoEnrolment(calls, user)
    ensures var after := Run(env, users, calls);
      && user in after && after[user].secret == users[user].secret
      && (after[user].verified && !users[user].verified ==>
            exists i :: ProvenAt(env, calls, i, user, users[user].secret))
    decreases calls
  {
    if calls != [] {
      assert calls[0] in calls;
      var next := Apply(env, users, calls[0]).users;
      SecretKept(env, next, calls[1..], user);
      ProofShifts(env, calls, user, users[user].secret);
      SecretStep(env, users, calls[0], user);
      if calls[0].Verify? && calls[0].user == user && env.valid(users[user].secret, calls[0].code, calls[0].now) {
        assert ProvenAt(env, calls, 0, user, users[user].secret);
      }
    }
  }

  // What one call that is no enrolment of the user does to the secret and the verified mark.
  lemma SecretStep(env: Env, users: Users, call: Call, user: string)
    requires user in users && !(call.SetSecret? && call.user == user)
    ensures var next := Apply(env, users, call).users;
      && user in next && next[user].secret == users[user].secret
      && (next[user].verified && !users[user].verified ==>
            call.Verify? && call.user == user && env.valid(users[user].secret, call.code, call.now))
  {}

  lemma ProofShifts(env: Env, calls: seq<Call>, user: string, secret: string)
    requires calls != []
    ensures (exists i :: ProvenAt(env, calls[1..], i, user, secret)) ==> exists i :: ProvenAt(env, calls, i, user, secret)
  {
    if i :| ProvenAt(env, calls[1..], i, user, secret) {
      assert ProvenAt(env, calls, i + 1, user, secret);
    }
  }

  // A secret enrolled stays the one codes are checked against, and counts as verified only once a
  // code valid for that very secret was presented.
  lemma EnrolmentNeedsProof(env: Env, users: Users, enrol: Call, calls: seq<Call>)
    requires enrol.SetSecret? && Apply(env, users, enrol).reply == Accepted && NoEnrolment(calls, enrol.user)
    ensures var after := Run(env, users, [enrol] + calls);
      && enrol.user in after && after[enrol.user].secret == enrol.secret
      && (after[enrol.user].verified ==> exists i :: ProvenAt(env, calls, i, enrol.user, enrol.secret))
  {
    assert ([enrol] + calls)[1..] == calls;
    SecretKept(env, Apply(env, users, enrol).users, calls, enrol.user);
  }

  // Until the next enrolment exactly the codes valid for that secret are accepted as proof, and
  // from the first one on every login is asked for a code.
  lemma EnrolmentCompletes(env: Env, users: Users, enrol: Call, calls: seq<Call>, verify: Call)
    requires enrol.SetSecret? && enrol.user in users && enrol.secret != "" && NoEnrolment(calls, enrol.user)
    requires verify.Verify? && verify.user == enrol.user
    ensures var before := Run(env, users, [enrol] + calls);
      var effect := Apply(env, before, verify);
      && (effect.reply == Accepted <==> env.valid(enrol.secret, verify.code, verify.now))
      && enrol.user in effect.users
      && (effect.reply == Accepted ==>
            effect.users[enrol.user].verified && effect.users[enrol.user].requireTotp && AsksCode(effect.users[enrol.user]))
  {
    EnrolmentNeedsProof(env, users, enrol, calls);
    VerifyAnswers(env, Run(env, users, [enrol] + calls), verify.user, verify.code, verify.now);
  }
}
