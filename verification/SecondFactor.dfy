/** Once a second factor is verified, no later login goes without it. */
module SecondFactor {
  import opened Accounts
  import opened Results
  import opened Storage

  // In a state where verified implies required, the second half of the test in Authenticate is
  // redundant, and every run stays in such states.
  lemma CodeNeededIffRequired(env: Env, users: Users, calls: seq<Call>)
    requires VerifiedRequired(users)
    ensures forall k <- Run(env, users, calls) ::
      NeedsCode(Run(env, users, calls)[k]) <==> Run(env, users, calls)[k].requireTotp
  {
    RunKeeps(env, users, calls);
  }

  // A call with an account in it that requires a code logs in only with a code valid for the
  // secret stored at that moment.
  lemma RequiredMeansChecked(env: Env, users: Users, call: Call, user: string)
    requires user in users && users[user].requireTotp
    requires call.Authenticate? && call.user == user && Apply(env, users, call).reply.LoggedIn?
    ensures call.code != "" && users[user].secret != ""
    ensures env.valid(users[user].secret, call.code, call.at.verify)
  {}

  // After VerifyTOTP succeeds for a user, every later successful login of that user supplied a
  // code valid for the secret stored then, whatever ran in between, re-enrolment included.
  lemma SecondFactorStays(env: Env, users: Users, verify: Call, calls: seq<Call>, login: Call, user: string)
    requires verify.Verify? && verify.user == user && Apply(env, users, verify).reply == Accepted
    requires login.Authenticate? && login.user == user
    requires Apply(env, Run(env, users, [verify] + calls), login).reply.LoggedIn?
    ensures var before := Run(env, users, [verify] + calls);
      && user in before && before[user].requireTotp
      && login.code != "" && env.valid(before[user].secret, login.code, login.at.verify)
  {
    var verified := Apply(env, users, verify).users;
    assert ([verify] + calls)[1..] == calls;
    RunKeeps(env, verified, calls);
    assert user in verified && verified[user].requireTotp;
    RequiredMeansChecked(env, Run(env, verified, calls), login, user);
  }

  // In memory and in the file alike, the user is there and a code is required.
  ghost predicate RequiredEverywhere(l: Ledger, user: string) {
    user in l.users && l.users[user].requireTotp && user in l.saved && l.saved[user].requireTotp
  }

  lemma {:induction false} StaysRequired(env: Env, l: Ledger, run: seq<Event>, user: string)
    requires RequiredEverywhere(l, user)
    ensures RequiredEverywhere(PostAll(env, l, run), user)
    decreases run
  {
    if run != [] {
      if run[0].Request? { StepKeeps(env, l.users, run[0].call); }
      StaysRequired(env, Post(env, l, run[0]), run[1..], user);
    }
  }

  // The same over runs with failed saves, crashes and restarts: the caller was told that
  // VerifyTOTP succeeded, so its save worked, and no restart goes back behind it.
  lemma SecondFactorSurvivesRestarts(env: Env, m: Machine, l: Ledger, verify: Event, run: seq<Event>, login: Call, user: string)
    requires Agree(m, l) && Served(env, m, [verify] + run)
    requires verify.Request? && verify.call.Verify? && verify.call.user == user
    requires Answer(env, m.users, verify.call, verify.fault) == Accepted
    requires login.Authenticate? && login.user == user
    requires Apply(env, ServeAll(env, m, [verify] + run).users, login).reply.LoggedIn?
    ensures var before := ServeAll(env, m, [verify] + run).users;
      && user in before && before[user].requireTotp
      && login.code != "" && env.valid(before[user].secret, login.code, login.at.verify)
  {
    assert ([verify] + run)[1..] == run;
    FileIsLastSave(env, m, l, [verify] + run);
    assert RequiredEverywhere(Post(env, l, verify), user);
    StaysRequired(env, Post(env, l, verify), run, user);
    RequiredMeansChecked(env, ServeAll(env, m, [verify] + run).users, login, user);
  }

  // No run changes the role of an account that exists, or removes it.
  lemma RolesNeverChange(env: Env, users: Users, calls: seq<Call>, user: string)
    requires user in users
    ensures user in Run(env, users, calls) && Run(env, users, calls)[user].role == users[user].role
  {
    RunKeeps(env, users, calls);
  }
}
