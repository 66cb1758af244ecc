/** The users file: what a save leaves on disk however it ends, and what a restart loads back. */
module Storage {
  import opened Results
  import opened Accounts

  // A file as the loader sees it. Torn is a file that cannot be read or does not parse.
  datatype Content = Absent | Empty | Torn | Records(list: seq<Account>)

  datatype Disk = Disk(file: Content, tmp: Content)

  // How a save ends: it works; writing the temporary file fails or is cut short, leaving
  // anything there; or the file is written and the rename fails. A crash in the middle of a save
  // leaves the disk of one of these.
  datatype Fault = NoFault | WriteFails(leftover: Content) | RenameFails

  // The temporary file is written whole, then renamed over the users file.
  function Save(disk: Disk, list: seq<Account>, fault: Fault): Disk {
    match fault
    case NoFault => Disk(Records(list), Absent)
    case WriteFails(leftover) => Disk(disk.file, leftover)
    case RenameFails => Disk(disk.file, Records(list))
  }

  // The map a list of records loads to: a later record of one name replaces an earlier one.
  function Index(list: seq<Account>): Users {
    if list == [] then map[]
    else
      var last := list[|list| - 1];
      Index(list[..|list| - 1])[last.username := last]
  }

  // None when the file cannot be read or does not parse.
  function Load(content: Content): Option<Users> {
    match content
    case Absent => Some(map[])
    case Empty => Some(map[])
    case Torn => None
    case Records(list) => Some(Index(list))
  }

  // `order` visits every key of the map once, as one iteration of a Go map does.
  ghost predicate Visits(order: seq<string>, keys: set<string>) {
    && (forall k :: k in order <==> k in keys)
    && (forall i, j :: 0 <= i < j < |order| ==> order[i] != order[j])
  }

  function Listing(users: Users, order: seq<string>): seq<Account>
    requires forall k <- order :: k in users
  {
    seq(|order|, i requires 0 <= i < |order| => users[order[i]])
  }

  // ------------------------------------------------------------------ load undoes save

  lemma {:induction false} IndexListing(users: Users, order: seq<string>)
    requires Keyed(users) && (forall k <- order :: k in users)
    requires forall i, j :: 0 <= i < j < |order| ==> order[i] != order[j]
    ensures Index(Listing(users, order)).Keys == set k <- order
    ensures forall k <- order :: k in Index(Listing(users, order)) && Index(Listing(users, order))[k] == users[k]
  {
    var list := Listing(users, order);
    if order != [] {
      var init, last := order[..|order| - 1], order[|order| - 1];
      IndexListing(users, init);
      assert list[..|list| - 1] == Listing(users, init) && list[|list| - 1] == users[last];
      assert Index(list) == Index(Listing(users, init))[last := users[last]];
      assert order == init + [last];
    }
  }

  // Loading a saved map gives back the map, in whatever order it was written.
  lemma LoadUndoesSave(users: Users, order: seq<string>)
    requires Keyed(users) && Visits(order, users.Keys)
    ensures Load(Records(Listing(users, order))) == Some(users)
  {
    IndexListing(users, order);
    var loaded := Index(Listing(users, order));
    assert loaded.Keys == users.Keys;
    assert forall k <- users.Keys :: k in order && loaded[k] == users[k];
    assert loaded == users;
  }

  // Whatever list a file holds, the loaded map is stored under the accounts' own names.
  lemma {:induction false} LoadedIsKeyed(list: seq<Account>)
    ensures Keyed(Index(list))
  {
    if list != [] { LoadedIsKeyed(list[..|list| - 1]); }
  }

  // ------------------------------------------------------------------ runs with faults and restarts

  datatype Event =
    | Request(call: Call, order: seq<string>, fault: Fault)
    | Restart(hash: Option<string>, bootFault: Fault)

  datatype Machine = Machine(users: Users, disk: Disk)

  ghost predicate Orderly(env: Env, users: Users, e: Event) {
    e.Request? && Apply(env, users, e.call).saves ==> Visits(e.order, Apply(env, users, e.call).users.Keys)
  }

  // A server start: load the file, and only when no account was loaded create and save the
  // administrator. None where the start fails.
  function Boot(disk: Disk, hash: Option<string>, fault: Fault): Option<Machine> {
    match Load(disk.file)
    case None => None
    case Some(users) =>
      if users != map[] then Some(Machine(users, disk))
      else if hash.None? || !fault.NoFault? then None
      else
        var admin := NewAccount(ADMIN, hash.value, ADMIN, false);
        Some(Machine(map[ADMIN := admin], Save(disk, [admin], fault)))
  }

  // A running server: a call works on the map in memory and may save; a restart forgets the map
  // and starts from the file. (A start that fails ends the run; no run reaches one.)
  function Serve(env: Env, m: Machine, e: Event): Machine
    requires Orderly(env, m.users, e)
  {
    match e
    case Request(call, order, fault) =>
      var effect := Apply(env, m.users, call);
      Machine(effect.users, if effect.saves then Save(m.disk, Listing(effect.users, order), fault) else m.disk)
    case Restart(hash, fault) =>
      var started := Boot(m.disk, hash, fault);
      if started.Some? then started.value else Machine(map[], m.disk)
  }

  // What the caller is told: Authenticate ignores a failed save, the other calls report it.
  function Answer(env: Env, users: Users, call: Call, fault: Fault): Reply {
    var effect := Apply(env, users, call);
    if effect.saves && !fault.NoFault? && !call.Authenticate? then SaveFailed else effect.reply
  }

  ghost predicate Served(env: Env, m: Machine, run: seq<Event>)
    decreases run
  {
    run == [] || (Orderly(env, m.users, run[0]) && Served(env, Serve(env, m, run[0]), run[1..]))
  }

  function ServeAll(env: Env, m: Machine, run: seq<Event>): Machine
    requires Served(env, m, run)
    decreases run
  {
    if run == [] then m else ServeAll(env, Serve(env, m, run[0]), run[1..])
  }

  // ------------------------------------------------------------------ the same without files

  // The accounts in memory, and those of the last save that worked. No lists, orders or files.
  datatype Ledger = Ledger(users: Users, saved: Users)

  function Post(env: Env, l: Ledger, e: Event): Ledger {
    match e
    case Request(call, _, fault) =>
      var effect := Apply(env, l.users, call);
      Ledger(effect.users, if effect.saves && fault.NoFault? then effect.users else l.saved)
    case Restart(_, _) => Ledger(l.saved, l.saved)
  }

  function PostAll(env: Env, l: Ledger, run: seq<Event>): Ledger
    decreases run
  {
    if run == [] then l else PostAll(env, Post(env, l, run[0]), run[1..])
  }

  ghost predicate Agree(m: Machine, l: Ledger) {
    && m.users == l.users && Keyed(l.users) && Keyed(l.saved)
    && l.users != map[] && l.saved != map[]
    && Load(m.disk.file) == Some(l.saved)
  }

  // Every start that succeeds, from any disk, begins in agreement with its file.
  lemma BootAgrees(disk: Disk, hash: Option<string>, fault: Fault)
    requires Boot(disk, hash, fault).Some?
    ensures var m := Boot(disk, hash, fault).value; Agree(m, Ledger(m.users, m.users))
  {
    var m := Boot(disk, hash, fault).value;
    if Load(disk.file).value == map[] {
      var admin := NewAccount(ADMIN, hash.value, ADMIN, false);
      assert ADMIN in m.users;
      assert Index([admin]) == Index([])[ADMIN := admin] == m.users;
    } else {
      LoadedIsKeyed(disk.file.list);
    }
  }

  // The account a record list leaves for a name: its last record of that name.
  ghost predicate LastRecord(list: seq<Account>, name: string, a: Account) {
    exists i :: 0 <= i < |list| && list[i] == a && a.username == name && NoneAfter(list, i, name)
  }

  ghost predicate NoneAfter(list: seq<Account>, i: int, name: string) {
    forall j :: i < j < |list| && j >= 0 ==> list[j].username != name
  }

  // Every name of the list, and no other, is indexed, under its last record.
  lemma {:induction false} IndexLast(list: seq<Account>, name: string)
    ensures name in Index(list) <==> exists a <- list :: a.username == name
    ensures name in Index(list) ==> LastRecord(list, name, Index(list)[name])
  {
    if list != [] {
      var init, last := list[..|list| - 1], list[|list| - 1];
      assert list == init + [last];
      IndexLast(init, name);
      if last.username == name {
        assert list[|list| - 1] == last && NoneAfter(list, |list| - 1, name);
      } else if name in Index(init) {
        var i :| 0 <= i < |init| && init[i] == Index(init)[name] && NoneAfter(init, i, name);
        assert list[i] == init[i] && NoneAfter(list, i, name);
      }
    }
  }

  // Every name of the list has its last record, and there is no other name.
  ghost predicate HoldsLastRecords(list: seq<Account>, users: Users) {
    && (forall name :: name in users <==> exists a <- list :: a.username == name)
    && (forall name <- users :: LastRecord(list, name, users[name]))
  }

  // A file with no account in it: missing, empty, or an empty list.
  predicate NoAccounts(file: Content) {
    file == Absent || file == Empty || file == Records([])
  }

  // The accounts of a fresh installation.
  function FirstAccounts(hash: string): Users {
    map["admin" := Account("admin", hash, "", false, false, "admin", 0, 0, 0)]
  }

  // A start fails when the file does not load, or when it holds no account and the first one
  // cannot be made or saved. From a file with accounts it holds the last record of every name and
  // leaves the disk alone; from one without it holds one administrator, and so does the file.
  lemma StartExactly(disk: Disk, hash: Option<string>, fault: Fault)
    ensures Boot(disk, hash, fault).None? <==>
      disk.file.Torn? || (NoAccounts(disk.file) && (hash.None? || !fault.NoFault?))
    ensures disk.file.Records? && disk.file.list != [] ==>
      Boot(disk, hash, fault).value.disk == disk && HoldsLastRecords(disk.file.list, Boot(disk, hash, fault).value.users)
    ensures NoAccounts(disk.file) && hash.Some? && fault.NoFault? ==>
      var m := Boot(disk, hash, fault).value;
      m.users == FirstAccounts(hash.value) && m.disk.file == Records([m.users["admin"]])
  {
    if disk.file.Records? {
      forall name ensures name in Index(disk.file.list) <==> exists a <- disk.file.list :: a.username == name
                  ensures name in Index(disk.file.list) ==> LastRecord(disk.file.list, name, Index(disk.file.list)[name])
      {
        IndexLast(disk.file.list, name);
      }
      if disk.file.list != [] {
        assert disk.file.list[0] in disk.file.list;
        assert disk.file.list[0].username in Index(disk.file.list);
      }
    }
  }

  lemma ServeAgrees(env: Env, m: Machine, l: Ledger, e: Event)
    requires Agree(m, l) && Orderly(env, m.users, e)
    ensures Agree(Serve(env, m, e), Post(env, l, e))
  {
    if e.Request? {
      StepKeeps(env, m.users, e.call);
      var k :| k in m.users;
      assert k in Apply(env, m.users, e.call).users;
      if Apply(env, m.users, e.call).saves {
        LoadUndoesSave(Apply(env, m.users, e.call).users, e.order);
      }
    }
  }

  // In every run of calls, failed saves, crashes and restarts, the file loads to exactly the
  // accounts of the last save that worked, never to a mixture, and a restart resumes from them.
  lemma {:induction false} FileIsLastSave(env: Env, m: Machine, l: Ledger, run: seq<Event>)
    requires Agree(m, l) && Served(env, m, run)
    ensures Agree(ServeAll(env, m, run), PostAll(env, l, run))
    decreases run
  {
    if run != [] {
      ServeAgrees(env, m, l, run[0]);
      FileIsLastSave(env, Serve(env, m, run[0]), Post(env, l, run[0]), run[1..]);
    }
  }

  // A save that is cut short at any point and followed by a restart leaves the accounts of the
  // last save that worked; one that completes leaves the new accounts.
  lemma CrashIsAllOrNothing(env: Env, m: Machine, l: Ledger, e: Event, hash: Option<string>, bootFault: Fault)
    requires Agree(m, l) && Orderly(env, m.users, e) && e.Request? && Apply(env, m.users, e.call).saves
    ensures Serve(env, Serve(env, m, e), Restart(hash, bootFault)).users
         == if e.fault.NoFault? then Apply(env, m.users, e.call).users else l.saved
  {
    ServeAgrees(env, m, l, e);
    ServeAgrees(env, Serve(env, m, e), Post(env, l, e), Restart(hash, bootFault));
  }

  // What a caller is told about saving is true: a call other than Authenticate is answered "save
  // failed" exactly when its save failed, and one that saved and was accepted survives a restart.
  lemma AnswersAreHonest(env: Env, m: Machine, l: Ledger, e: Event, hash: Option<string>, bootFault: Fault)
    requires Agree(m, l) && Orderly(env, m.users, e) && e.Request?
    ensures var answer := Answer(env, m.users, e.call, e.fault);
      && (answer == SaveFailed <==>
            Apply(env, m.users, e.call).saves && !e.fault.NoFault? && !e.call.Authenticate?)
      && (answer != SaveFailed ==> answer == Apply(env, m.users, e.call).reply)
    ensures Apply(env, m.users, e.call).saves && Answer(env, m.users, e.call, e.fault) == Accepted ==>
      Serve(env, Serve(env, m, e), Restart(hash, bootFault)).users == Apply(env, m.users, e.call).users
  {
    if Apply(env, m.users, e.call).saves { CrashIsAllOrNothing(env, m, l, e, hash, bootFault); }
  }

  function Calls(run: seq<Event>): seq<Call> {
    if run == [] then []
    else (if run[0].Request? then [run[0].call] else []) + Calls(run[1..])
  }

  ghost predicate Faultless(run: seq<Event>) {
    forall e <- run :: e.Request? ==> e.fault.NoFault?
  }

  // While saves work, restarts are invisible: the accounts are those of the calls alone, so every
  // property of runs of calls holds across restarts.
  lemma {:induction false} RestartsAreInvisible(env: Env, m: Machine, run: seq<Event>)
    requires Agree(m, Ledger(m.users, m.users)) && Served(env, m, run) && Faultless(run)
    ensures ServeAll(env, m, run).users == Run(env, m.users, Calls(run))
    ensures Load(ServeAll(env, m, run).disk.file) == Some(Run(env, m.users, Calls(run)))
    decreases run
  {
    if run != [] {
      var e := run[0];
      assert e in run;
      ServeAgrees(env, m, Ledger(m.users, m.users), e);
      RestartsAreInvisible(env, Serve(env, m, e), run[1..]);
      if e.Request? {
        if !Apply(env, m.users, e.call).saves { UnsavedChangesNothing(env, m.users, e.call); }
        assert Calls(run)[1..] == Calls(run[1..]);
      } else {
        assert Calls(run) == Calls(run[1..]);
      }
    }
  }

  // A wrong attempt that counts, while file and memory agree, survives a restart exactly when its
  // save worked: Authenticate ignores one that failed, and then the restart forgets the raised
  // counter, or the lock.
  lemma MissSurvivesIffSaved(env: Env, m: Machine, e: Event, hash: Option<string>, bootFault: Fault)
    requires env.Valid() && Agree(m, Ledger(m.users, m.users)) && Orderly(env, m.users, e)
    requires e.Request? && e.call.Authenticate? && e.call.at.check <= e.call.at.stamp
    requires Apply(env, m.users, e.call).reply == WrongPassword || Apply(env, m.users, e.call).reply == WrongCode
    ensures var after := Serve(env, Serve(env, m, e), Restart(hash, bootFault)).users;
      && (after == Apply(env, m.users, e.call).users <==> e.fault.NoFault?)
      && (!e.fault.NoFault? ==> after == m.users)
  {
    CrashIsAllOrNothing(env, m, Ledger(m.users, m.users), e, hash, bootFault);
    MissShows(env, m.users, e.call);
  }

  lemma MissShows(env: Env, users: Users, call: Call)
    requires env.Valid() && call.Authenticate? && call.at.check <= call.at.stamp
    requires Apply(env, users, call).reply == WrongPassword || Apply(env, users, call).reply == WrongCode
    ensures Apply(env, users, call).saves && Apply(env, users, call).users != users
  {
    assert Apply(env, users, call).users[call.user] == Penalise(env, users[call.user], call.at.stamp);
  }
}
