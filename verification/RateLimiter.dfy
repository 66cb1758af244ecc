/** The request limiter. Its own comment calls it a sliding window; what the code keeps is a
    fixed window that restarts, so the sharp bound on a sliding interval is larger than the limit. */
module RateLimiter {
  import opened Arithmetic

  // Times are nanoseconds.
  const MINUTE := 60_000_000_000

  datatype Config = Config(limit: int, window: int) {
    ghost predicate Valid() { limit >= 1 && window >= 1 }
  }

  datatype Window = Window(start: int, count: int)
  datatype Request = Request(key: string, now: int)
  type Windows = map<string, Window>

  // ------------------------------------------------------------------ specification

  // Does this call open a window for its key?
  predicate Opens(cfg: Config, ws: Windows, r: Request) {
    r.key !in ws || r.now - ws[r.key].start >= cfg.window
  }

  // The key's window after a call; a denied call is counted too.
  function Touch(cfg: Config, ws: Windows, r: Request): Window {
    if Opens(cfg, ws, r) then Window(r.now, 1) else Window(ws[r.key].start, ws[r.key].count + 1)
  }

  function Next(cfg: Config, ws: Windows, r: Request): Windows {
    ws[r.key := Touch(cfg, ws, r)]
  }

  predicate Admits(cfg: Config, ws: Windows, r: Request) {
    Opens(cfg, ws, r) || Touch(cfg, ws, r).count <= cfg.limit
  }

  function After(cfg: Config, ws: Windows, run: seq<Request>): Windows
    decreases run
  {
    if run == [] then ws else After(cfg, Next(cfg, ws, run[0]), run[1..])
  }

  function Decisions(cfg: Config, ws: Windows, run: seq<Request>): seq<bool>
    decreases run
  {
    if run == [] then []
    else [Admits(cfg, ws, run[0])] + Decisions(cfg, Next(cfg, ws, run[0]), run[1..])
  }

  // Requests of one key admitted at a time in [lo, hi).
  function Admitted(cfg: Config, ws: Windows, run: seq<Request>, key: string, lo: int, hi: int): nat
    decreases run
  {
    if run == [] then 0
    else
      (if run[0].key == key && lo <= run[0].now < hi && Admits(cfg, ws, run[0]) then 1 else 0)
      + Admitted(cfg, Next(cfg, ws, run[0]), run[1..], key, lo, hi)
  }

  // The key's calls carry nondecreasing times, none before `from`.
  ghost predicate Ascending(run: seq<Request>, key: string, from: int) {
    run == [] ||
    if run[0].key == key then from <= run[0].now && Ascending(run[1..], key, run[0].now)
    else Ascending(run[1..], key, from)
  }

  // Every window counts the admission that opened it.
  ghost predicate Counted(ws: Windows) {
    forall k <- ws :: ws[k].count >= 1
  }

  // ------------------------------------------------------------------ the limiter itself

  class RequestInfo {
    var count: int
    const windowStart: int

    constructor (windowStart: int)
      ensures count == 1 && this.windowStart == windowStart
    {
      count := 1;
      this.windowStart := windowStart;
    }
  }

  class Limiter {
    var entries: map<string, RequestInfo>
    const limit: int
    const window: int

    ghost predicate Valid()
      reads this
    {
      && Cfg().Valid()
      && forall j, k :: j in entries && k in entries && j != k ==> entries[j] != entries[k]
    }

    ghost function Cfg(): Config { Config(limit, window) }

    ghost function View(): Windows
      reads this, entries.Values
    {
      map k <- entries :: Window(entries[k].windowStart, entries[k].count)
    }

    constructor (limit: int, window: int)
      ensures Valid() && View() == map[]
      ensures this.limit == if limit <= 0 then 100 else limit
      ensures this.window == if window <= 0 then 60 * 1_000_000_000 else window
    {
      this.limit := if limit <= 0 then 100 else limit;
      this.window := if window <= 0 then MINUTE else window;
      entries := map[];
    }

    method Allow(key: string, now: int) returns (ok: bool)
      requires Valid()
      modifies this, entries.Values
      ensures Valid() && forall k <- entries :: entries[k] in old(entries.Values) || fresh(entries[k])
      ensures View() == Next(Cfg(), old(View()), Request(key, now))
      ensures ok == Admits(Cfg(), old(View()), Request(key, now))
      ensures ok <==> key !in old(entries) || now - old(View())[key].start >= window || old(View())[key].count + 1 <= limit
    {
      if key !in entries || now - entries[key].windowStart >= window {
        var info := new RequestInfo(now);
        entries := entries[key := info];
        return true;
      }
      var info := entries[key];
      info.count := info.count + 1;
      return info.count <= limit;
    }
  }

  // ------------------------------------------------------------------ sliding intervals

  function Min(a: int, b: int): int { if a < b then a else b }

  // Whole windows needed to cover a length.
  function Ceiling(length: int, window: int): (n: nat)
    requires window >= 1
    decreases if length <= 0 then 0 else length
  {
    if length <= 0 then 0 else 1 + Ceiling(length - window, window)
  }

  lemma {:induction false} CeilingMonotone(a: int, b: int, window: int)
    requires window >= 1 && a <= b
    ensures Ceiling(a, window) <= Ceiling(b, window)
    decreases if b <= 0 then 0 else b
  {
    if a > 0 { CeilingMonotone(a - window, b - window, window); }
  }

  lemma {:induction false} CeilingExact(k: nat, window: int)
    requires window >= 1
    ensures Ceiling(window * k, window) == k
  {
    if k > 0 {
      MulNext(window, k - 1);
      MulMonotone(window, 0, k - 1);
      CeilingExact(k - 1, window);
    }
  }

  // What a key can still be admitted before `hi`: the rest of its window, then whole windows.
  function Allowance(cfg: Config, w: Window, hi: int): int
    requires cfg.Valid()
  {
    cfg.limit - Min(w.count, cfg.limit) + cfg.limit * Ceiling(hi - (w.start + cfg.window), cfg.window)
  }

  lemma AllowanceShrinks(cfg: Config, w: Window, now: int, hi: int)
    requires cfg.Valid() && now - w.start >= cfg.window && now < hi
    ensures Allowance(cfg, w, hi) >= 1 + Allowance(cfg, Window(now, 1), hi)
  {
    var rest := hi - (w.start + cfg.window);
    CeilingMonotone(hi - now, rest, cfg.window);
    MulMonotone(cfg.limit, Ceiling(hi - now, cfg.window), Ceiling(rest, cfg.window));
    var inner := Ceiling(hi - now - cfg.window, cfg.window);
    assert cfg.limit * (1 + inner) == cfg.limit + cfg.limit * inner;
    assert hi - now - cfg.window == hi - (now + cfg.window);
  }

  // Once a call of the key is at `hi` or later, so are all that follow.
  ghost predicate Settles(run: seq<Request>, key: string, hi: int) {
    run == [] ||
    (Settles(run[1..], key, hi)
     && (run[0].key == key && run[0].now >= hi ==> forall r <- run[1..] :: r.key == key ==> r.now >= hi))
  }

  lemma {:induction false} AscendingSettles(run: seq<Request>, key: string, from: int, hi: int)
    requires Ascending(run, key, from)
    ensures Settles(run, key, hi)
    ensures forall r <- run :: r.key == key ==> r.now >= from
  {
    if run != [] {
      AscendingSettles(run[1..], key, if run[0].key == key then run[0].now else from, hi);
    }
  }

  lemma {:induction false} NoneCounted(cfg: Config, ws: Windows, run: seq<Request>, key: string, lo: int, hi: int)
    requires forall r <- run :: r.key == key ==> r.now >= hi
    ensures Admitted(cfg, ws, run, key, lo, hi) == 0
    decreases run
  {
    if run != [] { NoneCounted(cfg, Next(cfg, ws, run[0]), run[1..], key, lo, hi); }
  }

  // From inside a window, admissions before `hi` never exceed the allowance.
  lemma {:induction false} AllowanceBounds(cfg: Config, ws: Windows, run: seq<Request>, key: string, lo: int, hi: int)
    requires cfg.Valid() && key in ws && ws[key].count >= 1 && Settles(run, key, hi)
    ensures Admitted(cfg, ws, run, key, lo, hi) <= Allowance(cfg, ws[key], hi)
    decreases run
  {
    MulMonotone(cfg.limit, 0, Ceiling(hi - (ws[key].start + cfg.window), cfg.window));
    if run != [] {
      var r := run[0];
      if r.key == key && r.now >= hi {
        NoneCounted(cfg, Next(cfg, ws, r), run[1..], key, lo, hi);
      } else {
        AllowanceBounds(cfg, Next(cfg, ws, r), run[1..], key, lo, hi);
        if r.key == key && Opens(cfg, ws, r) {
          AllowanceShrinks(cfg, ws[key], r.now, hi);
        }
      }
    }
  }

  // Any half-open interval of k windows admits at most (k+1)*limit - 1 requests of a key.
  lemma {:induction false} SlidingBound(cfg: Config, ws: Windows, run: seq<Request>, key: string, from: int, lo: int, k: int)
    requires cfg.Valid() && Counted(ws) && Ascending(run, key, from) && k >= 1
    ensures Admitted(cfg, ws, run, key, lo, lo + cfg.window * k) <= cfg.limit * (k + 1) - 1
    decreases run
  {
    if run != [] {
      var r := run[0];
      if r.key != key || r.now < lo {
        SlidingBound(cfg, Next(cfg, ws, r), run[1..], key, if r.key == key then r.now else from, lo, k);
      } else {
        FromFirstInside(cfg, ws, run, key, from, lo, k);
      }
    } else {
      MulMonotone(cfg.limit, 1, k + 1);
    }
  }

  lemma FromFirstInside(cfg: Config, ws: Windows, run: seq<Request>, key: string, from: int, lo: int, k: int)
    requires cfg.Valid() && Counted(ws) && Ascending(run, key, from) && k >= 1
    requires run != [] && run[0].key == key && run[0].now >= lo
    ensures Admitted(cfg, ws, run, key, lo, lo + cfg.window * k) <= cfg.limit * (k + 1) - 1
  {
    var r, hi := run[0], lo + cfg.window * k;
    AscendingSettles(run, key, from, hi);
    MulNext(cfg.limit, k);
    MulNext(cfg.limit, k - 1);
    MulMonotone(cfg.limit, 1, k);
    if r.now >= hi {
      AscendingSettles(run, key, r.now, hi);
      NoneCounted(cfg, ws, run, key, lo, hi);
    } else if Opens(cfg, ws, r) {
      OpeningBound(cfg, ws, run, key, lo, hi);
      MulNext(cfg.window, k - 1);
      CoveredBy(cfg, hi - (r.now + cfg.window), k - 1);
    } else {
      AllowanceBounds(cfg, ws, run, key, lo, hi);
      CoveredBy(cfg, hi - (ws[key].start + cfg.window), k);
    }
  }

  lemma OpeningBound(cfg: Config, ws: Windows, run: seq<Request>, key: string, lo: int, hi: int)
    requires cfg.Valid() && run != [] && Settles(run, key, hi)
    requires run[0].key == key && Opens(cfg, ws, run[0])
    ensures Admitted(cfg, ws, run, key, lo, hi)
         <= cfg.limit + cfg.limit * Ceiling(hi - (run[0].now + cfg.window), cfg.window)
  {
    AllowanceBounds(cfg, Next(cfg, ws, run[0]), run[1..], key, lo, hi);
  }

  // A length of at most k windows is covered by k windows.
  lemma CoveredBy(cfg: Config, length: int, k: int)
    requires cfg.Valid() && k >= 0 && length <= cfg.window * k
    ensures cfg.limit * Ceiling(length, cfg.window) <= cfg.limit * k
  {
    CeilingMonotone(length, cfg.window * k, cfg.window);
    CeilingExact(k, cfg.window);
    MulMonotone(cfg.limit, Ceiling(length, cfg.window), k);
  }

  // ------------------------------------------------------------------ the bound is attained

  function Repeat(key: string, now: int, n: nat): seq<Request> {
    seq(n, _ => Request(key, now))
  }

  // `n` bursts of `limit` requests, one window apart.
  function Bursts(cfg: Config, key: string, first: int, n: nat): seq<Request>
    requires cfg.Valid()
    decreases n
  {
    if n == 0 then [] else Repeat(key, first, cfg.limit) + Bursts(cfg, key, first + cfg.window, n - 1)
  }

  // One request, then as many as the limit allows just before the window ends, then the bursts.
  function Densest(cfg: Config, key: string, k: nat): seq<Request>
    requires cfg.Valid()
  {
    [Request(key, 0)] + Repeat(key, cfg.window - 1, cfg.limit - 1) + Bursts(cfg, key, cfg.window, k)
  }

  lemma {:induction false} RepeatAdmitted(cfg: Config, ws: Windows, key: string, now: int, n: nat, rest: seq<Request>, lo: int, hi: int)
    requires cfg.Valid() && lo <= now < hi && key in ws
    requires now - ws[key].start < cfg.window && ws[key].count + n <= cfg.limit
    ensures Admitted(cfg, ws, Repeat(key, now, n) + rest, key, lo, hi)
         == n + Admitted(cfg, ws[key := Window(ws[key].start, ws[key].count + n)], rest, key, lo, hi)
    decreases n
  {
    var run := Repeat(key, now, n) + rest;
    if n == 0 {
      assert run == rest;
      assert ws[key := ws[key]] == ws;
    } else {
      var ws' := Next(cfg, ws, run[0]);
      assert run[1..] == Repeat(key, now, n - 1) + rest;
      RepeatAdmitted(cfg, ws', key, now, n - 1, rest, lo, hi);
      assert ws'[key := Window(ws[key].start, ws[key].count + n)] == ws[key := Window(ws[key].start, ws[key].count + n)];
    }
  }

  lemma {:induction false} BurstsAdmitted(cfg: Config, ws: Windows, key: string, first: int, n: nat, lo: int, hi: int)
    requires cfg.Valid() && key in ws && first - ws[key].start >= cfg.window
    requires lo <= first && first + cfg.window * (n - 1) < hi
    ensures Admitted(cfg, ws, Bursts(cfg, key, first, n), key, lo, hi) == cfg.limit * n
    decreases n
  {
    if n > 0 {
      var run, rest := Bursts(cfg, key, first, n), Bursts(cfg, key, first + cfg.window, n - 1);
      MulNext(cfg.window, n - 2);
      MulNext(cfg.limit, n - 1);
      MulMonotone(cfg.window, 0, n - 1);
      var ws' := Next(cfg, ws, run[0]);
      assert run[1..] == Repeat(key, first, cfg.limit - 1) + rest;
      RepeatAdmitted(cfg, ws', key, first, cfg.limit - 1, rest, lo, hi);
      BurstsAdmitted(cfg, ws'[key := Window(first, cfg.limit)], key, first + cfg.window, n - 1, lo, hi);
    }
  }

  // The sliding bound is reached, for every limit, by a window of at least two clock ticks.
  lemma SlidingBoundAttained(cfg: Config, key: string, k: int)
    requires cfg.Valid() && cfg.window >= 2 && k >= 1
    ensures Ascending(Densest(cfg, key, k), key, 0)
    ensures Admitted(cfg, map[], Densest(cfg, key, k), key, cfg.window - 1, cfg.window - 1 + cfg.window * k)
         == cfg.limit * (k + 1) - 1
  {
    var run, lo, hi := Densest(cfg, key, k), cfg.window - 1, cfg.window - 1 + cfg.window * k;
    var rest := Bursts(cfg, key, cfg.window, k);
    MulNext(cfg.limit, k);
    MulNext(cfg.window, k - 1);
    MulMonotone(cfg.window, 1, k);
    var ws := Next(cfg, map[], run[0]);
    assert run[1..] == Repeat(key, lo, cfg.limit - 1) + rest;
    RepeatAdmitted(cfg, ws, key, lo, cfg.limit - 1, rest, lo, hi);
    BurstsAdmitted(cfg, ws[key := Window(0, cfg.limit)], key, cfg.window, k, lo, hi);
    BurstsAscend(cfg, key, cfg.window, k, lo);
    RepeatAscends(key, lo, cfg.limit - 1, rest, 0);
  }

  lemma {:induction false} RepeatAscends(key: string, now: int, n: nat, rest: seq<Request>, from: int)
    requires from <= now && Ascending(rest, key, now)
    ensures Ascending(Repeat(key, now, n) + rest, key, from)
    decreases n
  {
    var run := Repeat(key, now, n) + rest;
    if n == 0 {
      assert run == rest;
      AscendingFrom(rest, key, now, from);
    } else {
      assert run[1..] == Repeat(key, now, n - 1) + rest;
      RepeatAscends(key, now, n - 1, rest, now);
    }
  }

  lemma {:induction false} AscendingFrom(run: seq<Request>, key: string, from: int, earlier: int)
    requires Ascending(run, key, from) && earlier <= from
    ensures Ascending(run, key, earlier)
    decreases run
  {
    if run != [] && run[0].key != key { AscendingFrom(run[1..], key, from, earlier); }
  }

  lemma {:induction false} BurstsAscend(cfg: Config, key: string, first: int, n: nat, from: int)
    requires cfg.Valid() && from <= first
    ensures Ascending(Bursts(cfg, key, first, n), key, from)
    decreases n
  {
    if n > 0 {
      BurstsAscend(cfg, key, first + cfg.window, n - 1, first);
      RepeatAscends(key, first, cfg.limit, Bursts(cfg, key, first + cfg.window, n - 1), from);
    }
  }

  // A window of one tick holds one instant, and an instant admits at most the limit.
  lemma {:induction false} OneTickBound(cfg: Config, ws: Windows, run: seq<Request>, key: string, from: int, lo: int)
    requires cfg.Valid() && cfg.window == 1 && Ascending(run, key, from)
    requires key in ws ==> ws[key].start < lo
    ensures Admitted(cfg, ws, run, key, lo, lo + 1) <= cfg.limit
    decreases run
  {
    if run != [] {
      var r := run[0];
      if r.key != key || r.now < lo {
        OneTickBound(cfg, Next(cfg, ws, r), run[1..], key, if r.key == key then r.now else from, lo);
      } else {
        AscendingSettles(run, key, from, lo + 1);
        OpeningBound(cfg, ws, run, key, lo, lo + 1);
      }
    }
  }

  function WithinOneWindow(cfg: Config, run: seq<Request>, key: string, lo: int): nat {
    Admitted(cfg, map[], run, key, lo, lo + cfg.window)
  }

  ghost predicate KeepsSlidingLimit(cfg: Config) {
    forall run: seq<Request>, key: string, from: int, lo: int :: Ascending(run, key, from) ==>
      WithinOneWindow(cfg, run, key, lo) <= cfg.limit
  }

  // The limiter is the sliding window its comment promises exactly when the limit is one request
  // or the window one tick.
  lemma SlidingLimitExactly(cfg: Config)
    requires cfg.Valid()
    ensures KeepsSlidingLimit(cfg) <==> cfg.limit == 1 || cfg.window == 1
  {
    if cfg.limit == 1 || cfg.window == 1 {
      forall run: seq<Request>, key: string, from: int, lo: int | Ascending(run, key, from)
        ensures WithinOneWindow(cfg, run, key, lo) <= cfg.limit
      {
        if cfg.window == 1 {
          OneTickBound(cfg, map[], run, key, from, lo);
        } else {
          SlidingBound(cfg, map[], run, key, from, lo, 1);
        }
      }
    } else {
      SlidingBoundAttained(cfg, "", 1);
      assert WithinOneWindow(cfg, Densest(cfg, "", 1), "", cfg.window - 1) == cfg.limit * 2 - 1;
    }
  }

  // ------------------------------------------------------------------ any clock order

  function First(run: seq<Request>, key: string): Request
    requires exists r <- run :: r.key == key
  {
    if run[0].key == key then run[0] else First(run[1..], key)
  }

  // In any order of the clock readings, all the admissions of a key number at most the limit for
  // each whole window between its first call and its latest reading, plus one.
  lemma {:induction false} AnyOrderBound(cfg: Config, ws: Windows, run: seq<Request>, key: string, lo: int, latest: int)
    requires cfg.Valid() && key !in ws && exists r <- run :: r.key == key
    requires forall r <- run :: r.key == key ==> r.now <= latest
    ensures Admitted(cfg, ws, run, key, lo, latest + 1)
         <= cfg.limit * ((latest - First(run, key).now) / cfg.window + 1)
    decreases run
  {
    if run[0].key != key {
      AnyOrderBound(cfg, Next(cfg, ws, run[0]), run[1..], key, lo, latest);
    } else {
      var span := latest - run[0].now;
      assert run[0] in run;
      SettlesBefore(run, key, latest + 1);
      MulNext(cfg.limit, span / cfg.window);
      CeilingIsFloor(span, cfg.window);
      OpeningBound(cfg, ws, run, key, lo, latest + 1);
    }
  }

  lemma {:induction false} SettlesBefore(run: seq<Request>, key: string, hi: int)
    requires forall r <- run :: r.key == key ==> r.now < hi
    ensures Settles(run, key, hi)
  {
    if run != [] { SettlesBefore(run[1..], key, hi); }
  }

  lemma {:induction false} CeilingIsFloor(span: int, window: int)
    requires span >= 0 && window >= 1
    ensures Ceiling(span + 1 - window, window) == span / window
    decreases span
  {
    if span < window {
      DivBelow(span, window);
    } else {
      CeilingIsFloor(span - window, window);
      DivStep(span - window, window);
    }
  }

  // ------------------------------------------------------------------ denial and recovery

  // No number of calls before a window ends can move it: the first call at its end is admitted.
  lemma {:induction false} NoCallDelaysTheWindow(cfg: Config, ws: Windows, run: seq<Request>, key: string, now: int)
    requires cfg.Valid() && key in ws && now >= ws[key].start + cfg.window
    requires forall r <- run :: r.key == key ==> r.now < ws[key].start + cfg.window
    ensures key in After(cfg, ws, run) && After(cfg, ws, run)[key].start == ws[key].start
    ensures Admits(cfg, After(cfg, ws, run), Request(key, now))
    decreases run
  {
    if run != [] {
      assert run[0] in run;
      NoCallDelaysTheWindow(cfg, Next(cfg, ws, run[0]), run[1..], key, now);
    }
  }

  // What a key's window stands for: since its start, at least min(count, limit) admissions.
  lemma {:induction false} WindowCountsAdmissions(cfg: Config, ws: Windows, run: seq<Request>, key: string, from: int, hi: int)
    requires cfg.Valid() && Counted(ws) && Ascending(run, key, from)
    requires forall r <- run :: r.key == key ==> r.now < hi
    requires key in ws ==> ws[key].start <= from
    ensures key in After(cfg, ws, run) ==>
      var w := After(cfg, ws, run)[key];
      var before := if key in ws && ws[key].start == w.start then Min(ws[key].count, cfg.limit) else 0;
      before + Admitted(cfg, ws, run, key, w.start, hi) >= Min(w.count, cfg.limit)
    decreases run
  {
    if run != [] {
      var r := run[0];
      assert r in run;
      WindowCountsAdmissions(cfg, Next(cfg, ws, r), run[1..], key, if r.key == key then r.now else from, hi);
    }
  }

  // A denial is never spurious: with an ascending clock, a call is denied only when `limit`
  // requests of its key were admitted less than a window ago.
  lemma DeniedOnlyAtTheLimit(cfg: Config, run: seq<Request>, key: string, from: int, now: int)
    requires cfg.Valid() && Ascending(run, key, from)
    requires forall r <- run :: r.key == key ==> r.now <= now
    requires !Admits(cfg, After(cfg, map[], run), Request(key, now))
    ensures Admitted(cfg, map[], run, key, now - cfg.window + 1, now + 1) >= cfg.limit
  {
    WindowCountsAdmissions(cfg, map[], run, key, from, now + 1);
    WiderCountsMore(cfg, map[], run, key, After(cfg, map[], run)[key].start, now - cfg.window + 1, now + 1);
  }

  lemma {:induction false} WiderCountsMore(cfg: Config, ws: Windows, run: seq<Request>, key: string, lo: int, lower: int, hi: int)
    requires lower <= lo
    ensures Admitted(cfg, ws, run, key, lower, hi) >= Admitted(cfg, ws, run, key, lo, hi)
    decreases run
  {
    if run != [] { WiderCountsMore(cfg, Next(cfg, ws, run[0]), run[1..], key, lo, lower, hi); }
  }

  // ------------------------------------------------------------------ keys do not interfere

  function Only(run: seq<Request>, key: string): seq<Request> {
    if run == [] then []
    else (if run[0].key == key then [run[0]] else []) + Only(run[1..], key)
  }

  function OnlyDecisions(run: seq<Request>, decisions: seq<bool>, key: string): seq<bool>
    requires |run| == |decisions|
  {
    if run == [] then []
    else (if run[0].key == key then [decisions[0]] else []) + OnlyDecisions(run[1..], decisions[1..], key)
  }

  lemma {:induction false} OneDecisionEach(cfg: Config, ws: Windows, run: seq<Request>)
    ensures |Decisions(cfg, ws, run)| == |run|
    decreases run
  {
    if run != [] { OneDecisionEach(cfg, Next(cfg, ws, run[0]), run[1..]); }
  }

  // Each decision is that on the windows left by the calls before it.
  lemma {:induction false} DecisionAt(cfg: Config, ws: Windows, run: seq<Request>, i: nat)
    requires i < |run|
    ensures |Decisions(cfg, ws, run)| == |run|
    ensures Decisions(cfg, ws, run)[i] == Admits(cfg, After(cfg, ws, run[..i]), run[i])
    decreases run
  {
    OneDecisionEach(cfg, ws, run);
    if i > 0 {
      DecisionAt(cfg, Next(cfg, ws, run[0]), run[1..], i - 1);
      assert run[..i][1..] == run[1..][..i - 1];
    }
  }

  // A key's decisions, and its window, in any interleaving are those of a limiter that sees only
  // that key's calls.
  lemma {:induction false} KeysAreIndependent(cfg: Config, ws: Windows, alone: Windows, run: seq<Request>, key: string)
    requires key in ws <==> key in alone
    requires key in ws ==> ws[key] == alone[key]
    ensures |Decisions(cfg, ws, run)| == |run|
    ensures OnlyDecisions(run, Decisions(cfg, ws, run), key) == Decisions(cfg, alone, Only(run, key))
    ensures key in After(cfg, ws, run) <==> key in After(cfg, alone, Only(run, key))
    ensures key in After(cfg, ws, run) ==> After(cfg, ws, run)[key] == After(cfg, alone, Only(run, key))[key]
    decreases run
  {
    OneDecisionEach(cfg, ws, run);
    if run != [] {
      var r, ds := run[0], Decisions(cfg, ws, run);
      assert ds[1..] == Decisions(cfg, Next(cfg, ws, r), run[1..]);
      if r.key == key {
        KeysAreIndependent(cfg, Next(cfg, ws, r), Next(cfg, alone, r), run[1..], key);
        assert Only(run, key)[1..] == Only(run[1..], key);
      } else {
        KeysAreIndependent(cfg, Next(cfg, ws, r), alone, run[1..], key);
        assert Only(run, key) == Only(run[1..], key);
      }
    }
  }
}
