/** CPU percentages from successive counter snapshots, over real numbers. */
module CpuSampler {

  const TWO64 := 0x1_0000_0000_0000_0000

  // uint64 subtraction wraps around.
  function Sub64(a: int, b: int): int { (a - b) % TWO64 }

  datatype CpuTimes = CpuTimes(user: int, nice: int, system: int, idle: int, total: int)
  datatype CpuStats = CpuStats(user: real, system: real, idle: real, used: real)

  const NO_TIMES := CpuTimes(0, 0, 0, 0, 0)

  function Sum(vals: seq<int>): int {
    if vals == [] then 0 else Sum(vals[..|vals| - 1]) + vals[|vals| - 1]
  }

  // What the counters of a "cpu" line become; fewer than four are not a snapshot.
  function Times(vals: seq<int>): CpuTimes {
    if |vals| < 4 then NO_TIMES
    else CpuTimes(vals[0], vals[1], vals[2], vals[3], Sum(vals) % TWO64)
  }

  method ReadTimes(vals: seq<int>) returns (t: CpuTimes)
    ensures t == Times(vals)
  {
    if |vals| < 4 { return NO_TIMES; }
    var total := 0;
    for i := 0 to |vals|
      invariant total == Sum(vals[..i]) % TWO64
    {
      assert vals[..i + 1][..i] == vals[..i];
      ModAdd(Sum(vals[..i]), vals[i]);
      total := (total + vals[i]) % TWO64;
    }
    assert vals[..|vals|] == vals;
    return CpuTimes(vals[0], vals[1], vals[2], vals[3], total);
  }

  lemma ModAdd(a: int, b: int)
    ensures (a % TWO64 + b) % TWO64 == (a + b) % TWO64
  {}

  function Percent(part: int, delta: int): real
    requires delta > 0
  {
    100.0 * part as real / delta as real
  }

  function Report(last: CpuTimes, t: CpuTimes): CpuStats {
    var delta := Sub64(t.total, last.total);
    if delta > 0 then
      var user, system := Percent(Sub64(t.user, last.user), delta), Percent(Sub64(t.system, last.system), delta);
      CpuStats(user, system, Percent(Sub64(t.idle, last.idle), delta), user + system)
    else CpuStats(0.0, 0.0, 0.0, 0.0)
  }

  // The package variable lastCPUTime and the function that reads and replaces it.
  class Sampler {
    var last: CpuTimes

    constructor ()
      ensures last == NO_TIMES
    {
      last := NO_TIMES;
    }

    method ReadCPU(vals: seq<int>) returns (cur: CpuStats)
      modifies this
      ensures cur == Report(old(last), Times(vals)) && last == Times(vals)
    {
      var t := ReadTimes(vals);
      var delta := Sub64(t.total, last.total);
      cur := CpuStats(0.0, 0.0, 0.0, 0.0);
      if delta > 0 {
        cur := cur.(user := 100.0 * Sub64(t.user, last.user) as real / delta as real);
        cur := cur.(system := 100.0 * Sub64(t.system, last.system) as real / delta as real);
        cur := cur.(idle := 100.0 * Sub64(t.idle, last.idle) as real / delta as real);
        cur := cur.(used := cur.user + cur.system);
      }
      last := t;
    }
  }

  // ------------------------------------------------------------------ runs of samples

  // Counters fit 64 bits together and none goes back.
  ghost predicate Snapshot(vals: seq<int>) {
    |vals| >= 4 && (forall i :: 0 <= i < |vals| ==> vals[i] >= 0) && Sum(vals) < TWO64
  }

  ghost predicate Advances(a: seq<int>, b: seq<int>) {
    |a| == |b| && forall i :: 0 <= i < |a| ==> a[i] <= b[i]
  }

  ghost predicate Rising(samples: seq<seq<int>>) {
    && (forall i :: 0 <= i < |samples| ==> Snapshot(samples[i]))
    && (forall i :: 0 < i < |samples| ==> Advances(samples[i - 1], samples[i]))
  }

  function Last(samples: seq<seq<int>>): CpuTimes {
    if samples == [] then NO_TIMES else Times(samples[|samples| - 1])
  }

  datatype Field = User | System | Idle

  function Reported(f: Field, c: CpuStats): real {
    match f case User => c.user case System => c.system case Idle => c.idle
  }

  function Counter(f: Field, t: CpuTimes): int {
    match f case User => t.user case System => t.system case Idle => t.idle
  }

  function Column(f: Field): nat {
    match f case User => 0 case System => 2 case Idle => 3
  }

  // One field of a report, weighted by the time the report covers.
  function Share(s: CpuTimes, t: CpuTimes, f: Field): real {
    Weigh(Sub64(t.total, s.total), Reported(f, Report(s, t)))
  }

  function Weigh(total: int, reported: real): real {
    total as real * reported
  }

  function Weighted(samples: seq<seq<int>>, f: Field): real {
    if samples == [] then 0.0
    else Weighted(samples[..|samples| - 1], f) + Share(Last(samples[..|samples| - 1]), Last(samples), f)
  }

  lemma {:induction false} FourWithinSum(vals: seq<int>)
    requires forall i :: 0 <= i < |vals| ==> vals[i] >= 0
    ensures Sum(vals) >= 0
    ensures |vals| >= 4 ==> Sum(vals) >= vals[0] + vals[1] + vals[2] + vals[3]
  {
    if |vals| == 4 {
      SumOfFour(vals);
    } else if vals != [] {
      FourWithinSum(vals[..|vals| - 1]);
    }
  }

  lemma SumOfFour(vals: seq<int>)
    requires |vals| == 4
    ensures Sum(vals) == vals[0] + vals[1] + vals[2] + vals[3]
  {
    assert vals[..3][..2] == vals[..2] && vals[..2][..1] == vals[..1] && vals[..1][..0] == [];
    assert Sum(vals[..1]) == vals[0];
    assert Sum(vals[..2]) == vals[0] + vals[1];
    assert Sum(vals[..3]) == Sum(vals[..2]) + vals[2];
  }

  function Difference(a: seq<int>, b: seq<int>): (d: seq<int>)
    requires |a| == |b|
    ensures |d| == |a|
  {
    seq(|a|, i requires 0 <= i < |a| => b[i] - a[i])
  }

  lemma {:induction false} SumOfDifference(a: seq<int>, b: seq<int>)
    requires |a| == |b|
    ensures Sum(Difference(a, b)) == Sum(b) - Sum(a)
  {
    if a != [] {
      var n := |a| - 1;
      SumOfDifference(a[..n], b[..n]);
      assert Difference(a, b)[..n] == Difference(a[..n], b[..n]);
    }
  }

  // From one reading to a later one nothing wraps around, and the three reported counters advance
  // by no more than the total.
  ghost predicate Later(s: CpuTimes, t: CpuTimes) {
    && 0 <= s.user <= t.user < TWO64 && 0 <= s.system <= t.system < TWO64 && 0 <= s.idle <= t.idle < TWO64
    && 0 <= s.total <= t.total < TWO64
    && (t.user - s.user) + (t.system - s.system) + (t.idle - s.idle) <= t.total - s.total
  }

  lemma SnapshotsAreLater(a: seq<int>, b: seq<int>)
    requires Snapshot(a) && Snapshot(b) && Advances(a, b)
    ensures Later(Times(a), Times(b))
  {
    SumOfDifference(a, b);
    FourWithinSum(Difference(a, b));
    FourWithinSum(a);
    FourWithinSum(b);
    SumInRange(a);
    SumInRange(b);
  }

  lemma SumInRange(a: seq<int>)
    requires Snapshot(a)
    ensures Sum(a) % TWO64 == Sum(a)
  {
    FourWithinSum(a);
  }

  // The first snapshot is compared with no times at all, which is a snapshot of zeros.
  lemma {:induction false} ZerosAreNoTimes(n: nat)
    ensures Sum(seq(n, _ => 0)) == 0
    ensures Times(seq(n, _ => 0)) == NO_TIMES
  {
    if n > 0 {
      ZerosAreNoTimes(n - 1);
      assert seq(n, _ => 0)[..n - 1] == seq(n - 1, _ => 0);
    }
  }

  lemma RunIsLater(samples: seq<seq<int>>)
    requires Rising(samples) && samples != []
    ensures Later(Last(samples[..|samples| - 1]), Last(samples))
  {
    var n := |samples| - 1;
    if n == 0 {
      ZerosAreNoTimes(|samples[0]|);
      SnapshotsAreLater(seq(|samples[0]|, _ => 0), samples[0]);
    } else {
      SnapshotsAreLater(samples[n - 1], samples[n]);
    }
  }

  lemma Cancel(d: real, x: real, y: real)
    requires d > 0.0 && d * x <= d * y
    ensures x <= y
  {}

  lemma PercentTimesDelta(part: int, delta: int)
    requires delta > 0
    ensures delta as real * Percent(part, delta) == 100.0 * part as real
  {}

  lemma PercentNotNegative(part: int, delta: int)
    requires delta > 0 && part >= 0
    ensures Percent(part, delta) >= 0.0
  {
    PercentTimesDelta(part, delta);
    Cancel(delta as real, 0.0, Percent(part, delta));
  }

  lemma PercentsWithinHundred(a: int, b: int, c: int, delta: int)
    requires delta > 0 && a + b + c <= delta
    ensures Percent(a, delta) + Percent(b, delta) + Percent(c, delta) <= 100.0
  {
    PercentTimesDelta(a, delta);
    PercentTimesDelta(b, delta);
    PercentTimesDelta(c, delta);
    var d, x, y, z := delta as real, Percent(a, delta), Percent(b, delta), Percent(c, delta);
    assert d * (x + y + z) == d * x + d * y + d * z;
    Cancel(d, x + y + z, 100.0);
  }

  // Between two such readings a report shares out at most the whole, and is nothing when no time
  // passed.
  lemma ReportWithinHundred(s: CpuTimes, t: CpuTimes)
    requires Later(s, t)
    ensures var cur := Report(s, t);
      && cur.user >= 0.0 && cur.system >= 0.0 && cur.idle >= 0.0
      && cur.user + cur.system + cur.idle <= 100.0
      && cur.used == cur.user + cur.system
  {
    NoWrap(t.total, s.total);
    NoWrap(t.user, s.user);
    NoWrap(t.system, s.system);
    NoWrap(t.idle, s.idle);
    var delta := t.total - s.total;
    if delta > 0 {
      SharesOfOne(t.user - s.user, t.system - s.system, t.idle - s.idle, delta);
    }
  }

  lemma SharesOfOne(a: int, b: int, c: int, delta: int)
    requires delta > 0 && a >= 0 && b >= 0 && c >= 0 && a + b + c <= delta
    ensures Percent(a, delta) >= 0.0 && Percent(b, delta) >= 0.0 && Percent(c, delta) >= 0.0
    ensures Percent(a, delta) + Percent(b, delta) + Percent(c, delta) <= 100.0
  {
    PercentNotNegative(a, delta);
    PercentNotNegative(b, delta);
    PercentNotNegative(c, delta);
    PercentsWithinHundred(a, b, c, delta);
  }

  lemma NoWrap(a: int, b: int)
    requires 0 <= b <= a < TWO64
    ensures Sub64(a, b) == a - b
  {}

  lemma ReportedPercent(s: CpuTimes, t: CpuTimes, f: Field)
    requires Later(s, t) && t.total > s.total
    ensures Reported(f, Report(s, t)) == Percent(Counter(f, t) - Counter(f, s), t.total - s.total)
  {
    NoWrap(t.total, s.total);
    NoWrap(t.user, s.user);
    NoWrap(t.system, s.system);
    NoWrap(t.idle, s.idle);
  }

  lemma Scaled(total: int, part: int)
    requires total > 0
    ensures Weigh(total, Percent(part, total)) == 100.0 * part as real
  {
    PercentTimesDelta(part, total);
  }

  lemma SharePercent(s: CpuTimes, t: CpuTimes, f: Field)
    requires Later(s, t) && t.total > s.total
    ensures Share(s, t, f) == Weigh(t.total - s.total, Percent(Counter(f, t) - Counter(f, s), t.total - s.total))
  {
    NoWrap(t.total, s.total);
    ReportedPercent(s, t, f);
  }

  lemma ReportShare(s: CpuTimes, t: CpuTimes, f: Field)
    requires Later(s, t)
    ensures Share(s, t, f) == 100.0 * (Counter(f, t) - Counter(f, s)) as real
  {
    if t.total == s.total {
      NothingShared(s, t, f);
    } else {
      SharePercent(s, t, f);
      Scaled(t.total - s.total, Counter(f, t) - Counter(f, s));
    }
  }

  lemma NothingShared(s: CpuTimes, t: CpuTimes, f: Field)
    requires Later(s, t) && t.total == s.total
    ensures Share(s, t, f) == 0.0 && Counter(f, t) == Counter(f, s)
  {}

  // What a report of a run of rising samples says, by the counters alone: each field is a hundred
  // times its own advance over the advance of all counters, and zero when nothing advanced.
  lemma ReportsExactly(samples: seq<seq<int>>, f: Field)
    requires Rising(samples) && |samples| >= 2
    ensures var a, b := samples[|samples| - 2], samples[|samples| - 1];
      var cur := Report(Last(samples[..|samples| - 1]), Last(samples));
      && (Sum(b) > Sum(a) ==>
            Reported(f, cur) == 100.0 * (b[Column(f)] - a[Column(f)]) as real / (Sum(b) - Sum(a)) as real)
      && (Sum(b) == Sum(a) ==> cur == CpuStats(0.0, 0.0, 0.0, 0.0))
      && cur.used == cur.user + cur.system
  {
    var n := |samples| - 1;
    assert samples[..n][n - 1] == samples[n - 1];
    TimesExactly(samples[n - 1]);
    TimesExactly(samples[n]);
    SnapshotsAreLater(samples[n - 1], samples[n]);
    if Sum(samples[n]) > Sum(samples[n - 1]) {
      ReportedPercent(Times(samples[n - 1]), Times(samples[n]), f);
    }
  }

  // A snapshot keeps its first four counters in their order and the 64-bit sum of all of them;
  // fewer than four are none.
  lemma TimesExactly(vals: seq<int>)
    ensures |vals| < 4 ==> Times(vals) == CpuTimes(0, 0, 0, 0, 0)
    ensures |vals| >= 4 ==>
      var t := Times(vals);
      && [t.user, t.nice, t.system, t.idle] == vals[..4]
      && 0 <= t.total < 0x1_0000_0000_0000_0000 && (Sum(vals) - t.total) % 0x1_0000_0000_0000_0000 == 0
    ensures Snapshot(vals) ==> Times(vals).total == Sum(vals)
  {
    if Snapshot(vals) { SumInRange(vals); }
  }

  // How far a 64-bit counter has come, around the end of its range if need be.
  function Advance(before: int, now: int): int {
    if now >= before then now - before else now - before + 0x1_0000_0000_0000_0000
  }

  lemma SubIsAdvance(now: int, before: int)
    requires 0 <= now < TWO64 && 0 <= before < TWO64
    ensures Sub64(now, before) == Advance(before, now)
  {}

  // What a report says of any two snapshots, rising or not: each field is a hundred times its own
  // advance over the advance of the total, where a counter that went back has come round; and
  // everything is zero when the total is the same.
  lemma ReportsAdvance(s: CpuTimes, t: CpuTimes, f: Field)
    requires 0 <= s.total < TWO64 && 0 <= t.total < TWO64
    requires 0 <= Counter(f, s) < TWO64 && 0 <= Counter(f, t) < TWO64
    ensures t.total != s.total ==>
      && Advance(s.total, t.total) > 0
      && Reported(f, Report(s, t))
         == 100.0 * Advance(Counter(f, s), Counter(f, t)) as real / Advance(s.total, t.total) as real
    ensures t.total == s.total ==> Report(s, t) == CpuStats(0.0, 0.0, 0.0, 0.0)
    ensures Report(s, t).used == Report(s, t).user + Report(s, t).system
  {
    SubIsAdvance(t.total, s.total);
    SubIsAdvance(Counter(f, t), Counter(f, s));
  }

  // Every report of a run of rising samples is a share of at most 100 percent.
  lemma ReportsWithinHundred(samples: seq<seq<int>>)
    requires Rising(samples) && samples != []
    ensures var cur := Report(Last(samples[..|samples| - 1]), Last(samples));
      && cur.user >= 0.0 && cur.system >= 0.0 && cur.idle >= 0.0
      && cur.user + cur.system + cur.idle <= 100.0
      && cur.used == cur.user + cur.system
  {
    RunIsLater(samples);
    ReportWithinHundred(Last(samples[..|samples| - 1]), Last(samples));
  }

  // The weighted reports of a run add up to the last counter: nothing is lost or counted twice,
  // and a sample during which no time passed contributes nothing.
  lemma {:induction false} ReportsTelescope(samples: seq<seq<int>>, f: Field)
    requires Rising(samples)
    ensures Weighted(samples, f) == 100.0 * Counter(f, Last(samples)) as real
    ensures samples != [] ==> Weighted(samples, f) == 100.0 * samples[|samples| - 1][Column(f)] as real
    ensures samples != [] && Last(samples).total == Last(samples[..|samples| - 1]).total ==>
      Weighted(samples, f) == Weighted(samples[..|samples| - 1], f)
  {
    if samples != [] {
      ReportsTelescope(samples[..|samples| - 1], f);
      RunIsLater(samples);
      ReportShare(Last(samples[..|samples| - 1]), Last(samples), f);
    }
  }
}
