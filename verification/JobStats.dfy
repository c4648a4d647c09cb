/** Execution statistics of one job: counters, extreme durations and a running average. */
module JobStats {
  import opened Wrappers

  datatype Status = Pending | Running | Completed | Failed | Skipped | Cancelled

  /** The report that ends an execution. */
  datatype Completion = Completion(
    id: string, jobName: string, status: Status, completedAt: int, duration: int, error: string)

  datatype Stats = Stats(
    total: int, successful: int, failed: int, skipped: int,
    lastExecution: Option<int>, lastSuccess: Option<int>, lastFailure: Option<int>, lastError: string,
    average: int, min: int, max: int)

  const NO_STATS := Stats(0, 0, 0, 0, None, None, None, "", 0, 0, 0)

  /** Go's integer division: it truncates toward zero. */
  function TruncDiv(a: int, b: int): int
    requires b > 0
  {
    if a >= 0 then a / b else -((-a) / b)
  }

  function NextMin(min: int, d: int): int {
    if min == 0 || d < min then d else min
  }

  function NextMax(max: int, d: int): int {
    if d > max then d else max
  }

  function NextAverage(average: int, d: int, n: int): int {
    if n > 0 then average + TruncDiv(d - average, n) else average
  }

  /** `updateDurationStats`, called after the counter has been raised. */
  function WithDuration(s: Stats, d: int): Stats {
    s.(min := NextMin(s.min, d), max := NextMax(s.max, d),
       average := NextAverage(s.average, d, s.successful + s.failed))
  }

  function AfterComplete(s: Stats, c: Completion): Stats {
    match c.status
    case Completed =>
      WithDuration(s.(successful := s.successful + 1, lastSuccess := Some(c.completedAt)), c.duration)
    case Failed =>
      WithDuration(s.(failed := s.failed + 1, lastFailure := Some(c.completedAt), lastError := c.error), c.duration)
    case Skipped => s.(skipped := s.skipped + 1)
    case _ => s
  }

  // ----- The statistics of a sequence of durations -----

  function Average(ds: seq<int>, n: nat): int
    requires n <= |ds|
  {
    if n == 0 then 0 else NextAverage(Average(ds, n - 1), ds[n - 1], n)
  }

  function StoredMin(ds: seq<int>, n: nat): int
    requires n <= |ds|
  {
    if n == 0 then 0 else NextMin(StoredMin(ds, n - 1), ds[n - 1])
  }

  function StoredMax(ds: seq<int>, n: nat): int
    requires n <= |ds|
  {
    if n == 0 then 0 else NextMax(StoredMax(ds, n - 1), ds[n - 1])
  }

  function Total(ds: seq<int>, n: nat): int
    requires n <= |ds|
  {
    if n == 0 then 0 else Total(ds, n - 1) + ds[n - 1]
  }

  /** The durations that count: those of completed and failed executions. */
  function Timed(cs: seq<Completion>): seq<int> {
    if cs == [] then []
    else
      var n := |cs| - 1;
      Timed(cs[..n]) + (if cs[n].status.Completed? || cs[n].status.Failed? then [cs[n].duration] else [])
  }

  function StatsAfter(s: Stats, cs: seq<Completion>): Stats {
    if cs == [] then s else AfterComplete(StatsAfter(s, cs[..|cs| - 1]), cs[|cs| - 1])
  }

  ghost predicate Summarizes(s: Stats, ds: seq<int>) {
    && s.successful + s.failed == |ds|
    && s.average == Average(ds, |ds|) && s.min == StoredMin(ds, |ds|) && s.max == StoredMax(ds, |ds|)
  }

  lemma {:induction false} PrefixStats(ds: seq<int>, d: int, n: nat)
    requires n <= |ds|
    ensures Average(ds + [d], n) == Average(ds, n)
    ensures StoredMin(ds + [d], n) == StoredMin(ds, n) && StoredMax(ds + [d], n) == StoredMax(ds, n)
  {
    if n > 0 {
      PrefixStats(ds, d, n - 1);
    }
  }

  lemma SummarizesNext(s: Stats, ds: seq<int>, c: Completion)
    requires Summarizes(s, ds)
    ensures Summarizes(AfterComplete(s, c),
                       ds + (if c.status.Completed? || c.status.Failed? then [c.duration] else []))
  {
    hide NextAverage, NextMin, NextMax;
    if c.status.Completed? || c.status.Failed? {
      PrefixStats(ds, c.duration, |ds|);
    } else {
      assert ds + [] == ds;
    }
  }

  /** After any sequence of reports the stored record summarizes exactly the durations that count. */
  lemma {:induction false} StatsSummarize(cs: seq<Completion>)
    ensures Summarizes(StatsAfter(NO_STATS, cs), Timed(cs))
  {
    if cs != [] {
      hide Summarizes, AfterComplete;
      var n := |cs| - 1;
      StatsSummarize(cs[..n]);
      SummarizesNext(StatsAfter(NO_STATS, cs[..n]), Timed(cs[..n]), cs[n]);
    }
  }

  /** The reports with a status, in order. */
  function Reports(cs: seq<Completion>, status: Status): seq<Completion> {
    if cs == [] then []
    else
      var n := |cs| - 1;
      Reports(cs[..n], status) + (if cs[n].status == status then [cs[n]] else [])
  }

  /** When the last of the reports came. */
  function LastTime(cs: seq<Completion>): Option<int> {
    if cs == [] then None else Some(cs[|cs| - 1].completedAt)
  }

  /** Each counter is the number of reports of its status, the last times and the last error are those of the
      latest such report, and starts are not counted here. */
  lemma {:induction false} CountersMean(cs: seq<Completion>)
    ensures var s := StatsAfter(NO_STATS, cs);
            var good, bad := Reports(cs, Completed), Reports(cs, Failed);
            && s.successful == |good| && s.failed == |bad| && s.skipped == |Reports(cs, Skipped)|
            && s.lastSuccess == LastTime(good) && s.lastFailure == LastTime(bad)
            && s.lastError == (if bad == [] then "" else bad[|bad| - 1].error)
            && s.total == 0 && s.lastExecution == None
  {
    if cs != [] {
      CountersMean(cs[..|cs| - 1]);
      CountersStep(StatsAfter(NO_STATS, cs[..|cs| - 1]), cs[|cs| - 1]);
      hide AfterComplete;
    }
  }

  lemma CountersStep(s: Stats, c: Completion)
    ensures var r := AfterComplete(s, c);
            && r.successful == s.successful + (if c.status == Completed then 1 else 0)
            && r.failed == s.failed + (if c.status == Failed then 1 else 0)
            && r.skipped == s.skipped + (if c.status == Skipped then 1 else 0)
            && r.lastSuccess == (if c.status == Completed then Some(c.completedAt) else s.lastSuccess)
            && r.lastFailure == (if c.status == Failed then Some(c.completedAt) else s.lastFailure)
            && r.lastError == (if c.status == Failed then c.error else s.lastError)
            && r.total == s.total && r.lastExecution == s.lastExecution
  {
  }

  // ----- Minimum and maximum -----

  predicate IsMin(ds: seq<int>, n: nat, m: int)
    requires n <= |ds|
  {
    m in ds[..n] && forall i :: 0 <= i < n ==> m <= ds[i]
  }

  predicate IsMax(ds: seq<int>, n: nat, m: int)
    requires n <= |ds|
  {
    m in ds[..n] && forall i :: 0 <= i < n ==> ds[i] <= m
  }

  lemma {:induction false} MaxIsExact(ds: seq<int>, n: nat)
    requires 0 < n <= |ds| && forall i :: 0 <= i < n ==> 0 <= ds[i]
    ensures IsMax(ds, n, StoredMax(ds, n))
  {
    assert ds[..n] == ds[..n - 1] + [ds[n - 1]];
    if n == 1 {
      assert StoredMax(ds, 0) == 0;
    } else {
      MaxIsExact(ds, n - 1);
    }
  }

  /** Zero doubles as "no minimum yet": the stored value forgets everything up to the last zero. */
  lemma {:induction false} StoredMinMeans(ds: seq<int>, n: nat) returns (from: nat)
    requires n <= |ds| && forall i :: 0 <= i < n ==> 0 <= ds[i]
    ensures from <= n && (forall i :: from <= i < n ==> 0 < ds[i]) && (from > 0 ==> ds[from - 1] == 0)
    ensures if from == n then StoredMin(ds, n) == 0
            else StoredMin(ds, n) in ds[from..n] && forall i :: from <= i < n ==> StoredMin(ds, n) <= ds[i]
  {
    from := 0;
    if n > 0 {
      from := StoredMinMeans(ds, n - 1);
      if ds[n - 1] == 0 {
        from := n;
      } else {
        assert ds[from..n] == ds[from..n - 1] + [ds[n - 1]];
      }
    }
  }

  /** The stored minimum is right if and only if no duration was zero or the last one was. */
  lemma MinIsExact(ds: seq<int>, n: nat)
    requires 0 < n <= |ds| && forall i :: 0 <= i < n ==> 0 <= ds[i]
    ensures IsMin(ds, n, StoredMin(ds, n)) <==> (0 !in ds[..n] || ds[n - 1] == 0)
  {
    var from := StoredMinMeans(ds, n);
    if from == 0 {
      assert ds[0..n] == ds[..n];
    } else if from < n {
      assert ds[..n][from - 1] == 0;
      assert forall m :: m in ds[from..n] ==> 0 < m;
    } else {
      assert ds[..n][n - 1] == ds[n - 1];
    }
  }

  // ----- The running average -----

  lemma NatDivision(m: nat, b: int)
    requires b > 0
    ensures m == b * (m / b) + m % b && 0 <= m % b < b && 0 <= m / b <= m
  {
    var q := m / b;
    assert m == q * b + m % b;
    AtLeast(b, q);
  }

  lemma AtLeast(b: int, q: nat)
    requires b > 0
    ensures b * q == q * b >= q
  {
    assert (b - 1) * q >= 0;
  }

  lemma Negated(b: int, q: int)
    ensures b * -q == -(b * q)
  {
  }

  lemma Division(a: int, b: int)
    requires b > 0
    ensures -b < a - b * TruncDiv(a, b) < b
    ensures if a >= 0 then 0 <= a - b * TruncDiv(a, b) else a - b * TruncDiv(a, b) <= 0
    ensures 0 <= a ==> 0 <= TruncDiv(a, b) <= a
    ensures a <= 0 ==> a <= TruncDiv(a, b) <= 0
  {
    if a >= 0 {
      NatDivision(a, b);
    } else {
      NatDivision(-a, b);
      Negated(b, (-a) / b);
    }
  }

  /** The average lies between the least and the greatest duration. */
  lemma {:induction false} AverageIsBetween(ds: seq<int>, n: nat, lo: int, hi: int)
    requires 0 < n <= |ds| && forall i :: 0 <= i < n ==> lo <= ds[i] <= hi
    ensures lo <= Average(ds, n) <= hi
  {
    var d := ds[n - 1];
    if n == 1 {
      assert Average(ds, 0) == 0 && TruncDiv(d, 1) == d;
    } else {
      AverageIsBetween(ds, n - 1, lo, hi);
      Division(d - Average(ds, n - 1), n);
    }
  }

  /** Each duration moves the average by the whole part of its share, rounded toward the old average. */
  lemma AverageMoves(ds: seq<int>, n: nat)
    requires 0 < n <= |ds|
    ensures var before, after, d := Average(ds, n - 1), Average(ds, n), ds[n - 1];
            if d >= before then 0 <= d - before - n * (after - before) < n
            else 0 <= before - d - n * (before - after) < n
  {
    hide TruncDiv;
    Division(ds[n - 1] - Average(ds, n - 1), n);
  }

  /** Despite truncation, `n` times the average stays within `n (n - 1) / 2` of the true sum. */
  lemma {:induction false} AverageDrift(ds: seq<int>, n: nat)
    requires n <= |ds|
    ensures -(n * (n - 1)) <= 2 * (n * Average(ds, n) - Total(ds, n)) <= n * (n - 1)
  {
    hide TruncDiv;
    if n > 0 {
      AverageDrift(ds, n - 1);
      var a, d := Average(ds, n - 1), ds[n - 1];
      var q := TruncDiv(d - a, n);
      assert Average(ds, n) == a + q;
      Division(d - a, n);
      DriftStep(n, a, d, q);
      SquareStep(n);
    }
  }

  lemma DriftStep(n: int, a: int, d: int, q: int)
    ensures n * (a + q) == (n - 1) * a + d - (d - a - n * q)
  {
  }

  lemma SquareStep(n: int)
    ensures n * (n - 1) == (n - 1) * (n - 2) + 2 * (n - 1)
  {
  }
}
