/** The once-a-day loops: sweepTransactionMonitoring (cmd/lens/monitoring_handler.go) with its overlapping
    window, and refreshMarketDiscovery (cmd/lens/market_discovery_handler.go), which reads the clock twice.

    Instants are nanoseconds since the epoch; a UTC day is a floor division. A run is the sequence of
    passes made before the context is cancelled: when each read the clock, and what its call returned. */
module DailySweep {
  import opened Prelude

  const Hour: int := 3_600_000_000_000
  const DayLength: int := 24 * Hour
  const Window: int := 25 * Hour

  function Day(t: int): int { t / DayLength }

  datatype Pass = Pass(now: int, ok: bool)

  /** One call of Sweep: it judges the payments after `since` and up to `until`. */
  datatype Sweep = Sweep(since: int, until: int, ok: bool)

  /** The sweeps a run attempts, with `done` the day of the last success. */
  function Attempts(passes: seq<Pass>, done: Option<int>, window: int): seq<Sweep> {
    if passes == [] then []
    else
      var p := passes[0];
      if done == Some(Day(p.now)) then Attempts(passes[1..], done, window)
      else
        [Sweep(p.now - window, p.now, p.ok)] +
        Attempts(passes[1..], if p.ok then Some(Day(p.now)) else done, window)
  }

  method SweepTransactionMonitoring(passes: seq<Pass>) returns (log: seq<Sweep>)
    ensures log == Attempts(passes, None, Window)
  {
    log := [];
    var done: Option<int> := None;
    for i := 0 to |passes|
      invariant log + Attempts(passes[i..], done, Window) == Attempts(passes, None, Window)
    {
      var now := passes[i].now;
      var day := Day(now);
      assert passes[i..][1..] == passes[i + 1..];
      if Some(day) != done {
        log := log + [Sweep(now - Window, now, passes[i].ok)];
        if passes[i].ok {
          done := Some(day);
        }
      }
    }
  }

  // ---------------------------------------------------------------------------
  // At most one success a day

  predicate Forward(passes: seq<Pass>) {
    forall i | 0 < i < |passes| :: passes[i - 1].now <= passes[i].now
  }

  lemma ForwardTail(passes: seq<Pass>)
    requires Forward(passes) && passes != []
    ensures Forward(passes[1..])
  {
  }

  lemma {:induction false} AttemptsAreLater(passes: seq<Pass>, done: Option<int>, window: int)
    requires Forward(passes) && passes != []
    requires done.Some? ==> done.value <= Day(passes[0].now)
    ensures forall a | a in Attempts(passes, done, window) ::
              passes[0].now <= a.until && (done.Some? ==> done.value < Day(a.until))
  {
    ForwardTail(passes);
    var p := passes[0];
    var done' := if done == Some(Day(p.now)) || !p.ok then done else Some(Day(p.now));
    if |passes| > 1 {
      assert passes[0].now <= passes[1].now;
      AttemptsAreLater(passes[1..], done', window);
    } else {
      assert Attempts(passes[1..], done', window) == [];
    }
  }

  /** Once a sweep succeeds, its day sees no other attempt. */
  predicate OneSuccessPerDay(log: seq<Sweep>) {
    forall i, j | 0 <= i < j < |log| && log[i].ok :: Day(log[i].until) < Day(log[j].until)
  }

  /** If the clock never runs backwards, no sweep is attempted after a success on the same UTC day; so no
      two succeed on one. */
  lemma {:induction false} AtMostOneSuccessPerDay(passes: seq<Pass>, done: Option<int>, window: int)
    requires Forward(passes)
    requires done.Some? && passes != [] ==> done.value <= Day(passes[0].now)
    ensures OneSuccessPerDay(Attempts(passes, done, window))
  {
    if passes != [] {
      ForwardTail(passes);
      var p := passes[0];
      var log := Attempts(passes, done, window);
      if |passes| > 1 {
        assert passes[0].now <= passes[1].now;
      }
      if done == Some(Day(p.now)) {
        AtMostOneSuccessPerDay(passes[1..], done, window);
        assert log == Attempts(passes[1..], done, window);
      } else {
        var done' := if p.ok then Some(Day(p.now)) else done;
        var rest := Attempts(passes[1..], done', window);
        AtMostOneSuccessPerDay(passes[1..], done', window);
        if passes[1..] != [] {
          AttemptsAreLater(passes[1..], done', window);
        }
        assert log == [Sweep(p.now - window, p.now, p.ok)] + rest;
        OneMoreSweep(log[0], rest);
      }
    }
  }

  lemma OneMoreSweep(first: Sweep, rest: seq<Sweep>)
    requires OneSuccessPerDay(rest)
    requires first.ok ==> forall b | b in rest :: Day(first.until) < Day(b.until)
    ensures OneSuccessPerDay([first] + rest)
  {
    var log := [first] + rest;
    forall i, j | 0 <= i < j < |log| && log[i].ok ensures Day(log[i].until) < Day(log[j].until) {
      assert log[j] == rest[j - 1] && rest[j - 1] in rest;
      assert i > 0 ==> log[i] == rest[i - 1];
    }
  }

  /** A pass sweeps, or its day has its success. */
  predicate Swept(log: seq<Sweep>, p: Pass, window: int) {
    || Sweep(p.now - window, p.now, p.ok) in log
    || exists j :: 0 <= j < |log| && log[j].ok && Day(log[j].until) == Day(p.now)
  }

  /** No pass is skipped but for a success on its day: a failed sweep is tried again at the next pass. */
  lemma {:induction false} NoPassSkipped(passes: seq<Pass>, done: Option<int>, window: int, i: nat)
    requires i < |passes|
    ensures done == Some(Day(passes[i].now)) || Swept(Attempts(passes, done, window), passes[i], window)
  {
    var p := passes[0];
    assert i > 0 ==> passes[1..][i - 1] == passes[i];
    if done == Some(Day(p.now)) {
      if i > 0 {
        NoPassSkipped(passes[1..], done, window, i - 1);
      }
    } else {
      var done' := if p.ok then Some(Day(p.now)) else done;
      var first, rest := Sweep(p.now - window, p.now, p.ok), Attempts(passes[1..], done', window);
      if i > 0 {
        NoPassSkipped(passes[1..], done', window, i - 1);
        if Swept(rest, passes[i], window) {
          SweptLater(first, rest, passes[i], window);
        }
      }
      assert ([first] + rest)[0] == first;
    }
  }

  lemma SweptLater(first: Sweep, rest: seq<Sweep>, p: Pass, window: int)
    requires Swept(rest, p, window)
    ensures Swept([first] + rest, p, window)
  {
    if j :| 0 <= j < |rest| && rest[j].ok && Day(rest[j].until) == Day(p.now) {
      assert ([first] + rest)[j + 1] == rest[j];
    }
  }

  // ---------------------------------------------------------------------------
  // Coverage

  predicate Covers(log: seq<Sweep>, t: int) {
    exists i :: 0 <= i < |log| && log[i].ok && log[i].since < t <= log[i].until
  }

  /** Nothing between the first window's start and the last sweep escaped. */
  ghost predicate NoGap(log: seq<Sweep>) {
    log != [] ==> forall t | log[0].since < t <= log[|log| - 1].until :: Covers(log, t)
  }

  /** Passes at most an hour apart, on a clock that does not run backwards. */
  predicate Hourly(passes: seq<Pass>) {
    forall i | 0 < i < |passes| :: passes[i - 1].now <= passes[i].now <= passes[i - 1].now + Hour
  }

  predicate AllSucceed(log: seq<Sweep>) {
    forall i | 0 <= i < |log| :: log[i].ok
  }

  predicate InOrder(log: seq<Sweep>, window: int) {
    && (forall i | 0 <= i < |log| :: log[i].since == log[i].until - window)
    && (forall i | 0 < i < |log| :: log[i - 1].until <= log[i].until)
  }

  predicate Close(log: seq<Sweep>, most: int) {
    forall i | 0 < i < |log| :: log[i].until - log[i - 1].until <= most
  }

  lemma {:induction false} CloseCovers(log: seq<Sweep>, window: int, n: nat, t: int)
    requires n < |log| && InOrder(log, window) && AllSucceed(log) && Close(log, window)
    requires log[0].since < t <= log[n].until
    ensures Covers(log, t)
  {
    if n == 0 || log[n].since < t {
      assert log[n].ok;
    } else {
      assert log[n].until - log[n - 1].until <= window;
      CloseCovers(log, window, n - 1, t);
    }
  }

  lemma {:induction false} OrderedUntil(log: seq<Sweep>, window: int, i: nat, j: nat)
    requires i <= j < |log| && InOrder(log, window)
    ensures log[i].until <= log[j].until
  {
    if i < j {
      OrderedUntil(log, window, i, j - 1);
    }
  }

  /** Successful sweeps leave no gap exactly when no two in a row are further apart than the window. */
  lemma NoGapIffClose(log: seq<Sweep>, window: int)
    requires window >= 0 && InOrder(log, window) && AllSucceed(log)
    ensures NoGap(log) <==> Close(log, window)
  {
    if Close(log, window) && log != [] {
      forall t | log[0].since < t <= log[|log| - 1].until ensures Covers(log, t) {
        CloseCovers(log, window, |log| - 1, t);
      }
    }
    if NoGap(log) {
      forall i | 0 < i < |log| ensures log[i].until - log[i - 1].until <= window {
        var t := log[i - 1].until + 1;
        if t <= log[i].since {
          OrderedUntil(log, window, 0, i - 1);
          OrderedUntil(log, window, i, |log| - 1);
          assert Covers(log, t);
          var k :| 0 <= k < |log| && log[k].since < t <= log[k].until;
          if k <= i - 1 {
            OrderedUntil(log, window, k, i - 1);
          } else {
            OrderedUntil(log, window, i, k);
          }
          assert false;
        }
      }
    }
  }

  /** The sweeps that succeeded. */
  function Successes(log: seq<Sweep>): (ss: seq<Sweep>)
    ensures forall a | a in ss :: a in log && a.ok
  {
    if log == [] then []
    else Successes(log[..|log| - 1]) + if log[|log| - 1].ok then [log[|log| - 1]] else []
  }

  lemma SuccessesNext(log: seq<Sweep>, a: Sweep)
    ensures Successes(log + [a]) == Successes(log) + if a.ok then [a] else []
  {
    assert (log + [a])[..|log|] == log;
  }

  lemma {:induction false} SuccessesInOrder(log: seq<Sweep>, window: int)
    requires InOrder(log, window)
    ensures InOrder(Successes(log), window) && AllSucceed(Successes(log))
    ensures forall a | a in Successes(log) :: a.until <= log[|log| - 1].until
  {
    if log != [] {
      var n := |log| - 1;
      SuccessesInOrder(log[..n], window);
      assert n > 0 ==> log[..n][n - 1] == log[n - 1];
      var ss := Successes(log[..n]);
      assert ss != [] ==> ss[|ss| - 1] in ss;
    }
  }

  lemma {:induction false} SuccessesCover(log: seq<Sweep>, t: int)
    ensures Covers(log, t) <==> Covers(Successes(log), t)
  {
    if log != [] {
      var n := |log| - 1;
      SuccessesCover(log[..n], t);
      CoversNext(log[..n], log[n], t);
      CoversNext(Successes(log[..n]), log[n], t);
      assert log == log[..n] + [log[n]];
      assert Successes(log) == Successes(log[..n]) + if log[n].ok then [log[n]] else [];
      assert Successes(log[..n]) + [] == Successes(log[..n]);
    }
  }

  lemma CoversNext(log: seq<Sweep>, a: Sweep, t: int)
    ensures Covers(log + [a], t) <==> Covers(log, t) || (a.ok && a.since < t <= a.until)
  {
    var all := log + [a];
    if Covers(log, t) {
      var i :| 0 <= i < |log| && log[i].ok && log[i].since < t <= log[i].until;
      assert all[i] == log[i];
    }
    assert all[|log|] == a;
  }

  /** Nothing between the first successful window's start and the last success escaped. */
  ghost predicate NoGapBetweenSuccesses(log: seq<Sweep>) {
    var ss := Successes(log);
    ss != [] ==> forall t | ss[0].since < t <= ss[|ss| - 1].until :: Covers(log, t)
  }

  /** Whatever sweeps fail, the span from the first success to the last has no gap exactly when no two
      successes in a row are further apart than the window. */
  lemma NoGapExactly(log: seq<Sweep>, window: int)
    requires window >= 0 && InOrder(log, window)
    ensures NoGapBetweenSuccesses(log) <==> Close(Successes(log), window)
  {
    var ss := Successes(log);
    SuccessesInOrder(log, window);
    NoGapIffClose(ss, window);
    forall t ensures Covers(log, t) <==> Covers(ss, t) {
      SuccessesCover(log, t);
    }
  }

  /** With `q` the last pass and `s` the last sweep, both on the same day: the next sweep comes less than
      25 hours after `s`, and so on. */
  lemma {:induction false} SweepsAreClose(passes: seq<Pass>, q: int, s: int, window: int)
    requires Hourly([Pass(q, true)] + passes) && s <= q && Day(s) == Day(q)
    requires AllSucceed(Attempts(passes, Some(Day(q)), window))
    ensures InOrder([Sweep(s - window, s, true)] + Attempts(passes, Some(Day(q)), window), window)
    ensures Close([Sweep(s - window, s, true)] + Attempts(passes, Some(Day(q)), window), Window - 1)
    decreases |passes|
  {
    if passes != [] {
      var p := passes[0].now;
      var run := [Pass(q, true)] + passes;
      assert run[0].now <= run[1].now <= run[0].now + Hour;
      forall i | 0 < i < |passes| ensures passes[i - 1].now <= passes[i].now <= passes[i - 1].now + Hour {
        assert run[i].now <= run[i + 1].now <= run[i].now + Hour;
      }
      HourlyFrom(passes);
      var rest := Attempts(passes[1..], Some(Day(p)), window);
      if Day(p) == Day(q) {
        SweepsAreClose(passes[1..], p, s, window);
      } else {
        var log := Attempts(passes, Some(Day(q)), window);
        assert log[0].ok;
        assert log == [Sweep(p - window, p, true)] + rest;
        assert AllSucceed(rest) by {
          forall i | 0 <= i < |rest| ensures rest[i].ok {
            assert log[i + 1] == rest[i];
          }
        }
        SweepsAreClose(passes[1..], p, p, window);
        PrependClose(Sweep(s - window, s, true), log, window);
      }
    }
  }

  lemma HourlyFrom(passes: seq<Pass>)
    requires Hourly(passes) && passes != []
    ensures Hourly([Pass(passes[0].now, true)] + passes[1..])
  {
  }

  lemma PrependClose(a: Sweep, log: seq<Sweep>, window: int)
    requires InOrder(log, window) && Close(log, Window - 1) && log != []
    requires a.since == a.until - window && a.until <= log[0].until <= a.until + Window - 1
    ensures InOrder([a] + log, window) && Close([a] + log, Window - 1)
  {
  }

  lemma HourlyRunIsClose(passes: seq<Pass>, window: int)
    requires Hourly(passes) && AllSucceed(Attempts(passes, None, window))
    ensures InOrder(Attempts(passes, None, window), window)
    ensures Close(Attempts(passes, None, window), Window - 1)
  {
    if passes != [] {
      var p := passes[0].now;
      var log := Attempts(passes, None, window);
      assert log[0].ok;
      var rest := Attempts(passes[1..], Some(Day(p)), window);
      assert log == [Sweep(p - window, p, true)] + rest;
      forall i | 0 <= i < |rest| ensures rest[i].ok {
        assert log[i + 1] == rest[i];
      }
      HourlyFrom(passes);
      SweepsAreClose(passes[1..], p, p, window);
    }
  }

  /** Hourly passes whose sweeps all succeed leave no instant unjudged, from 25 hours before the first
      sweep to the last. */
  lemma TwentyFiveHoursCover(passes: seq<Pass>)
    requires Hourly(passes) && AllSucceed(Attempts(passes, None, Window))
    ensures NoGap(Attempts(passes, None, Window))
  {
    HourlyRunIsClose(passes, Window);
    NoGapIffClose(Attempts(passes, None, Window), Window);
  }

  // ---------------------------------------------------------------------------
  // Why 25

  /** Passes on the hour, the last of day 0 one nanosecond before midnight, and the next an hour later. */
  function LatestRun(): seq<Pass> {
    [Pass(0, true)] + seq(24, k requires 0 <= k < 24 => Pass(if k < 23 then (k + 1) * Hour else DayLength - 1, true)) +
    [Pass(DayLength - 1 + Hour, true)]
  }

  lemma {:induction false} SkipSameDay(passes: seq<Pass>, later: seq<Pass>, day: int, window: int)
    requires forall i | 0 <= i < |passes| :: Day(passes[i].now) == day
    ensures Attempts(passes + later, Some(day), window) == Attempts(later, Some(day), window)
  {
    if passes == [] {
      assert passes + later == later;
    } else {
      assert (passes + later)[1..] == passes[1..] + later;
      forall i | 0 <= i < |passes[1..]| ensures Day(passes[1..][i].now) == day {
        assert passes[1..][i] == passes[i + 1];
      }
      SkipSameDay(passes[1..], later, day, window);
    }
  }

  lemma LatestRunSweeps(window: int)
    ensures Hourly(LatestRun())
    ensures Attempts(LatestRun(), None, window) ==
            [Sweep(-window, 0, true), Sweep(Window - 1 - window, Window - 1, true)]
  {
    var run := LatestRun();
    forall i | 0 < i < |run| ensures run[i - 1].now <= run[i].now <= run[i - 1].now + Hour {
    }
    var middle, last := run[1..25], run[25..];
    assert run[1..] == middle + last;
    forall i | 0 <= i < |middle| ensures Day(middle[i].now) == 0 {
      assert middle[i] == run[i + 1];
      assert 0 <= middle[i].now < DayLength;
    }
    SkipSameDay(middle, last, 0, window);
    assert last == [Pass(Window - 1, true)];
    assert Day(Window - 1) == 1;
    assert last[1..] == [];
  }

  /** The window is as short as it can be in whole hours: every hourly run of successful sweeps is covered
      if and only if the window is at least 25 hours less one nanosecond. */
  lemma WindowExactly(window: nat)
    ensures (forall passes | Hourly(passes) && AllSucceed(Attempts(passes, None, window)) ::
               NoGap(Attempts(passes, None, window)))
            <==> window >= 25 * Hour - 1
  {
    if window >= 25 * Hour - 1 {
      forall passes | Hourly(passes) && AllSucceed(Attempts(passes, None, window))
        ensures NoGap(Attempts(passes, None, window))
      {
        HourlyRunIsClose(passes, window);
        NoGapIffClose(Attempts(passes, None, window), window);
      }
    } else {
      LatestRunSweeps(window);
      var log := Attempts(LatestRun(), None, window);
      NoGapIffClose(log, window);
      assert log[1].until - log[0].until > window;
    }
  }

  // ---------------------------------------------------------------------------
  // One failure

  /** The latest run, but that its second sweep fails and is tried again an hour later. */
  function FailingRun(): seq<Pass> {
    LatestRun()[..25] + [Pass(Window - 1, false), Pass(Window - 1 + Hour, true)]
  }

  lemma FailingRunIsHourly()
    ensures Hourly(FailingRun())
  {
    var run := FailingRun();
    forall i | 0 < i < |run| ensures run[i - 1].now <= run[i].now <= run[i - 1].now + Hour {
    }
  }

  lemma FailingRunSweeps()
    ensures Attempts(FailingRun(), None, Window) ==
            [Sweep(-Window, 0, true), Sweep(-1, Window - 1, false), Sweep(Hour - 1, Window - 1 + Hour, true)]
  {
    var run := FailingRun();
    var middle, last := run[1..25], run[25..];
    assert run[1..] == middle + last;
    forall i | 0 <= i < |middle| ensures Day(middle[i].now) == 0 {
      assert middle[i] == run[i + 1];
      assert 0 <= middle[i].now < DayLength;
    }
    SkipSameDay(middle, last, 0, Window);
    LastTwo(last);
  }

  lemma LastTwo(last: seq<Pass>)
    requires last == [Pass(Window - 1, false), Pass(Window - 1 + Hour, true)]
    ensures Attempts(last, Some(0), Window) ==
            [Sweep(-1, Window - 1, false), Sweep(Hour - 1, Window - 1 + Hour, true)]
  {
    var p, q := Window - 1, Window - 1 + Hour;
    assert Day(p) == 1 && Day(q) == 1;
    assert last[1..] == [Pass(q, true)] && [Pass(q, true)][1..] == [];
    assert Attempts([Pass(q, true)], Some(0), Window) == [Sweep(q - Window, q, true)] + Attempts([], Some(1), Window);
  }

  lemma MiddleFails(a: Sweep, b: Sweep, c: Sweep)
    requires a.ok && !b.ok && c.ok
    ensures Successes([a, b, c]) == [a, c]
  {
    assert [] + [a] == [a] && [a] + [b] == [a, b] && [a, b] + [c] == [a, b, c];
    SuccessesNext([], a);
    SuccessesNext([a], b);
    SuccessesNext([a, b], c);
  }

  /** A single failed attempt can leave payments unjudged for good: the windows are not widened after it. */
  lemma OneFailureLeavesAGap()
    ensures Hourly(FailingRun())
    ensures !NoGapBetweenSuccesses(Attempts(FailingRun(), None, Window))
  {
    FailingRunIsHourly();
    FailingRunSweeps();
    var a, b, c := Sweep(-Window, 0, true), Sweep(-1, Window - 1, false), Sweep(Hour - 1, Window - 1 + Hour, true);
    MiddleFails(a, b, c);
    NoGapExactly([a, b, c], Window);
    assert [a, c][1].until - [a, c][0].until > Window;
  }

  // ---------------------------------------------------------------------------
  // The discovery refresh

  /** The gate reads the clock once and the call, if there is one, is given a second reading. */
  datatype RefreshPass = RefreshPass(gate: int, refreshed: int, ok: bool)

  datatype Refresh = Refresh(gate: int, at: int, ok: bool)

  function Refreshes(passes: seq<RefreshPass>, done: Option<int>): seq<Refresh> {
    if passes == [] then []
    else
      var p := passes[0];
      if done == Some(Day(p.gate)) then Refreshes(passes[1..], done)
      else
        [Refresh(p.gate, p.refreshed, p.ok)] + Refreshes(passes[1..], if p.ok then Some(Day(p.gate)) else done)
  }

  method RefreshMarketDiscovery(passes: seq<RefreshPass>) returns (log: seq<Refresh>)
    ensures log == Refreshes(passes, None)
  {
    log := [];
    var done: Option<int> := None;
    for i := 0 to |passes|
      invariant log + Refreshes(passes[i..], done) == Refreshes(passes, None)
    {
      assert passes[i..][1..] == passes[i + 1..];
      var day := Day(passes[i].gate);
      if Some(day) != done {
        log := log + [Refresh(passes[i].gate, passes[i].refreshed, passes[i].ok)];
        if passes[i].ok {
          done := Some(day);
        }
      }
    }
  }

  /** The refresh loop gates exactly as the sweep loop does. */
  function Gates(passes: seq<RefreshPass>): seq<Pass> {
    seq(|passes|, i requires 0 <= i < |passes| => Pass(passes[i].gate, passes[i].ok))
  }

  lemma {:induction false} SameGate(passes: seq<RefreshPass>, done: Option<int>)
    ensures var log, sweeps := Refreshes(passes, done), Attempts(Gates(passes), done, 0);
            && |log| == |sweeps|
            && forall i | 0 <= i < |log| :: log[i].gate == sweeps[i].until && log[i].ok == sweeps[i].ok
  {
    if passes != [] {
      assert Gates(passes)[1..] == Gates(passes[1..]);
      var p := passes[0];
      SameGate(passes[1..], if done == Some(Day(p.gate)) || !p.ok then done else Some(Day(p.gate)));
    }
  }

  /** One success per gate day; and instants that fall on the days their gates read fall on different days. */
  lemma RefreshOncePerDay(passes: seq<RefreshPass>)
    requires Forward(Gates(passes))
    ensures var log := Refreshes(passes, None);
            forall i, j | 0 <= i < j < |log| && log[i].ok ::
              && Day(log[i].gate) < Day(log[j].gate)
              && (Day(log[i].at) == Day(log[i].gate) && Day(log[j].at) == Day(log[j].gate) ==>
                    Day(log[i].at) < Day(log[j].at))
  {
    SameGate(passes, None);
    AtMostOneSuccessPerDay(Gates(passes), None, 0);
  }

  /** The clock as a refresh loop reads it: the gate, then the call, then the next pass's gate. */
  predicate ReadInOrder(passes: seq<RefreshPass>) {
    && (forall i | 0 <= i < |passes| :: passes[i].gate <= passes[i].refreshed)
    && (forall i | 0 < i < |passes| :: passes[i - 1].refreshed <= passes[i].gate)
  }

  predicate InOrderFrom(log: seq<Refresh>, start: int) {
    && (forall i | 0 <= i < |log| :: start <= log[i].gate <= log[i].at)
    && (forall i, j | 0 <= i < j < |log| :: log[i].at <= log[j].gate)
  }

  lemma {:induction false} RefreshesInOrder(passes: seq<RefreshPass>, done: Option<int>, start: int)
    requires ReadInOrder(passes) && (passes != [] ==> start <= passes[0].gate)
    ensures InOrderFrom(Refreshes(passes, done), start)
  {
    if passes != [] {
      var p, rest := passes[0], passes[1..];
      assert forall i | 0 <= i < |rest| :: rest[i] == passes[i + 1];
      RefreshesInOrder(rest, if done == Some(Day(p.gate)) || !p.ok then done else Some(Day(p.gate)), p.refreshed);
    }
  }

  lemma {:induction false} GatesForward(passes: seq<RefreshPass>)
    requires ReadInOrder(passes)
    ensures Forward(Gates(passes))
  {
    forall i | 0 < i < |passes| ensures passes[i - 1].gate <= passes[i].gate {
      assert passes[i - 1].gate <= passes[i - 1].refreshed <= passes[i].gate;
    }
  }

  /** The clock passed midnight between the two readings of `a`, into the day `b` was gated on, and did not
      pass it between those of `b`. */
  predicate CrossedInto(a: Refresh, b: Refresh) {
    Day(a.gate) < Day(a.at) && Day(a.at) == Day(b.gate) && Day(b.gate) == Day(b.at)
  }

  /** Two successful refreshes are given instants of one UTC day exactly when the first crossed midnight into
      the day of the second. */
  lemma SameDayExactly(passes: seq<RefreshPass>, i: nat, j: nat)
    requires ReadInOrder(passes) && i < j < |Refreshes(passes, None)|
    requires Refreshes(passes, None)[i].ok && Refreshes(passes, None)[j].ok
    ensures var log := Refreshes(passes, None);
            Day(log[i].at) == Day(log[j].at) <==> CrossedInto(log[i], log[j])
  {
    GatesForward(passes);
    RefreshOncePerDay(passes);
    RefreshesInOrder(passes, None, if passes == [] then 0 else passes[0].gate);
    var a, b := Refreshes(passes, None)[i], Refreshes(passes, None)[j];
    DayForward(a.gate, a.at);
    DayForward(a.at, b.gate);
    DayForward(b.gate, b.at);
  }

  lemma DayForward(s: int, t: int)
    requires s <= t
    ensures Day(s) <= Day(t)
  {
  }

  /** Which happens: two successful refreshes, read in order, with instants of one and the same day. */
  lemma RefreshTwiceInOneDay()
    ensures ReadInOrder([RefreshPass(DayLength - 1, DayLength, true),
                         RefreshPass(DayLength - 1 + Hour, DayLength + Hour, true)])
    ensures var log := Refreshes([RefreshPass(DayLength - 1, DayLength, true),
                                  RefreshPass(DayLength - 1 + Hour, DayLength + Hour, true)], None);
            |log| == 2 && log[0].ok && log[1].ok && Day(log[0].at) == Day(log[1].at)
  {
    var p, q := RefreshPass(DayLength - 1, DayLength, true), RefreshPass(DayLength - 1 + Hour, DayLength + Hour, true);
    assert Day(p.gate) == 0 && Day(q.gate) == 1;
    assert [p, q][1..] == [q] && [q][1..] == [];
    assert Refreshes([q], Some(0)) == [Refresh(q.gate, q.refreshed, true)];
    assert Refreshes([p, q], None) == [Refresh(p.gate, p.refreshed, true)] + Refreshes([q], Some(0));
    assert Day(p.refreshed) == 1 && Day(q.refreshed) == 1;
  }
}
