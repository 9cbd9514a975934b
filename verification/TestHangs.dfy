/** A test binary that always hangs: check_bin's time limit, the retry clock and the repair counter together force a
    shutdown. */
module TestHangs {
  import opened Common
  import opened TestBinary
  import opened TestRuns
  import Retry

  // ----- one call -----

  /** The entry is unfinished or timed out. */
  predicate Pending(e: Child) { e.verdict.None? || e.verdict == Some(ETOOLONG) }

  /** The child of the name, if it is unfinished, is not reaped by the call. */
  predicate Hangs(t: seq<Child>, c: Call, name: string)
  {
    match EntryOf(t, name)
    case None => true
    case Some(e) => Pending(e) && (e.verdict.None? ==> Reported(c.reaps, e.pid).None?)
  }

  /** What a call makes of an entry for a name that hangs: it stays, perhaps timed out now. */
  lemma HangAdvances(e: Child, c: Call)
    requires Pending(e) && (e.verdict.None? ==> Reported(c.reaps, e.pid).None?) && 0 < c.limit
    ensures var e' := Advance(e, c);
            && Pending(e') && e'.start == e.start
            && (e'.verdict.None? ==> ToInt32(c.now - e.start) <= c.limit)
  {
  }

  /** A child just started for the name by the call. */
  predicate StartedNow(e: Option<Child>, c: Call)
  {
    e.Some? && e.value.verdict.None? && c.fork.Forked? && e.value.start == c.fork.start
  }

  /** What one call does for a name whose children hang: the entry before and after, and what the call returns. */
  predicate Effect(e: Option<Child>, e': Option<Child>, code: int, c: Call, name: string)
  {
    if c.name != Some(name) then
      (e.None? ==> e'.None?) && (e.Some? ==> e'.Some? && Pending(e'.value) && e'.value.start == e.value.start)
    else if e.None? then code == EDONTKNOW && StartedNow(e', c)
    else
      || (&& code == EDONTKNOW && e'.Some? && Pending(e'.value) && e'.value.start == e.value.start
          && ToInt32(c.now - e.value.start) <= c.limit)
      || (code == ETOOLONG && StartedNow(e', c))
  }

  lemma HangStep(t: seq<Child>, c: Call, name: string)
    requires Distinct(t) && Healthy(t, c) && Hangs(t, c, name) && 0 < c.limit
    ensures Effect(EntryOf(t, name), EntryOf(TableAfter(t, c), name), ReturnCode(t, c), c, name)
  {
    EntryRefreshed(t, c, name);
    EntryStep(t, c, name);
    if EntryOf(t, name).Some? { HangAdvances(EntryOf(t, name).value, c); }
  }

  // ----- the reports of one name -----

  type Times = nat -> int

  /** A run as seen by one name: its entry after each number of calls, what each call returns, at(k) as the time of
      the report for call k, and repair(k) as what a repair would return then. */
  datatype Watch =
    Watch(calls: seq<Call>, name: string, entry: nat -> Option<Child>, code: Times, at: Times, repair: Times)

  /** What check_bin makes of the run. */
  function WatchOf(calls: seq<Call>, name: string, at: Times, repair: Times): Watch
  {
    Watch(calls, name,
          (n: nat) => EntryOf(Table(if n <= |calls| then calls[..n] else calls), name),
          (k: nat) => if k < |calls| then ReturnCode(Table(calls[..k]), calls[k]) else ENOERR,
          at, repair)
  }

  predicate Asks(w: Watch, k: nat) { k < |w.calls| && w.calls[k].name == Some(w.name) }

  /** What wd_action hears about the name in the first n calls. */
  function Reports(w: Watch, n: nat): seq<Retry.Report>
  {
    if n == 0 then []
    else
      var k := n - 1;
      Reports(w, k) + if Asks(w, k) then [Retry.Report(w.code(k), w.at(k), w.repair(k))] else []
  }

  /** When check_bin last looked at the clock in a call for the name. */
  function LastLook(w: Watch, n: nat): Option<int>
  {
    if n == 0 then None else if Asks(w, n - 1) then Some(w.calls[n - 1].now) else LastLook(w, n - 1)
  }

  /** The clock within call k: it is looked at, perhaps a child is started, then the result is reported. */
  predicate ClockOk(w: Watch, k: nat)
    requires k < |w.calls|
  {
    var c := w.calls[k];
    && 0 < w.at(k) && c.now <= w.at(k)
    && (c.fork.Forked? ==> c.now <= c.fork.start <= w.at(k))
  }

  /** From looking at the clock in one call for the name to the report of the next at most p seconds pass. */
  predicate PromptAt(w: Watch, p: int, k: nat)
  {
    Asks(w, k) && LastLook(w, k).Some? ==> w.at(k) - LastLook(w, k).value <= p
  }

  /** Call k has the time limit, and the child of the name, if it is unfinished, is not reaped by it. */
  predicate HangsAt(w: Watch, limit: int, k: nat)
    requires k < |w.calls|
  {
    && w.calls[k].limit == limit
    && match w.entry(k)
       case None => true
       case Some(e) => e.verdict.None? ==> Reported(w.calls[k].reaps, e.pid).None?
  }

  predicate TicksAt(w: Watch, k: nat) { 0 < k ==> w.at(k - 1) <= w.at(k) }

  /** The clock never runs backwards, and the name is asked for often enough. */
  predicate Timely(w: Watch, p: int)
  {
    && (forall k | 0 <= k < |w.calls| :: ClockOk(w, k))
    && (forall k | 0 <= k < |w.calls| :: PromptAt(w, p, k))
    && (forall k | 0 <= k < |w.calls| :: TicksAt(w, k))
  }

  /** All children of the name hang. */
  predicate Hanging(w: Watch, limit: int) { forall k | 0 <= k < |w.calls| :: HangsAt(w, limit, k) }

  // ----- what holds after every call -----

  /** When the entry's child was started at the latest: with the last error report, or with the first report of all. */
  function Origin(reps: seq<Retry.Report>): int
    requires reps != []
  {
    var heard := Retry.Heard(reps);
    if heard == [] then reps[0].now else heard[|heard| - 1].now
  }

  /** The reports so far are errors at most g apart with silence between, the first at most g after the first report,
      and the last report of all at most g after the last error. */
  predicate Regular(reps: seq<Retry.Report>, g: int)
    requires reps != []
  {
    var heard := Retry.Heard(reps);
    && Retry.OnlyRepairable(heard) && Retry.Spaced(heard, g)
    && (heard != [] ==> heard[0].now - reps[0].now <= g)
    && reps[|reps| - 1].now - Origin(reps) <= g
  }

  /** The entry's child was running, at the last look at the clock, for no longer than the limit. */
  predicate OnTime(e: Option<Child>, reps: seq<Retry.Report>, look: int, limit: int)
    requires reps != []
  {
    e.Some? && Pending(e.value) && look - e.value.start <= limit && e.value.start <= Origin(reps)
  }

  predicate Steady(e: Option<Child>, reps: seq<Retry.Report>, look: int, limit: int, g: int)
  {
    if reps == [] then e.None? else Regular(reps, g) && OnTime(e, reps, look, limit)
  }

  /** The first report: the child has just been started. */
  lemma FirstReport(x: Retry.Report, e: Option<Child>, c: Call, limit: int, g: int)
    requires x.code == EDONTKNOW && StartedNow(e, c) && c.now <= c.fork.start <= x.now && 0 < limit && 0 <= g
    ensures Steady(e, [x], c.now, limit, g)
  {
    assert [x][..0] == [];
    assert Retry.Heard([x]) == [];
  }

  /** A silent report. */
  lemma SilentReport(e: Child, reps: seq<Retry.Report>, look: int, x: Retry.Report, e': Child, now: int,
      limit: int, p: int)
    requires reps != [] && Steady(Some(e), reps, look, limit, limit + p)
    requires x.code == EDONTKNOW && x.now - look <= p && Pending(e') && e'.start == e.start && now - e.start <= limit
    ensures Steady(Some(e'), reps + [x], now, limit, limit + p)
  {
    Retry.HeardSnoc(reps, x);
  }

  /** An error report, with which the next child is started. */
  lemma ErrorReport(e: Child, reps: seq<Retry.Report>, look: int, x: Retry.Report, e': Option<Child>, c: Call,
      limit: int, p: int)
    requires reps != [] && Steady(Some(e), reps, look, limit, limit + p) && 0 < limit && 0 <= limit + p
    requires x.code == ETOOLONG && x.now - look <= p && StartedNow(e', c) && c.now <= c.fork.start <= x.now
    ensures Steady(e', reps + [x], c.now, limit, limit + p)
  {
    Retry.HeardSnoc(reps, x);
    var heard := Retry.Heard(reps);
    var more := heard + [x];
    forall i | 0 <= i < |more| - 1 ensures more[i + 1].now - more[i].now <= limit + p {
      if i < |heard| - 1 { assert heard[i + 1].now - heard[i].now <= limit + p; }
    }
  }

  /** One call, for this name or not. */
  lemma SteadyStep(
    e: Option<Child>, e': Option<Child>, c: Call, name: string, reps: seq<Retry.Report>, x: Retry.Report, look: int,
    limit: int, p: int
  )
    requires Effect(e, e', x.code, c, name) && 0 < c.limit == limit
    requires 0 <= limit + p <= INT_MAX && Steady(e, reps, look, limit, limit + p)
    requires c.now <= x.now && (reps != [] && c.name == Some(name) ==> x.now - look <= p)
    requires c.fork.Forked? ==> c.now <= c.fork.start <= x.now
    ensures if c.name == Some(name) then Steady(e', reps + [x], c.now, limit, limit + p)
            else Steady(e', reps, look, limit, limit + p)
  {
    if c.name == Some(name) {
      if reps == [] {
        FirstReport(x, e', c, limit, limit + p);
        assert reps + [x] == [x];
      } else if x.code == EDONTKNOW {
        InTime(c.now - e.value.start, limit);
        SilentReport(e.value, reps, look, x, e'.value, c.now, limit, p);
      } else {
        ErrorReport(e.value, reps, look, x, e', c, limit, p);
      }
    }
  }

  lemma InTime(age: int, limit: int)
    requires age <= INT_MAX && ToInt32(age) <= limit && 0 < limit
    ensures age <= limit
  {
  }

  // ----- whole runs -----

  predicate EffectAt(w: Watch, k: nat)
    requires k < |w.calls|
  {
    && (w.entry(k).Some? ==> Pending(w.entry(k).value))
    ==> Effect(w.entry(k), w.entry(k + 1), w.code(k), w.calls[k], w.name)
  }

  predicate SteadyAt(w: Watch, limit: int, p: int, n: nat)
  {
    && (LastLook(w, n).None? <==> Reports(w, n) == [])
    && Steady(w.entry(n), Reports(w, n), if LastLook(w, n).Some? then LastLook(w, n).value else 0, limit, limit + p)
  }

  lemma WatchStep(w: Watch, k: nat)
    requires k < |w.calls|
    ensures Reports(w, k + 1) == if Asks(w, k) then Reports(w, k) + [Retry.Report(w.code(k), w.at(k), w.repair(k))]
                                 else Reports(w, k)
    ensures LastLook(w, k + 1) == if Asks(w, k) then Some(w.calls[k].now) else LastLook(w, k)
  {
    assert Reports(w, k) + [] == Reports(w, k);
  }

  lemma SteadyNext(w: Watch, limit: int, p: int, k: nat)
    requires k < |w.calls| && 0 < limit == w.calls[k].limit && 0 <= limit + p <= INT_MAX
    requires EffectAt(w, k) && ClockOk(w, k) && PromptAt(w, p, k) && SteadyAt(w, limit, p, k)
    ensures SteadyAt(w, limit, p, k + 1)
  {
    var look := if LastLook(w, k).Some? then LastLook(w, k).value else 0;
    WatchStep(w, k);
    SteadyStep(w.entry(k), w.entry(k + 1), w.calls[k], w.name, Reports(w, k),
               Retry.Report(w.code(k), w.at(k), w.repair(k)), look, limit, p);
  }

  lemma SteadyKept(w: Watch, limit: int, p: int, k: nat)
    requires k < |w.calls| && 0 < limit && 0 <= limit + p <= INT_MAX
    requires HangsAt(w, limit, k) && ClockOk(w, k) && PromptAt(w, p, k) && EffectAt(w, k)
    ensures SteadyAt(w, limit, p, k) ==> SteadyAt(w, limit, p, k + 1)
  {
    if SteadyAt(w, limit, p, k) { SteadyNext(w, limit, p, k); }
  }

  lemma SteadyFirst(w: Watch, limit: int, p: int)
    requires w.entry(0) == None
    ensures SteadyAt(w, limit, p, 0)
  {
  }

  lemma SteadyAfter(w: Watch, limit: int, p: int)
    requires 0 < limit && 0 <= limit + p <= INT_MAX && w.entry(0) == None
    requires Hanging(w, limit) && Timely(w, p) && forall k | 0 <= k < |w.calls| :: EffectAt(w, k)
    ensures SteadyAt(w, limit, p, |w.calls|)
  {
    var holds := (n: nat) => SteadyAt(w, limit, p, n);
    SteadyFirst(w, limit, p);
    forall k | 0 <= k < |w.calls| ensures StepsOn(holds, k) {
      assert HangsAt(w, limit, k) && ClockOk(w, k) && PromptAt(w, p, k) && EffectAt(w, k);
      SteadyKept(w, limit, p, k);
    }
    ByInduction(holds, |w.calls|);
  }

  /** The reports are in clock order, the last no later than t. */
  predicate UpTo(reps: seq<Retry.Report>, t: int)
  {
    Retry.Clock(reps) && (reps != [] ==> reps[|reps| - 1].now <= t)
  }

  lemma UpToSnoc(reps: seq<Retry.Report>, t: int, x: Retry.Report)
    requires UpTo(reps, t) && t <= x.now && 0 < x.now
    ensures UpTo(reps, x.now) && UpTo(reps + [x], x.now)
  {
    Retry.ClockSnoc(reps, x);
  }

  predicate ClockAt(w: Watch, n: nat) { UpTo(Reports(w, n), if n == 0 then 0 else w.at(n - 1)) }

  lemma ClockKept(w: Watch, k: nat)
    requires k < |w.calls| && ClockOk(w, k) && TicksAt(w, k)
    ensures ClockAt(w, k) ==> ClockAt(w, k + 1)
  {
    if ClockAt(w, k) {
      WatchStep(w, k);
      UpToSnoc(Reports(w, k), if k == 0 then 0 else w.at(k - 1), Retry.Report(w.code(k), w.at(k), w.repair(k)));
    }
  }

  lemma ReportsClock(w: Watch, p: int)
    requires Timely(w, p)
    ensures ClockAt(w, |w.calls|)
  {
    var holds := (n: nat) => ClockAt(w, n);
    forall k | 0 <= k < |w.calls| ensures StepsOn(holds, k) {
      assert ClockOk(w, k) && TicksAt(w, k);
      ClockKept(w, k);
    }
    ByInduction(holds, |w.calls|);
  }

  lemma BoundsAddUp(cfg: Retry.Settings, g: int)
    requires 0 < cfg.retryTimeout && 0 < cfg.repairMax && 0 <= g
    ensures 0 <= Retry.Endurance(cfg, g)
    ensures Retry.Endurance(cfg, g) + 2 * g == (cfg.repairMax + 1) * cfg.retryTimeout + (2 * cfg.repairMax + 2) * g
  {
    Retry.EnduranceArithmetic(cfg, g);
    assert (2 * cfg.repairMax + 2) * g == 2 * cfg.repairMax * g + 2 * g;
  }

  lemma RegularBounded(cfg: Retry.Settings, reps: seq<Retry.Report>, g: int)
    requires 0 < cfg.retryTimeout && 0 < cfg.repairMax && !cfg.noAct && 0 <= g && cfg.retryTimeout + g <= INT_MAX
    requires reps != [] && Retry.Clock(reps) && Retry.Alive(cfg, reps) && Regular(reps, g)
    ensures Retry.Elapsed(reps) <= (cfg.repairMax + 1) * cfg.retryTimeout + (2 * cfg.repairMax + 2) * g
  {
    BoundsAddUp(cfg, g);
    if Retry.Heard(reps) != [] { Retry.FaultHeardBounded(cfg, g, reps); }
  }

  lemma EffectOf(calls: seq<Call>, name: string, at: Times, repair: Times, limit: int, k: nat)
    requires HealthyRun(calls) && k < |calls| && 0 < limit && HangsAt(WatchOf(calls, name, at, repair), limit, k)
    ensures EffectAt(WatchOf(calls, name, at, repair), k)
  {
    DistinctAt(calls, k);
    assert FreshAt(calls, k) && GrantedAt(calls, k);
    TableStep(calls, k);
    var e := EntryOf(Table(calls[..k]), name);
    if e.None? || Pending(e.value) { HangStep(Table(calls[..k]), calls[k], name); }
  }

  lemma WatchedBounded(cfg: Retry.Settings, w: Watch, limit: int, p: int)
    requires 0 < limit && 0 <= p && w.entry(0) == None
    requires Hanging(w, limit) && Timely(w, p) && forall k | 0 <= k < |w.calls| :: EffectAt(w, k)
    requires 0 < cfg.retryTimeout && 0 < cfg.repairMax && !cfg.noAct && cfg.retryTimeout + limit + p <= INT_MAX
    requires Reports(w, |w.calls|) != [] && Retry.Alive(cfg, Reports(w, |w.calls|))
    ensures Retry.Elapsed(Reports(w, |w.calls|))
         <= (cfg.repairMax + 1) * cfg.retryTimeout + (2 * cfg.repairMax + 2) * (limit + p)
  {
    SteadyAfter(w, limit, p);
    ReportsClock(w, p);
    RegularBounded(cfg, Reports(w, |w.calls|), limit + p);
  }

  /** A test binary that always hangs forces a shutdown, whatever the repairs return: with test limit T, retry timeout
      r, at most k repairs and at most p seconds from looking at the clock in one call to the report of the next, the
      daemon still runs after a report only within (k+1)r + (2k+2)(T+p) seconds of the first one. */
  lemma HungTestForcesShutdown(
    cfg: Retry.Settings, calls: seq<Call>, name: string, at: Times, repair: Times, limit: int, p: int
  )
    requires HealthyRun(calls) && 0 < limit && 0 <= p
    requires var w := WatchOf(calls, name, at, repair);
             && Hanging(w, limit) && Timely(w, p)
             && Reports(w, |calls|) != [] && Retry.Alive(cfg, Reports(w, |calls|))
    requires 0 < cfg.retryTimeout && 0 < cfg.repairMax && !cfg.noAct && cfg.retryTimeout + limit + p <= INT_MAX
    ensures Retry.Elapsed(Reports(WatchOf(calls, name, at, repair), |calls|))
         <= (cfg.repairMax + 1) * cfg.retryTimeout + (2 * cfg.repairMax + 2) * (limit + p)
  {
    var w := WatchOf(calls, name, at, repair);
    forall k | 0 <= k < |calls| ensures EffectAt(w, k) {
      assert HangsAt(w, limit, k);
      EffectOf(calls, name, at, repair, limit, k);
    }
    assert calls[..0] == [];
    WatchedBounded(cfg, w, limit, p);
  }
}
