/** The retry clock and repair counter of one monitored item (wd_action in src/watchdog.c),
    and what they guarantee over whole runs of reports. */
module Retry {
  import opened Common

  /** Settings that wd_action consults. */
  datatype Settings = Settings(retryTimeout: int, repairMax: int, noAct: bool)

  /** The two fields of `struct list` that wd_action updates. A cleared clock is 0. */
  datatype ItemState = ItemState(lastTime: int, repairCount: int)

  const CLEAN := ItemState(0, 0)

  /** One report about an item: the check's result, time(NULL) when wd_action looks at the clock,
      and what repair() would return if it were called. */
  datatype Report = Report(code: int, now: int, repair: int)

  /** The item afterwards, whether repair() ran, and the error that reaches the shutdown decision. */
  datatype Reaction = Reaction(state: ItemState, repaired: bool, error: int)

  predicate Unrepairable(code: int) { code == EREBOOT || code == ERESET || code == ETOOHOT }

  predicate Repairable(code: int) { code != ENOERR && code != EDONTKNOW && !Unrepairable(code) }

  function Step(cfg: Settings, s: ItemState, rep: Report): Reaction
  {
    if rep.code == ENOERR then Reaction(CLEAN, false, ENOERR)
    else if rep.code == EDONTKNOW then Reaction(s, false, ENOERR)
    else if Unrepairable(rep.code) then Reaction(s, false, rep.code)
    else if cfg.retryTimeout > 0 && s.lastTime == 0 then
      Reaction(s.(lastTime := rep.now), false, ENOERR)
    else if cfg.retryTimeout > 0 && ToInt32(rep.now - s.lastTime) <= cfg.retryTimeout then
      Reaction(s, false, ENOERR)
    else if cfg.repairMax <= 0 then Reaction(s, true, rep.repair)
    else if s.repairCount + 1 > cfg.repairMax then
      Reaction(s.(repairCount := s.repairCount + 1), false, rep.code)
    else Reaction(ItemState(0, s.repairCount + 1), true, rep.repair)
  }

  /** The reaction shuts the machine down unless --no-action blocks it. */
  predicate Fatal(cfg: Settings, x: Reaction) { x.error != ENOERR && !cfg.noAct }

  // ----- runs -----

  /** State of an item that started clean, after all the reports. */
  function After(cfg: Settings, reps: seq<Report>): ItemState
  {
    if reps == [] then CLEAN
    else Step(cfg, After(cfg, reps[..|reps| - 1]), reps[|reps| - 1]).state
  }

  /** Reaction to report i of a run. */
  function At(cfg: Settings, reps: seq<Report>, i: nat): Reaction
    requires i < |reps|
  {
    Step(cfg, After(cfg, reps[..i]), reps[i])
  }

  /** No report of the run ended it. */
  predicate Alive(cfg: Settings, reps: seq<Report>)
  {
    forall i | 0 <= i < |reps| :: !Fatal(cfg, At(cfg, reps, i))
  }

  /** A positive clock that never runs backwards. */
  predicate Clock(reps: seq<Report>)
  {
    && (forall i | 0 <= i < |reps| :: 0 < reps[i].now)
    && (forall i, j | 0 <= i <= j < |reps| :: reps[i].now <= reps[j].now)
  }

  predicate OnlyRepairable(reps: seq<Report>)
  {
    forall i | 0 <= i < |reps| :: Repairable(reps[i].code)
  }

  /** Consecutive reports are at most g seconds apart. */
  predicate Spaced(reps: seq<Report>, g: int)
  {
    forall i | 0 <= i < |reps| - 1 :: reps[i + 1].now - reps[i].now <= g
  }

  lemma AfterPrefix(cfg: Settings, reps: seq<Report>, n: nat)
    requires n < |reps|
    ensures After(cfg, reps[..n + 1]) == At(cfg, reps, n).state
  {
    assert reps[..n + 1][..n] == reps[..n];
  }

  lemma AtPrefix(cfg: Settings, reps: seq<Report>, n: nat, i: nat)
    requires i < n <= |reps|
    ensures At(cfg, reps[..n], i) == At(cfg, reps, i)
  {
    assert reps[..n][..i] == reps[..i];
  }

  lemma AlivePrefix(cfg: Settings, reps: seq<Report>, n: nat)
    requires n <= |reps| && Alive(cfg, reps)
    ensures Alive(cfg, reps[..n])
  {
    forall i | 0 <= i < n ensures !Fatal(cfg, At(cfg, reps[..n], i)) {
      AtPrefix(cfg, reps, n, i);
    }
  }

  lemma AliveSnoc(cfg: Settings, reps: seq<Report>, x: Report)
    requires Alive(cfg, reps)
    requires !Fatal(cfg, Step(cfg, After(cfg, reps), x))
    ensures Alive(cfg, reps + [x])
    ensures After(cfg, reps + [x]) == Step(cfg, After(cfg, reps), x).state
  {
    var all := reps + [x];
    assert all[..|reps|] == reps;
    forall i | 0 <= i < |all| ensures !Fatal(cfg, At(cfg, all, i)) {
      if i < |reps| { AtPrefix(cfg, all, |reps|, i); }
    }
  }

  // ----- a fault that never clears forces a shutdown -----

  /** Where a run of nothing but repairable errors stands after c repairs: either the clock runs since at most
      c full cycles after the first report and has not expired, or a repair has just cleared it. */
  predicate OnSchedule(cfg: Settings, g: int, first: int, last: int, s: ItemState)
  {
    && 0 <= s.repairCount <= cfg.repairMax
    && if s.lastTime != 0 then
         && 0 < s.lastTime <= last <= s.lastTime + cfg.retryTimeout
         && s.lastTime <= first + s.repairCount * (cfg.retryTimeout + 2 * g)
       else last <= first + s.repairCount * (cfg.retryTimeout + 2 * g) - g
  }

  lemma OnScheduleStep(cfg: Settings, g: int, first: int, last: int, s: ItemState, x: Report)
    requires 0 < cfg.retryTimeout && 0 < cfg.repairMax && !cfg.noAct && 0 <= g
    requires cfg.retryTimeout + g <= INT_MAX
    requires OnSchedule(cfg, g, first, last, s)
    requires Repairable(x.code) && 0 < x.now && last <= x.now <= last + g
    requires !Fatal(cfg, Step(cfg, s, x))
    ensures OnSchedule(cfg, g, first, x.now, Step(cfg, s, x).state)
  {
    var w := cfg.retryTimeout + 2 * g;
    assert (s.repairCount + 1) * w == s.repairCount * w + w;
    if s.lastTime != 0 {
      assert ToInt32(x.now - s.lastTime) == x.now - s.lastTime;
    }
  }

  lemma {:induction false} StaysOnSchedule(cfg: Settings, g: int, reps: seq<Report>)
    requires 0 < cfg.retryTimeout && 0 < cfg.repairMax && !cfg.noAct && 0 <= g
    requires cfg.retryTimeout + g <= INT_MAX
    requires |reps| > 0 && OnlyRepairable(reps) && Clock(reps) && Spaced(reps, g) && Alive(cfg, reps)
    ensures OnSchedule(cfg, g, reps[0].now, reps[|reps| - 1].now, After(cfg, reps))
  {
    var n := |reps| - 1;
    AfterPrefix(cfg, reps, n);
    assert reps[..n + 1] == reps;
    if n == 0 {
      assert reps[..0] == [];
    } else {
      AlivePrefix(cfg, reps, n);
      StaysOnSchedule(cfg, g, reps[..n]);
      assert !Fatal(cfg, At(cfg, reps, n));
      assert reps[n - 1 + 1].now - reps[n - 1].now <= g;
      OnScheduleStep(cfg, g, reps[0].now, reps[n - 1].now, After(cfg, reps[..n]), reps[n]);
    }
  }

  lemma ScheduleEnds(cfg: Settings, g: int, first: int, last: int, s: ItemState)
    requires 0 < cfg.retryTimeout && 0 <= g && OnSchedule(cfg, g, first, last, s)
    ensures last - first <= (cfg.repairMax + 1) * cfg.retryTimeout + 2 * cfg.repairMax * g
  {
    var w := cfg.retryTimeout + 2 * g;
    var spare := cfg.repairMax - s.repairCount;
    assert spare * w >= 0;
    assert spare * w == cfg.repairMax * w - s.repairCount * w;
    assert cfg.repairMax * w == cfg.repairMax * cfg.retryTimeout + 2 * cfg.repairMax * g;
  }

  /** Seconds for which a fault can persist with the daemon still running after a report. */
  function Endurance(cfg: Settings, g: int): int
  {
    (cfg.repairMax + 1) * cfg.retryTimeout + 2 * cfg.repairMax * g
  }

  lemma SurvivedReports(cfg: Settings, g: int, reps: seq<Report>)
    requires 0 < cfg.retryTimeout && 0 < cfg.repairMax && !cfg.noAct && 0 <= g
    requires cfg.retryTimeout + g <= INT_MAX
    requires |reps| > 0 && OnlyRepairable(reps) && Clock(reps) && Spaced(reps, g) && Alive(cfg, reps)
    ensures reps[|reps| - 1].now - reps[0].now <= Endurance(cfg, g)
  {
    StaysOnSchedule(cfg, g, reps);
    ScheduleEnds(cfg, g, reps[0].now, reps[|reps| - 1].now, After(cfg, reps));
  }

  lemma EnduranceArithmetic(cfg: Settings, g: int)
    requires 0 < cfg.retryTimeout && 0 < cfg.repairMax && 0 <= g
    ensures 0 <= Endurance(cfg, g)
    ensures Endurance(cfg, g) + g == (cfg.repairMax + 1) * cfg.retryTimeout + (2 * cfg.repairMax + 1) * g
  {
  }

  /** A run of repairable errors only, at most g seconds apart, with the daemon still running at its last report. */
  predicate FaultRun(cfg: Settings, g: int, reps: seq<Report>)
  {
    |reps| > 0 && OnlyRepairable(reps) && Clock(reps) && Spaced(reps, g) && Alive(cfg, reps[..|reps| - 1])
  }

  function Elapsed(reps: seq<Report>): int
    requires |reps| > 0
  {
    reps[|reps| - 1].now - reps[0].now
  }

  /** A fault that never clears: the daemon is still running at a report only within (k+1)r + (2k+1)g seconds
      of the first one, and after it only within (k+1)r + 2kg. */
  lemma BoundedShutdown(cfg: Settings, g: int, reps: seq<Report>)
    requires 0 < cfg.retryTimeout && 0 < cfg.repairMax && !cfg.noAct && 0 <= g
    requires cfg.retryTimeout + g <= INT_MAX
    requires FaultRun(cfg, g, reps)
    ensures Elapsed(reps) <= (cfg.repairMax + 1) * cfg.retryTimeout + (2 * cfg.repairMax + 1) * g
    ensures Alive(cfg, reps) ==> Elapsed(reps) <= Endurance(cfg, g)
  {
    var n := |reps| - 1;
    EnduranceArithmetic(cfg, g);
    if n > 0 {
      SurvivedReports(cfg, g, reps[..n]);
      assert reps[n - 1 + 1].now - reps[n - 1].now <= g;
    }
    if Alive(cfg, reps) { SurvivedReports(cfg, g, reps); }
  }

  // ----- from any passing report on -----

  /** A history that leaves the item as the other does, and that was survived only if the other was. */
  predicate Covers(cfg: Settings, a: seq<Report>, b: seq<Report>)
  {
    After(cfg, a) == After(cfg, b) && (Alive(cfg, a) ==> Alive(cfg, b))
  }

  lemma CoversMore(cfg: Settings, a: seq<Report>, b: seq<Report>, x: Report)
    requires Covers(cfg, a, b)
    ensures Covers(cfg, a + [x], b + [x])
  {
    AliveStep(cfg, a, x);
    AliveStep(cfg, b, x);
  }

  lemma {:induction false} FreshStart(cfg: Settings, a: seq<Report>, b: seq<Report>)
    requires After(cfg, a) == CLEAN
    ensures Covers(cfg, a + b, b)
  {
    if b == [] {
      assert a + b == a;
    } else {
      var init, x := b[..|b| - 1], b[|b| - 1];
      FreshStart(cfg, a, init);
      CoversMore(cfg, a + init, init, x);
      assert a + b == (a + init) + [x] && b == init + [x];
    }
  }

  lemma PassCleans(cfg: Settings, reps: seq<Report>, n: nat)
    requires n <= |reps| && (n == 0 || reps[n - 1].code == ENOERR)
    ensures After(cfg, reps[..n]) == CLEAN
  {
    if n > 0 { AfterPrefix(cfg, reps, n - 1); }
  }

  // ----- silence -----

  /** The reports that say something. */
  function Heard(reps: seq<Report>): seq<Report>
  {
    if reps == [] then []
    else
      var k := |reps| - 1;
      Heard(reps[..k]) + if reps[k].code == EDONTKNOW then [] else [reps[k]]
  }

  lemma HeardSnoc(reps: seq<Report>, x: Report)
    ensures Heard(reps + [x]) == Heard(reps) + if x.code == EDONTKNOW then [] else [x]
  {
    assert (reps + [x])[..|reps|] == reps;
  }

  lemma AliveStep(cfg: Settings, reps: seq<Report>, x: Report)
    ensures Alive(cfg, reps + [x]) <==> Alive(cfg, reps) && !Fatal(cfg, Step(cfg, After(cfg, reps), x))
    ensures After(cfg, reps + [x]) == Step(cfg, After(cfg, reps), x).state
  {
    var all := reps + [x];
    assert all[..|reps|] == reps;
    if Alive(cfg, all) {
      AlivePrefix(cfg, all, |reps|);
      assert !Fatal(cfg, At(cfg, all, |reps|));
    } else if !Fatal(cfg, Step(cfg, After(cfg, reps), x)) && Alive(cfg, reps) {
      AliveSnoc(cfg, reps, x);
    }
  }

  /** Two histories that the item cannot tell apart. */
  predicate Alike(cfg: Settings, a: seq<Report>, b: seq<Report>)
  {
    After(cfg, a) == After(cfg, b) && (Alive(cfg, a) <==> Alive(cfg, b))
  }

  lemma AlikeAgain(cfg: Settings, a: seq<Report>, b: seq<Report>, x: Report)
    requires Alike(cfg, a, b)
    ensures Alike(cfg, a + [x], b + [x])
    ensures x.code == EDONTKNOW ==> Alike(cfg, a, b + [x])
  {
    AliveStep(cfg, a, x);
    AliveStep(cfg, b, x);
  }

  /** "Don't know" makes no difference, neither to the item nor to survival. */
  lemma {:induction false} SilenceChangesNothing(cfg: Settings, reps: seq<Report>)
    ensures Alike(cfg, Heard(reps), reps)
  {
    if reps != [] {
      var init, x := reps[..|reps| - 1], reps[|reps| - 1];
      assert init + [x] == reps;
      SilenceChangesNothing(cfg, init);
      AlikeAgain(cfg, Heard(init), init, x);
      HeardSnoc(init, x);
      assert Heard(init) + [] == Heard(init);
    }
  }

  lemma ClockSnoc(reps: seq<Report>, x: Report)
    requires Clock(reps) && 0 < x.now && (reps != [] ==> reps[|reps| - 1].now <= x.now)
    ensures Clock(reps + [x])
  {
  }

  lemma {:induction false} HeardClock(reps: seq<Report>)
    requires Clock(reps)
    ensures Clock(Heard(reps))
    ensures Heard(reps) != [] ==> Heard(reps)[|Heard(reps)| - 1].now <= reps[|reps| - 1].now
  {
    if reps != [] {
      var init, x := reps[..|reps| - 1], reps[|reps| - 1];
      HeardClock(init);
      assert init != [] ==> init[|init| - 1].now <= x.now;
      ClockSnoc(Heard(init), x);
    }
  }

  /** A fault that sets in after a pass, whatever happened before and with any silence between the error reports, is
      survived for at most (k+1)r + 2kg seconds. */
  lemma FaultSincePassBounded(cfg: Settings, g: int, reps: seq<Report>, n: nat)
    requires 0 < cfg.retryTimeout && 0 < cfg.repairMax && !cfg.noAct && 0 <= g && cfg.retryTimeout + g <= INT_MAX
    requires Clock(reps) && Alive(cfg, reps)
    requires n <= |reps| && (n == 0 || reps[n - 1].code == ENOERR)
    requires var heard := Heard(reps[n..]); heard != [] && OnlyRepairable(heard) && Spaced(heard, g)
    ensures Elapsed(Heard(reps[n..])) <= Endurance(cfg, g)
  {
    PassCleans(cfg, reps, n);
    assert reps[..n] + reps[n..] == reps;
    FreshStart(cfg, reps[..n], reps[n..]);
    FaultHeardBounded(cfg, g, reps[n..]);
  }

  lemma FaultHeardBounded(cfg: Settings, g: int, reps: seq<Report>)
    requires 0 < cfg.retryTimeout && 0 < cfg.repairMax && !cfg.noAct && 0 <= g && cfg.retryTimeout + g <= INT_MAX
    requires Clock(reps) && Alive(cfg, reps)
    requires Heard(reps) != [] && OnlyRepairable(Heard(reps)) && Spaced(Heard(reps), g)
    ensures Elapsed(Heard(reps)) <= Endurance(cfg, g)
  {
    SilenceChangesNothing(cfg, reps);
    HeardClock(reps);
    SurvivedReports(cfg, g, Heard(reps));
  }

  // ----- the bound is attained, and needs the 32-bit clock difference not to wrap -----

  /** A survived fault run that starts at second 1. */
  predicate Survived(cfg: Settings, g: int, reps: seq<Report>)
  {
    FaultRun(cfg, g, reps) && Alive(cfg, reps) && reps[0].now == 1
  }

  /** Some survived fault run has its last report at second `last` and leaves the item in state s. */
  ghost predicate Reaches(cfg: Settings, g: int, last: int, s: ItemState)
  {
    exists reps: seq<Report> :: Survived(cfg, g, reps) && reps[|reps| - 1].now == last && After(cfg, reps) == s
  }

  function Fault(now: int): Report { Report(ETOOLONG, now, ENOERR) }

  lemma ExtendFault(cfg: Settings, g: int, reps: seq<Report>, now: int)
    requires Survived(cfg, g, reps)
    requires reps[|reps| - 1].now <= now <= reps[|reps| - 1].now + g
    ensures FaultRun(cfg, g, reps + [Fault(now)])
    ensures !Fatal(cfg, Step(cfg, After(cfg, reps), Fault(now))) ==> Alive(cfg, reps + [Fault(now)])
    ensures After(cfg, reps + [Fault(now)]) == Step(cfg, After(cfg, reps), Fault(now)).state
  {
    var more := reps + [Fault(now)];
    assert more[..|reps|] == reps;
    if !Fatal(cfg, Step(cfg, After(cfg, reps), Fault(now))) { AliveSnoc(cfg, reps, Fault(now)); }
  }

  lemma ReachesNext(cfg: Settings, g: int, last: int, s: ItemState, now: int)
    requires Reaches(cfg, g, last, s) && last <= now <= last + g
    requires !Fatal(cfg, Step(cfg, s, Fault(now)))
    ensures Reaches(cfg, g, now, Step(cfg, s, Fault(now)).state)
  {
    var reps: seq<Report> :| Survived(cfg, g, reps) && reps[|reps| - 1].now == last && After(cfg, reps) == s;
    ExtendFault(cfg, g, reps, now);
    var more := reps + [Fault(now)];
    assert Survived(cfg, g, more) && more[|more| - 1].now == now;
  }

  lemma ReachesFirst(cfg: Settings, g: int)
    requires 0 < cfg.retryTimeout
    ensures Reaches(cfg, g, 1, ItemState(1, 0))
  {
    var reps := [Fault(1)];
    assert reps[..0] == [];
    AfterPrefix(cfg, reps, 0);
    assert reps[..1] == reps;
    assert Survived(cfg, g, reps);
  }

  /** Report every second until the retry clock is about to expire. */
  lemma {:induction false} WaitOut(cfg: Settings, g: int, last: int, s: ItemState)
    requires 0 < cfg.retryTimeout <= INT_MAX && 1 <= g
    requires Reaches(cfg, g, last, s)
    requires 0 < s.lastTime <= last <= s.lastTime + cfg.retryTimeout
    ensures Reaches(cfg, g, s.lastTime + cfg.retryTimeout, s)
    decreases s.lastTime + cfg.retryTimeout - last
  {
    if last < s.lastTime + cfg.retryTimeout {
      ReachesNext(cfg, g, last, s, last + 1);
      WaitOut(cfg, g, last + 1, s);
    }
  }

  lemma ExpiredClockRepairs(cfg: Settings, s: ItemState, now: int)
    requires 0 < cfg.retryTimeout && s.lastTime != 0 && 0 <= s.repairCount < cfg.repairMax
    requires cfg.retryTimeout < now - s.lastTime <= INT_MAX
    ensures Step(cfg, s, Fault(now)) == Reaction(ItemState(0, s.repairCount + 1), true, ENOERR)
  {
  }

  /** One slow repair: it costs r + 2g seconds until the clock runs again. */
  lemma SlowRepair(cfg: Settings, g: int, t: int, c: nat)
    requires 0 < cfg.retryTimeout && 1 <= g && cfg.retryTimeout + g <= INT_MAX && c < cfg.repairMax
    requires 0 < t && Reaches(cfg, g, t, ItemState(t, c))
    ensures var u := t + cfg.retryTimeout + 2 * g; Reaches(cfg, g, u, ItemState(u, c + 1))
  {
    var s := ItemState(t, c);
    var due := t + cfg.retryTimeout;
    WaitOut(cfg, g, t, s);
    ExpiredClockRepairs(cfg, s, due + g);
    ReachesNext(cfg, g, due, s, due + g);
    ReachesNext(cfg, g, due + g, ItemState(0, c + 1), due + g + g);
  }

  /** When the clock runs again after c slow repairs. */
  function Onset(cfg: Settings, g: int, c: nat): int { 1 + c * (cfg.retryTimeout + 2 * g) }

  lemma OnsetGrows(cfg: Settings, g: int, c: nat)
    requires 0 < cfg.retryTimeout && 1 <= g
    ensures Onset(cfg, g, 0) == 1 <= Onset(cfg, g, c)
    ensures Onset(cfg, g, c + 1) == Onset(cfg, g, c) + cfg.retryTimeout + 2 * g
    ensures Onset(cfg, g, c) - 1 + cfg.retryTimeout + g == (c + 1) * cfg.retryTimeout + (2 * c + 1) * g
  {
    var w := cfg.retryTimeout + 2 * g;
    assert c * w >= 0;
    assert (c + 1) * w == c * w + w;
    assert c * w == c * cfg.retryTimeout + 2 * c * g;
  }

  lemma {:induction false} SlowRepairs(cfg: Settings, g: int, c: nat)
    requires 0 < cfg.retryTimeout && 1 <= g && cfg.retryTimeout + g <= INT_MAX && c <= cfg.repairMax
    ensures Reaches(cfg, g, Onset(cfg, g, c), ItemState(Onset(cfg, g, c), c))
  {
    if c == 0 {
      ReachesFirst(cfg, g);
    } else {
      OnsetGrows(cfg, g, c - 1);
      SlowRepairs(cfg, g, c - 1);
      SlowRepair(cfg, g, Onset(cfg, g, c - 1), c - 1);
    }
  }

  lemma ReachesOneMore(cfg: Settings, g: int, last: int, s: ItemState) returns (reps: seq<Report>)
    requires Reaches(cfg, g, last, s) && 0 <= g
    ensures FaultRun(cfg, g, reps) && Elapsed(reps) == last + g - 1
  {
    var init: seq<Report> :| Survived(cfg, g, init) && init[|init| - 1].now == last && After(cfg, init) == s;
    ExtendFault(cfg, g, init, last + g);
    reps := init + [Fault(last + g)];
  }

  lemma SlowestRun(cfg: Settings, g: int) returns (reps: seq<Report>)
    requires 0 < cfg.retryTimeout && 0 < cfg.repairMax && 1 <= g && cfg.retryTimeout + g <= INT_MAX
    ensures FaultRun(cfg, g, reps)
    ensures Elapsed(reps) == Onset(cfg, g, cfg.repairMax) - 1 + cfg.retryTimeout + g
  {
    var t := Onset(cfg, g, cfg.repairMax);
    SlowRepairs(cfg, g, cfg.repairMax);
    assert t >= 1 by { OnsetGrows(cfg, g, cfg.repairMax); }
    WaitOut(cfg, g, t, ItemState(t, cfg.repairMax));
    reps := ReachesOneMore(cfg, g, t + cfg.retryTimeout, ItemState(t, cfg.repairMax));
  }

  /** BoundedShutdown cannot be improved: for all settings some run reaches exactly that age. */
  lemma BoundedShutdownIsTight(cfg: Settings, g: int) returns (reps: seq<Report>)
    requires 0 < cfg.retryTimeout && 0 < cfg.repairMax && 1 <= g && cfg.retryTimeout + g <= INT_MAX
    ensures FaultRun(cfg, g, reps)
    ensures Elapsed(reps) == (cfg.repairMax + 1) * cfg.retryTimeout + (2 * cfg.repairMax + 1) * g
  {
    OnsetGrows(cfg, g, cfg.repairMax);
    reps := SlowestRun(cfg, g);
  }

  /** Age of the next report that `(int)(now - last_time)` does not see as expired. */
  function NextUnseen(r: int, age: nat): (next: nat)
    requires 0 < r <= INT_MAX && ToInt32(age) <= r
    ensures ToInt32(next) <= r && age < next <= age + INT_MAX + 1 - r
  {
    if age % TWO_32 == r then age + INT_MAX + 1 - r else age + 1
  }

  /** When r + g exceeds INT_MAX the truncated difference can hide the fault for any length of time. */
  lemma {:induction false} EndlessFault(cfg: Settings, g: int, n: nat) returns (age: nat)
    requires 0 < cfg.retryTimeout <= INT_MAX && cfg.retryTimeout + g > INT_MAX
    ensures n <= age && ToInt32(age) <= cfg.retryTimeout
    ensures Reaches(cfg, g, 1 + age, ItemState(1, 0))
  {
    if n == 0 {
      ReachesFirst(cfg, g);
      age := 0;
    } else {
      var before := EndlessFault(cfg, g, n - 1);
      age := NextUnseen(cfg.retryTimeout, before);
      ReachesNext(cfg, g, 1 + before, ItemState(1, 0), 1 + age);
    }
  }

  /** The shutdown bound holds over every fault run exactly when r + g fits in an int. */
  lemma BoundedShutdownExactly(cfg: Settings, g: int)
    requires 0 < cfg.retryTimeout <= INT_MAX && 0 < cfg.repairMax && !cfg.noAct && 0 <= g
    ensures (forall reps | FaultRun(cfg, g, reps) ::
               Elapsed(reps) <= (cfg.repairMax + 1) * cfg.retryTimeout + (2 * cfg.repairMax + 1) * g)
            <==> cfg.retryTimeout + g <= INT_MAX
  {
    var bound := (cfg.repairMax + 1) * cfg.retryTimeout + (2 * cfg.repairMax + 1) * g;
    if cfg.retryTimeout + g <= INT_MAX {
      forall reps | FaultRun(cfg, g, reps) ensures Elapsed(reps) <= bound {
        BoundedShutdown(cfg, g, reps);
      }
    } else {
      EnduranceArithmetic(cfg, g);
      var age := EndlessFault(cfg, g, bound + 1);
      var reps := ReachesOneMore(cfg, g, 1 + age, ItemState(1, 0));
      assert FaultRun(cfg, g, reps) && Elapsed(reps) > bound;
    }
  }

  // ----- repair limit and spacing -----

  /** Repairs run since the last passing report. */
  function RepairsSincePass(cfg: Settings, reps: seq<Report>): nat
  {
    if reps == [] || reps[|reps| - 1].code == ENOERR then 0
    else
      var n := |reps| - 1;
      RepairsSincePass(cfg, reps[..n]) + if At(cfg, reps, n).repaired then 1 else 0
  }

  /** The counter tells how many repairs ran since the last pass, up to the limit it enforces. */
  lemma {:induction false} RepairLimit(cfg: Settings, reps: seq<Report>)
    requires 0 < cfg.repairMax
    ensures 0 <= After(cfg, reps).repairCount
    ensures RepairsSincePass(cfg, reps)
        == var c := After(cfg, reps).repairCount; if c < cfg.repairMax then c else cfg.repairMax
    ensures RepairsSincePass(cfg, reps) <= cfg.repairMax
  {
    if reps != [] {
      RepairLimit(cfg, reps[..|reps| - 1]);
    }
  }

  /** Report i is the error that the running retry clock dates from: nothing passed and no repair ran
      from it up to report n. */
  predicate ClockOrigin(cfg: Settings, reps: seq<Report>, n: nat, i: nat)
    requires n <= |reps|
  {
    && i < n
    && Repairable(reps[i].code)
    && reps[i].now == After(cfg, reps[..n]).lastTime
    && forall m | i <= m < n :: reps[m].code != ENOERR && !At(cfg, reps, m).repaired
  }

  /** A running clock that is still running after report m was either started by it or kept by it. */
  lemma OriginStep(cfg: Settings, s: ItemState, x: Report)
    requires 0 < cfg.retryTimeout && 0 < cfg.repairMax && Step(cfg, s, x).state.lastTime != 0
    ensures x.code != ENOERR && !Step(cfg, s, x).repaired
    ensures if s.lastTime == 0 then Repairable(x.code) && Step(cfg, s, x).state.lastTime == x.now
            else Step(cfg, s, x).state.lastTime == s.lastTime
  {
  }

  lemma {:induction false} RunningClockHasOrigin(cfg: Settings, reps: seq<Report>, n: nat) returns (i: nat)
    requires 0 < cfg.retryTimeout && 0 < cfg.repairMax && n <= |reps|
    requires After(cfg, reps[..n]).lastTime != 0
    ensures ClockOrigin(cfg, reps, n, i)
  {
    var m := n - 1;
    AfterPrefix(cfg, reps, m);
    OriginStep(cfg, After(cfg, reps[..m]), reps[m]);
    if After(cfg, reps[..m]).lastTime == 0 {
      i := m;
    } else {
      i := RunningClockHasOrigin(cfg, reps, m);
    }
  }

  /** A repair, or a shutdown for a repairable error, at report j needs an earlier error report i more than r seconds
      before, with no pass and no repair in between. */
  lemma ActionNeedsTimeout(cfg: Settings, reps: seq<Report>, j: nat) returns (i: nat)
    requires 0 < cfg.retryTimeout && 0 < cfg.repairMax && j < |reps| && Clock(reps)
    requires At(cfg, reps, j).repaired || (Repairable(reps[j].code) && At(cfg, reps, j).error != ENOERR)
    ensures i < j && Repairable(reps[i].code) && reps[j].now - reps[i].now > cfg.retryTimeout
    ensures forall m | i <= m < j :: reps[m].code != ENOERR && !At(cfg, reps, m).repaired
  {
    i := RunningClockHasOrigin(cfg, reps, j);
  }

  /** Two repairs of one item are always more than r seconds apart. */
  lemma RepairSpacing(cfg: Settings, reps: seq<Report>, a: nat, b: nat)
    requires 0 < cfg.retryTimeout && 0 < cfg.repairMax && a < b < |reps| && Clock(reps)
    requires At(cfg, reps, a).repaired && At(cfg, reps, b).repaired
    ensures reps[b].now - reps[a].now > cfg.retryTimeout
  {
    var i := ActionNeedsTimeout(cfg, reps, b);
    assert a < i;
  }

  // ----- exactly which runs are survived, and what a shutdown reports -----

  /** The retry clock has run out, or there is none. */
  predicate Expired(cfg: Settings, s: ItemState, now: int)
  {
    cfg.retryTimeout <= 0 || (s.lastTime != 0 && ToInt32(now - s.lastTime) > cfg.retryTimeout)
  }

  /** What do_shutdown is called with, if it is: the code of an error that cannot be repaired or has been repaired too
      often, otherwise what the repair returns. */
  function Verdict(cfg: Settings, s: ItemState, x: Report): Option<int>
  {
    if cfg.noAct || x.code == 0 || x.code == 245 then None
    else if x.code == 255 || x.code == 254 || x.code == 252 then Some(x.code)
    else if !Expired(cfg, s, x.now) then None
    else if 0 < cfg.repairMax <= s.repairCount then Some(x.code)
    else if x.repair != 0 then Some(x.repair)
    else None
  }

  lemma StepVerdict(cfg: Settings, s: ItemState, x: Report)
    ensures Fatal(cfg, Step(cfg, s, x)) <==> Verdict(cfg, s, x).Some?
    ensures Verdict(cfg, s, x).Some? ==> Step(cfg, s, x).error == Verdict(cfg, s, x).value
    ensures Step(cfg, s, x).repaired <==>
              Repairable(x.code) && Expired(cfg, s, x.now) && !(0 < cfg.repairMax <= s.repairCount)
  {
  }

  /** For any settings: a run is survived exactly when no report in it got a verdict. */
  lemma SurvivedByVerdict(cfg: Settings, reps: seq<Report>)
    ensures Alive(cfg, reps) <==> forall n | 0 <= n < |reps| :: Verdict(cfg, After(cfg, reps[..n]), reps[n]).None?
  {
    forall n | 0 <= n < |reps|
      ensures Fatal(cfg, At(cfg, reps, n)) <==> Verdict(cfg, After(cfg, reps[..n]), reps[n]).Some?
    {
      StepVerdict(cfg, After(cfg, reps[..n]), reps[n]);
    }
  }

  /** The first error since the last pass or repair before report n. */
  function OpenSince(cfg: Settings, reps: seq<Report>, n: nat): (r: Option<nat>)
    requires n <= |reps|
    ensures r.Some? ==> r.value < n && Repairable(reps[r.value].code)
  {
    if n == 0 || reps[n - 1].code == ENOERR || At(cfg, reps, n - 1).repaired then None
    else
      var before := OpenSince(cfg, reps, n - 1);
      if before.Some? || !Repairable(reps[n - 1].code) then before else Some(n - 1)
  }

  /** Nothing passed and no repair ran from report i up to report n. */
  predicate Unbroken(cfg: Settings, reps: seq<Report>, i: nat, n: nat)
    requires n <= |reps|
  {
    forall m | i <= m < n :: reps[m].code != ENOERR && !At(cfg, reps, m).repaired
  }

  lemma {:induction false} OpenSinceIsFirst(cfg: Settings, reps: seq<Report>, n: nat, i: nat)
    requires i < n <= |reps| && Repairable(reps[i].code) && Unbroken(cfg, reps, i, n)
    ensures var r := OpenSince(cfg, reps, n); r.Some? && r.value <= i && Unbroken(cfg, reps, r.value, n)
  {
    if i < n - 1 {
      OpenSinceIsFirst(cfg, reps, n - 1, i);
    } else if OpenSince(cfg, reps, i).Some? {
      OpenSinceIsOpen(cfg, reps, i);
    }
  }

  lemma {:induction false} OpenSinceIsOpen(cfg: Settings, reps: seq<Report>, n: nat)
    requires n <= |reps| && OpenSince(cfg, reps, n).Some?
    ensures Unbroken(cfg, reps, OpenSince(cfg, reps, n).value, n)
  {
    if OpenSince(cfg, reps, n - 1).Some? { OpenSinceIsOpen(cfg, reps, n - 1); }
  }

  /** The retry clock runs from that error. */
  lemma {:induction false} ClockFromFirst(cfg: Settings, reps: seq<Report>, n: nat)
    requires 0 < cfg.retryTimeout && 0 < cfg.repairMax && n <= |reps| && Clock(reps)
    ensures var r := OpenSince(cfg, reps, n);
            After(cfg, reps[..n]).lastTime == if r.Some? then reps[r.value].now else 0
  {
    if n > 0 {
      ClockFromFirst(cfg, reps, n - 1);
      AfterPrefix(cfg, reps, n - 1);
    }
  }

  /** Report n is a repairable error more than r seconds, as an int, after the first error since the last pass or
      repair. */
  predicate Overdue(cfg: Settings, reps: seq<Report>, n: nat)
    requires n < |reps|
  {
    var first := OpenSince(cfg, reps, n);
    Repairable(reps[n].code) && first.Some? && ToInt32(reps[n].now - reps[first.value].now) > cfg.retryTimeout
  }

  lemma OverdueExactly(cfg: Settings, reps: seq<Report>, n: nat)
    requires 0 < cfg.retryTimeout && 0 < cfg.repairMax && n < |reps| && Clock(reps)
    ensures Overdue(cfg, reps, n) <==> Repairable(reps[n].code) && Expired(cfg, After(cfg, reps[..n]), reps[n].now)
  {
    ClockFromFirst(cfg, reps, n);
  }

  /** A repair runs exactly when an error is overdue and fewer than k repairs have run since the last pass. */
  lemma RepairsExactly(cfg: Settings, reps: seq<Report>, n: nat)
    requires 0 < cfg.retryTimeout && 0 < cfg.repairMax && n < |reps| && Clock(reps)
    ensures At(cfg, reps, n).repaired <==> Overdue(cfg, reps, n) && RepairsSincePass(cfg, reps[..n]) < cfg.repairMax
  {
    OverdueExactly(cfg, reps, n);
    StepVerdict(cfg, After(cfg, reps[..n]), reps[n]);
    RepairLimit(cfg, reps[..n]);
  }

  /** Report n does no harm: it is no error that cannot be repaired, and if it is overdue, fewer than k repairs have
      run since the last pass and the one that runs now returns 0. */
  predicate Harmless(cfg: Settings, reps: seq<Report>, n: nat)
    requires n < |reps|
  {
    && reps[n].code != 255 && reps[n].code != 254 && reps[n].code != 252
    && (Overdue(cfg, reps, n) ==> RepairsSincePass(cfg, reps[..n]) < cfg.repairMax && reps[n].repair == 0)
  }

  lemma HarmlessExactly(cfg: Settings, reps: seq<Report>, n: nat)
    requires 0 < cfg.retryTimeout && 0 < cfg.repairMax && !cfg.noAct && n < |reps| && Clock(reps)
    ensures Harmless(cfg, reps, n) <==> !Fatal(cfg, At(cfg, reps, n))
  {
    OverdueExactly(cfg, reps, n);
    StepVerdict(cfg, After(cfg, reps[..n]), reps[n]);
    RepairLimit(cfg, reps[..n]);
  }

  /** With actions enabled a run is survived exactly when every report in it was harmless. */
  lemma SurvivalExactly(cfg: Settings, reps: seq<Report>)
    requires 0 < cfg.retryTimeout && 0 < cfg.repairMax && !cfg.noAct && Clock(reps)
    ensures Alive(cfg, reps) <==> forall n | 0 <= n < |reps| :: Harmless(cfg, reps, n)
  {
    forall n | 0 <= n < |reps| ensures Harmless(cfg, reps, n) <==> !Fatal(cfg, At(cfg, reps, n)) {
      HarmlessExactly(cfg, reps, n);
    }
  }

  /** The report that ends a run: the shutdown is for its own code if that cannot be repaired or k repairs have run, and
      otherwise for what the repair returned, which is not 0. */
  lemma ShutdownCode(cfg: Settings, reps: seq<Report>, n: nat)
    requires 0 < cfg.retryTimeout && 0 < cfg.repairMax && !cfg.noAct && n < |reps| && Clock(reps)
    requires !Harmless(cfg, reps, n)
    ensures var x := reps[n];
            if x.code == 255 || x.code == 254 || x.code == 252 then At(cfg, reps, n).error == x.code
            else
              && Overdue(cfg, reps, n)
              && (RepairsSincePass(cfg, reps[..n]) >= cfg.repairMax ==> At(cfg, reps, n).error == x.code)
              && (RepairsSincePass(cfg, reps[..n]) < cfg.repairMax ==> At(cfg, reps, n).error == x.repair != 0)
  {
    OverdueExactly(cfg, reps, n);
    StepVerdict(cfg, After(cfg, reps[..n]), reps[n]);
    RepairLimit(cfg, reps[..n]);
  }
}
