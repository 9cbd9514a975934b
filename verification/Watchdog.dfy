/** The main loop of src/watchdog.c as a timed system: checks, repairs, sleeps and device refreshes on one clock. */
module Watchdog {
  import opened Common
  import opened Retry

  const SECOND: nat := 1_000_000
  const SHORT_WAIT: nat := 50_000

  // ----- what the watchdog device sees -----

  datatype Event = Elapse(us: nat) | Refresh

  /** Microseconds since the last refresh (or since the device was opened). */
  function Gap(log: seq<Event>): nat
  {
    if log == [] then 0
    else match log[|log| - 1]
      case Refresh => 0
      case Elapse(us) => Gap(log[..|log| - 1]) + us
  }

  /** At no point of the log has the device gone `limit` microseconds without a refresh. */
  predicate AlwaysFed(log: seq<Event>, limit: int)
  {
    Gap(log) < limit && (log != [] ==> AlwaysFed(log[..|log| - 1], limit))
  }

  lemma {:induction false} FedAtEveryPoint(log: seq<Event>, limit: int)
    ensures AlwaysFed(log, limit) <==> forall n | 0 <= n <= |log| :: Gap(log[..n]) < limit
  {
    assert log[..|log|] == log;
    if log != [] {
      var init := log[..|log| - 1];
      FedAtEveryPoint(init, limit);
      forall n | 0 <= n < |log| ensures init[..n] == log[..n] { }
    }
  }

  lemma FedSnoc(log: seq<Event>, e: Event, limit: int)
    ensures AlwaysFed(log + [e], limit) <==> AlwaysFed(log, limit) && Gap(log + [e]) < limit
    ensures Gap(log + [e]) == match e case Refresh => 0 case Elapse(us) => Gap(log) + us
  {
    assert (log + [e])[..|log|] == log;
  }

  /** n rounds of the repair wait loop: sleep(1), keep_alive(). */
  function Beats(log: seq<Event>, n: nat): seq<Event>
  {
    if n == 0 then log else Beats(log, n - 1) + [Elapse(SECOND)] + [Refresh]
  }

  /** One do_check: when it began, how long the check took, the rounds of a repair's wait loop, and the time that the
      repair took in all. */
  datatype CheckRun = CheckRun(at: nat, duration: nat, beats: nat, spent: nat)

  function CheckLog(log: seq<Event>, c: CheckRun): seq<Event>
  {
    Beats(log + [Elapse(c.duration)], c.beats) + [Refresh]
  }

  function ChecksLog(log: seq<Event>, cs: seq<CheckRun>): seq<Event>
  {
    if cs == [] then log else CheckLog(ChecksLog(log, cs[..|cs| - 1]), cs[|cs| - 1])
  }

  /** One full turn of the main loop; `poll` is the time taken by check_bin(NULL) between the two sleeps, and
      `reports` are those about the items, in the order of the lists. */
  datatype PassRun = PassRun(checks: seq<CheckRun>, poll: nat, reports: seq<Report>)

  /** The second sleep: tint seconds less the short wait, as the 32-bit argument of usleep. */
  function LongWait(tint: int): (us: nat)
    ensures 0 < tint ==> us + SHORT_WAIT <= tint * SECOND
    ensures 0 < tint <= 4294 ==> us + SHORT_WAIT == tint * SECOND
  {
    (tint * SECOND - SHORT_WAIT) % TWO_32
  }

  function SleepLog(log: seq<Event>, poll: nat, long: nat): seq<Event>
  {
    log + [Elapse(SHORT_WAIT)] + [Elapse(poll)] + [Elapse(long)]
  }

  function PassLog(log: seq<Event>, tint: int, p: PassRun): seq<Event>
  {
    SleepLog(ChecksLog(log + [Refresh], p.checks), p.poll, LongWait(tint))
  }

  /** A turn refreshes the device, makes its checks, and waits 50 ms, for the poll, and for the rest of the interval. */
  lemma TurnLog(log: seq<Event>, tint: int, p: PassRun)
    requires 0 < tint <= 4294
    ensures PassLog(log, tint, p) ==
              ChecksLog(log + [Refresh], p.checks)
              + [Elapse(50_000), Elapse(p.poll), Elapse(tint * 1_000_000 - 50_000)]
  {
    AppendThree(ChecksLog(log + [Refresh], p.checks), Elapse(SHORT_WAIT), Elapse(p.poll), Elapse(LongWait(tint)));
  }

  lemma AppendThree(log: seq<Event>, a: Event, b: Event, c: Event)
    ensures log + [a] + [b] + [c] == log + [a, b, c]
  {
  }

  function LoopLog(log: seq<Event>, tint: int, ps: seq<PassRun>): seq<Event>
  {
    if ps == [] then log else PassLog(LoopLog(log, tint, ps[..|ps| - 1]), tint, ps[|ps| - 1])
  }

  lemma {:induction false} FedBeats(log: seq<Event>, n: nat, limit: int)
    requires AlwaysFed(log, limit) && Gap(log) + SECOND < limit
    ensures AlwaysFed(Beats(log, n), limit)
    ensures Gap(Beats(log, n)) == if n == 0 then Gap(log) else 0
  {
    if n > 0 {
      FedBeats(log, n - 1, limit);
      FedSnoc(Beats(log, n - 1), Elapse(SECOND), limit);
      FedSnoc(Beats(log, n - 1) + [Elapse(SECOND)], Refresh, limit);
    }
  }

  lemma FedCheck(log: seq<Event>, c: CheckRun, limit: int)
    requires AlwaysFed(log, limit) && Gap(log) == 0 && c.duration + SECOND < limit
    ensures AlwaysFed(Beats(log + [Elapse(c.duration)], c.beats), limit)
    ensures AlwaysFed(CheckLog(log, c), limit) && Gap(CheckLog(log, c)) == 0
  {
    FedSnoc(log, Elapse(c.duration), limit);
    FedBeats(log + [Elapse(c.duration)], c.beats, limit);
    FedSnoc(Beats(log + [Elapse(c.duration)], c.beats), Refresh, limit);
  }

  lemma {:induction false} FedChecks(log: seq<Event>, cs: seq<CheckRun>, limit: int)
    requires AlwaysFed(log, limit) && Gap(log) == 0
    requires forall i | 0 <= i < |cs| :: cs[i].duration + SECOND < limit
    ensures AlwaysFed(ChecksLog(log, cs), limit) && Gap(ChecksLog(log, cs)) == 0
  {
    if cs != [] {
      FedChecks(log, cs[..|cs| - 1], limit);
      FedCheck(ChecksLog(log, cs[..|cs| - 1]), cs[|cs| - 1], limit);
    }
  }

  lemma FedSleeps(log: seq<Event>, poll: nat, long: nat, limit: int)
    requires AlwaysFed(log, limit) && Gap(log) == 0
    ensures Gap(SleepLog(log, poll, long)) == SHORT_WAIT + poll + long
    ensures AlwaysFed(SleepLog(log, poll, long), limit) <==> SHORT_WAIT + poll + long < limit
  {
    FedSnoc(log, Elapse(SHORT_WAIT), limit);
    FedSnoc(log + [Elapse(SHORT_WAIT)], Elapse(poll), limit);
    FedSnoc(log + [Elapse(SHORT_WAIT)] + [Elapse(poll)], Elapse(long), limit);
  }

  /** Every turn has at least the five checks that do not depend on a list; each check takes at most `check`
      microseconds and each poll between the sleeps at most `poll`. */
  predicate Within(ps: seq<PassRun>, check: nat, poll: nat)
  {
    forall i | 0 <= i < |ps| ::
      && 5 <= |ps[i].checks| && ps[i].poll <= poll
      && forall j | 0 <= j < |ps[i].checks| :: ps[i].checks[j].duration <= check
  }

  lemma FedPass(log: seq<Event>, tint: int, p: PassRun, limit: int)
    requires AlwaysFed(log, limit) && 0 < limit
    requires forall j | 0 <= j < |p.checks| :: p.checks[j].duration + SECOND < limit
    ensures AlwaysFed(log + [Refresh], limit) && Gap(log + [Refresh]) == 0
    ensures AlwaysFed(PassLog(log, tint, p), limit) <==> SHORT_WAIT + p.poll + LongWait(tint) < limit
  {
    FedSnoc(log, Refresh, limit);
    FedChecks(log + [Refresh], p.checks, limit);
    FedSleeps(ChecksLog(log + [Refresh], p.checks), p.poll, LongWait(tint), limit);
  }

  lemma {:induction false} FedLoop(tint: int, ps: seq<PassRun>, check: nat, poll: nat, limit: int)
    requires Within(ps, check, poll)
    requires check + SECOND < limit && SHORT_WAIT + poll + LongWait(tint) < limit
    ensures AlwaysFed(LoopLog([], tint, ps), limit)
  {
    if ps != [] {
      FedLoop(tint, ps[..|ps| - 1], check, poll, limit);
      FedPass(LoopLog([], tint, ps[..|ps| - 1]), tint, ps[|ps| - 1], limit);
    }
  }

  /** The log of checks of which the last one ended the run: its refresh is missing. */
  function CutShort(log: seq<Event>, cs: seq<CheckRun>): seq<Event>
    requires cs != []
  {
    Beats(ChecksLog(log, cs[..|cs| - 1]) + [Elapse(cs[|cs| - 1].duration)], cs[|cs| - 1].beats)
  }

  /** When a do_check is over. */
  function EndOf(run: CheckRun): nat { run.at + run.duration + run.spent }

  /** The repairs in these runs take no longer than their timeout. */
  predicate Prompt(cfg: Config, runs: seq<CheckRun>)
  {
    forall i | 0 <= i < |runs| :: runs[i].spent <= cfg.repairTimeout * SECOND
  }

  function ChecksStart(run: PassRun): nat { if run.checks == [] then 0 else run.checks[0].at }

  /** When the checks of a turn are over, and when the sleeps after them are. */
  function ChecksEnd(run: PassRun): nat { if run.checks == [] then 0 else EndOf(run.checks[|run.checks| - 1]) }

  function TurnEnd(tint: int, run: PassRun): nat { ChecksEnd(run) + SHORT_WAIT + run.poll + LongWait(tint) }

  /** The runs follow each other without a pause, from `start` to `end`. */
  predicate Consecutive(runs: seq<CheckRun>, start: nat, end: nat)
  {
    && (runs == [] ==> end == start)
    && (runs != [] ==> runs[0].at == start && end == EndOf(runs[|runs| - 1]))
    && forall j | 0 < j < |runs| :: runs[j].at == EndOf(runs[j - 1])
  }

  lemma ConsecutiveConcat(a: seq<CheckRun>, b: seq<CheckRun>, start: nat, middle: nat, end: nat)
    requires Consecutive(a, start, middle) && Consecutive(b, middle, end)
    ensures Consecutive(a + b, start, end)
  {
    var runs := a + b;
    forall j | 0 < j < |runs| ensures runs[j].at == EndOf(runs[j - 1]) {
      if j < |a| {
        assert a[j].at == EndOf(a[j - 1]);
      } else if j > |a| {
        assert b[j - |a|].at == EndOf(b[j - |a| - 1]);
      }
    }
  }

  lemma RunsSnoc(log: seq<Event>, runs: seq<CheckRun>, c: CheckRun)
    ensures ChecksLog(log, runs + [c]) == CheckLog(ChecksLog(log, runs), c)
    ensures CutShort(log, runs + [c]) == Beats(ChecksLog(log, runs) + [Elapse(c.duration)], c.beats)
  {
    assert (runs + [c])[..|runs|] == runs;
  }

  lemma FedCutShort(log: seq<Event>, cs: seq<CheckRun>, limit: int)
    requires cs != [] && AlwaysFed(log, limit) && Gap(log) == 0
    requires forall i | 0 <= i < |cs| :: cs[i].duration + SECOND < limit
    ensures AlwaysFed(CutShort(log, cs), limit)
  {
    FedChecks(log, cs[..|cs| - 1], limit);
    FedCheck(ChecksLog(log, cs[..|cs| - 1]), cs[|cs| - 1], limit);
  }

  lemma {:induction false} ChecksConcat(log: seq<Event>, a: seq<CheckRun>, b: seq<CheckRun>)
    ensures ChecksLog(ChecksLog(log, a), b) == ChecksLog(log, a + b)
    ensures b != [] ==> CutShort(ChecksLog(log, a), b) == CutShort(log, a + b)
  {
    if b == [] {
      assert a + b == a;
    } else {
      var k := |b| - 1;
      ChecksConcat(log, a, b[..k]);
      assert (a + b)[..|a + b| - 1] == a + b[..k];
    }
  }

  const QUICK := CheckRun(0, 0, 0, 0)

  function Quick(n: nat): (cs: seq<CheckRun>)
    ensures |cs| == n && forall i | 0 <= i < n :: cs[i] == QUICK
  {
    seq(n, _ => QUICK)
  }

  /** A turn whose last check uses up `check` and then needs a repair. */
  function SlowPass(check: nat): PassRun { PassRun(Quick(4) + [CheckRun(0, check, 1, SECOND)], 0, []) }

  /** A turn of quick checks with a slow poll. */
  function IdlePass(poll: nat): PassRun { PassRun(Quick(5), poll, []) }

  /** A check that uses up `check` and then needs a repair leaves the device unfed for one second more. */
  lemma SlowCheckGap(tint: int, check: nat, limit: int)
    requires AlwaysFed(LoopLog([], tint, [SlowPass(check)]), limit)
    ensures check + SECOND < limit
  {
    var p := SlowPass(check);
    var log := ChecksLog([] + [Refresh], Quick(4));
    var due := log + [Elapse(check)];
    var fed := due + [Elapse(SECOND)] + [Refresh] + [Refresh];
    assert [p][..0] == [] && LoopLog([], tint, [p]) == PassLog([], tint, p);
    assert p.checks[..4] == Quick(4) && Beats(due, 0) == due;
    assert ChecksLog([] + [Refresh], p.checks) == fed;
    FedSnoc(fed + [Elapse(SHORT_WAIT)] + [Elapse(0)], Elapse(LongWait(tint)), limit);
    FedSnoc(fed + [Elapse(SHORT_WAIT)], Elapse(0), limit);
    FedSnoc(fed, Elapse(SHORT_WAIT), limit);
    FedSnoc(due + [Elapse(SECOND)] + [Refresh], Refresh, limit);
    FedSnoc(due + [Elapse(SECOND)], Refresh, limit);
    FedSnoc(due, Elapse(SECOND), limit);
    FedSnoc(log, Elapse(check), limit);
  }

  lemma SlowPollGap(tint: int, poll: nat, limit: int)
    requires SECOND < limit && AlwaysFed(LoopLog([], tint, [IdlePass(poll)]), limit)
    ensures SHORT_WAIT + poll + LongWait(tint) < limit
  {
    assert [IdlePass(poll)][..0] == [];
    assert LoopLog([], tint, [IdlePass(poll)]) == PassLog([], tint, IdlePass(poll));
    FedPass([], tint, IdlePass(poll), limit);
  }

  lemma WorstPasses(check: nat, poll: nat)
    ensures Within([SlowPass(check)], check, poll) && Within([IdlePass(poll)], check, poll)
  {
  }

  /** Whatever the results, the repairs and the number of checks, the device is fed in time in every run
      exactly when a worst-case check plus one second, and the two sleeps with a worst-case poll between them,
      each stay below the device's limit. */
  lemma RefreshSafetyExactly(tint: int, check: nat, poll: nat, limit: int)
    ensures (forall ps | Within(ps, check, poll) :: AlwaysFed(LoopLog([], tint, ps), limit))
       <==> check + SECOND < limit && SHORT_WAIT + poll + LongWait(tint) < limit
  {
    if check + SECOND < limit && SHORT_WAIT + poll + LongWait(tint) < limit {
      forall ps | Within(ps, check, poll) ensures AlwaysFed(LoopLog([], tint, ps), limit) {
        FedLoop(tint, ps, check, poll, limit);
      }
    }
    if forall ps | Within(ps, check, poll) :: AlwaysFed(LoopLog([], tint, ps), limit) {
      WorstPasses(check, poll);
      assert AlwaysFed(LoopLog([], tint, [SlowPass(check)]), limit);
      SlowCheckGap(tint, check, limit);
      assert AlwaysFed(LoopLog([], tint, [IdlePass(poll)]), limit);
      SlowPollGap(tint, poll, limit);
    }
  }

  /** check_parameters (src/watchdog.c:359-379), its part about the interval. */
  predicate CheckParameters(tint: int, devTimeout: int) { tint < devTimeout - 1 }

  /** With accepted parameters, checks of at most devTimeout - 2 seconds and a poll of less than two seconds,
      no run of the main loop lets the device starve. */
  lemma RefreshSafety(tint: int, devTimeout: int, ps: seq<PassRun>, poll: nat)
    requires 0 < tint && CheckParameters(tint, devTimeout) && poll < 2 * SECOND
    requires Within(ps, (devTimeout - 2) * SECOND, poll)
    ensures AlwaysFed(LoopLog([], tint, ps), devTimeout * SECOND)
  {
    FedLoop(tint, ps, (devTimeout - 2) * SECOND, poll, devTimeout * SECOND);
  }

  /** If check_bin(NULL) may take as long as the other checks, parameters that check_parameters accepts do let
      the device starve, already at an interval of 2 seconds and a device limit of 4. */
  lemma SlowPollStarves()
    ensures CheckParameters(2, 4)
    ensures var ps := [IdlePass(2 * SECOND)];
            Within(ps, 2 * SECOND, 2 * SECOND) && !AlwaysFed(LoopLog([], 2, ps), 4 * SECOND)
  {
    WorstPasses(2 * SECOND, 2 * SECOND);
    if AlwaysFed(LoopLog([], 2, [IdlePass(2 * SECOND)]), 4 * SECOND) {
      SlowPollGap(2, 2 * SECOND, 4 * SECOND);
    }
  }

  // ----- the daemon itself -----

  datatype Config =
    Config(retry: Settings, repairTimeout: int, softboot: bool, repairBin: bool, tint: int, devTimeout: int)

  /** What one waitpid answers. */
  datatype Wait = StillRunning | Reaped(status: int) | WaitFailed(errno: int)

  /** The environment of one repair: does fork succeed, what do successive polls of the child answer, and, when there is
      no repair timeout, how long the blocking wait takes and what it answers. */
  datatype RepairEnv = RepairEnv(forked: bool, polls: seq<Wait>, block: nat, blockWait: Wait)

  /** The environment of one do_check: how long the check takes and what it returns. */
  datatype CheckEnv = CheckEnv(duration: nat, code: int, repair: RepairEnv)

  /** The environment of one turn; `term` says that SIGTERM arrived during it. */
  datatype PassEnv = PassEnv(fixed: seq<CheckEnv>, lists: seq<seq<CheckEnv>>, poll: nat, term: bool)

  /** First definite answer among the first `left` polls. */
  function Answer(polls: seq<Wait>, left: nat): Wait
  {
    if left == 0 || polls == [] then StillRunning
    else if polls[0] != StillRunning then polls[0]
    else Answer(polls[1..], left - 1)
  }

  /** Rounds of the wait loop until then: every poll costs one. */
  function Rounds(polls: seq<Wait>, left: nat): nat
  {
    if left == 0 then 0
    else if polls != [] && polls[0] != StillRunning then 1
    else 1 + Rounds(if polls == [] then [] else polls[1..], left - 1)
  }

  lemma {:induction false} RoundsBounded(polls: seq<Wait>, left: nat)
    ensures Rounds(polls, left) <= left
    ensures Answer(polls, left) == StillRunning ==> Rounds(polls, left) == left
  {
    if left > 0 { RoundsBounded(if polls == [] then [] else polls[1..], left - 1); }
  }

  /** What repair() returns for an error code (src/watchdog.c:72-161, parent side). */
  function RepairResult(cfg: Config, code: int, binary: bool, env: RepairEnv): int
  {
    if !binary then code
    else if !env.forked then EREBOOT
    else match if cfg.repairTimeout > 0 then Answer(env.polls, cfg.repairTimeout) else env.blockWait
      case StillRunning => EREBOOT
      case Reaped(status) => ExitStatus(status)
      case WaitFailed(errno) => if cfg.softboot then errno else ExitStatus(code)
  }

  /** Which node of which list an item is. */
  datatype Place = Place(list: nat, index: nat)

  /** The first answer among the polls is what counts, if it comes in time. */
  lemma {:induction false} AnswerIs(polls: seq<Wait>, left: nat, i: nat)
    requires forall j | 0 <= j < i && j < |polls| :: polls[j] == StillRunning
    requires i < left && i < |polls| && polls[i] != StillRunning
    ensures Answer(polls, left) == polls[i]
  {
    if i > 0 { AnswerIs(polls[1..], left - 1, i - 1); }
  }

  lemma {:induction false} NoAnswer(polls: seq<Wait>, left: nat)
    requires forall j | 0 <= j < left && j < |polls| :: polls[j] == StillRunning
    ensures Answer(polls, left) == StillRunning
  {
    if left > 0 && polls != [] { NoAnswer(polls[1..], left - 1); }
  }

  /** Without a repair binary the error stands; with one that cannot be started, or that hangs for as long as the repair
      timeout, the machine is rebooted. */
  lemma RepairImpossible(cfg: Config, code: int, env: RepairEnv)
    ensures RepairResult(cfg, code, false, env) == code
    ensures !env.forked ==> RepairResult(cfg, code, true, env) == 255
    ensures 0 < cfg.repairTimeout && (forall j | 0 <= j < cfg.repairTimeout && j < |env.polls| ::
        env.polls[j] == StillRunning)
            ==> RepairResult(cfg, code, true, env) == 255
  {
    if 0 < cfg.repairTimeout && forall j | 0 <= j < cfg.repairTimeout && j < |env.polls| ::
        env.polls[j] == StillRunning {
      NoAnswer(env.polls, cfg.repairTimeout);
    }
  }

  /** A repair program that ends within the timeout, at poll i, or that is waited for without one: the result is bits
      8 to 15 of its wait status. If waitpid fails, these are the bits of the error code itself, or errno with
      --softboot. */
  lemma RepairEnds(cfg: Config, code: int, env: RepairEnv, i: nat)
    requires env.forked
    requires 0 < cfg.repairTimeout ==>
               && i < cfg.repairTimeout && i < |env.polls| && env.polls[i] != StillRunning
               && forall j | 0 <= j < i :: env.polls[j] == StillRunning
    ensures var answer := if 0 < cfg.repairTimeout then env.polls[i] else env.blockWait;
            && (answer.Reaped? ==> RepairResult(cfg, code, true, env) == (answer.status / 256) % 256)
            && (answer.WaitFailed? ==>
                  RepairResult(cfg, code, true, env) == if cfg.softboot then answer.errno else (code / 256) % 256)
  {
    if 0 < cfg.repairTimeout { AnswerIs(env.polls, cfg.repairTimeout, i); }
  }

  /** A node of one of the configuration's lists (struct list in include/extern.h). */
  class Item {
    const name: string
    const version: int
    ghost const place: Place
    var lastTime: int
    var repairCount: int
    ghost var reports: seq<Report>

    constructor (name: string, version: int, ghost place: Place)
      ensures this.name == name && this.version == version && this.place == place && State() == CLEAN && reports == []
    {
      this.name, this.version, this.place := name, version, place;
      lastTime, repairCount, reports := 0, 0, [];
    }

    ghost function State(): ItemState
      reads this
    {
      ItemState(lastTime, repairCount)
    }

    /** The fields are what the reports so far make of a clean item, and the reports are in clock order. */
    ghost predicate Consistent(cfg: Settings, now: int)
      reads this
    {
      Outcome(cfg, State(), reports, now)
    }
  }

  /** A history with some more reports. */
  function Extended(reps: seq<Report>, more: seq<Report>): (r: seq<Report>)
    ensures r == reps + more
  {
    if more == [] then reps else reps + more
  }

  /** The state is what the reports make of a clean item; they are in clock order and not in the future. */
  predicate Outcome(cfg: Settings, state: ItemState, reps: seq<Report>, now: int)
  {
    state == After(cfg, reps) && Clock(reps) && (reps != [] ==> reps[|reps| - 1].now <= now)
  }

  lemma ReportKept(cfg: Settings, state: ItemState, reps: seq<Report>, x: Report, now: int)
    requires Outcome(cfg, state, reps, x.now) && 0 < x.now <= now
    ensures Outcome(cfg, Step(cfg, state, x).state, reps + [x], now)
  {
    assert (reps + [x])[..|reps|] == reps;
  }

  class Daemon {
    const cfg: Config
    const epoch: int             // time(NULL) when the main loop starts
    const lists: seq<seq<Item>>  // temperature, file, pidfile, interface, ping, test binary
    var clock: nat               // microseconds since then
    var down: Option<int>        // do_shutdown was called with this code
    ghost var log: seq<Event>

    constructor (cfg: Config, epoch: int, lists: seq<seq<Item>>)
      requires 0 < epoch
      ensures this.cfg == cfg && this.epoch == epoch && this.lists == lists
      ensures clock == 0 && down == None && log == []
    {
      this.cfg, this.epoch, this.lists := cfg, epoch, lists;
      clock, down, log := 0, None, [];
    }

    function Now(): int
      reads this
    {
      epoch + clock / SECOND
    }

    ghost function Items(): set<Item>
    {
      set i, j | 0 <= i < |lists| && 0 <= j < |lists[i]| :: lists[i][j]
    }

    /** No node is in two places of the lists. */
    ghost predicate Placed()
    {
      forall l, i | 0 <= l < |lists| && 0 <= i < |lists[l]| :: lists[l][i].place == Place(l, i)
    }

    ghost predicate Sound(it: Item)
      reads this, it
    {
      it.Consistent(cfg.retry, Now()) && (down.None? ==> Alive(cfg.retry, it.reports))
    }

    /** Every item is the outcome of its own reports, and while the daemon runs no report has been fatal. */
    ghost predicate ItemsConsistent()
      reads this, Items()
    {
      && 0 < epoch && Placed()
      && (forall l, i {:trigger Sound(lists[l][i])} | 0 <= l < |lists| && 0 <= i < |lists[l]| :: Sound(lists[l][i]))
    }

    method Sleep(us: nat)
      modifies this
      ensures clock == old(clock) + us && log == old(log) + [Elapse(us)] && down == old(down)
      ensures old(Now()) <= Now()
    {
      clock := clock + us;
      log := log + [Elapse(us)];
    }

    /** Time that passes changes nothing about the items. */
    method Pause(us: nat)
      requires ItemsConsistent()
      modifies this
      ensures clock == old(clock) + us && log == old(log) + [Elapse(us)] && down == old(down) && ItemsConsistent()
    {
      Sleep(us);
      forall l, i | 0 <= l < |lists| && 0 <= i < |lists[l]| ensures Sound(lists[l][i]) {
        assert old(Sound(lists[l][i]));
      }
    }

    /** keep_alive: an open device that accepts the write, for which errno is ENOERR, is refreshed. */
    method KeepAlive(open: bool, errno: int) returns (err: int)
      modifies this`log
      ensures err == if open then errno else ENOERR
      ensures log == old(log) + if open && errno == ENOERR then [Refresh] else []
    {
      if !open { return ENOERR; }
      err := errno;
      if err == ENOERR { log := log + [Refresh]; }
    }

    method Repair(code: int, binary: bool, env: RepairEnv) returns (ret: int, ghost beats: nat)
      modifies this
      ensures ret == RepairResult(cfg, code, binary, env)
      ensures clock >= old(clock) && down == old(down)
      ensures cfg.repairTimeout > 0 ==>
                && beats == (if binary && env.forked then Rounds(env.polls, cfg.repairTimeout) else 0)
                && log == Beats(old(log), beats) && clock == old(clock) + beats * SECOND
      ensures cfg.repairTimeout <= 0 ==>
                && beats == 0
                && clock == old(clock) + (if binary && env.forked then env.block else 0)
                && log == old(log) + if binary && env.forked then [Elapse(env.block)] else []
    {
      beats := 0;
      if !binary { return code, 0; }
      if !env.forked { return EREBOOT, 0; }
      var answer := StillRunning;
      if cfg.repairTimeout > 0 {
        var left, i := cfg.repairTimeout, 0;
        while left > 0 && answer == StillRunning
          invariant 0 <= left <= cfg.repairTimeout && 0 <= i && beats == i
          invariant down == old(down) && clock == old(clock) + i * SECOND
          invariant answer == StillRunning ==> i == cfg.repairTimeout - left
          invariant var rest := if i <= |env.polls| then env.polls[i..] else [];
                    if answer == StillRunning then
                      && Answer(env.polls, cfg.repairTimeout) == Answer(rest, left)
                      && Rounds(env.polls, cfg.repairTimeout) == i + Rounds(rest, left)
                    else
                      && Answer(env.polls, cfg.repairTimeout) == answer
                      && Rounds(env.polls, cfg.repairTimeout) == i
          invariant log == Beats(old(log), i)
          decreases left, answer == StillRunning
        {
          Sleep(SECOND);
          var _ := KeepAlive(true, ENOERR);
          answer := if i < |env.polls| then env.polls[i] else StillRunning;
          i := i + 1;
          beats := i;
          if answer == StillRunning { left := left - 1; }
        }
      } else {
        Sleep(env.block);
        answer := env.blockWait;
      }
      match answer {
        case StillRunning => ret := EREBOOT;
        case Reaped(status) => ret := ExitStatus(status);
        case WaitFailed(errno) => ret := if cfg.softboot then errno else ExitStatus(code);
      }
    }

    /** The settings that apply to a report: without an item there is neither a retry clock nor a repair counter. */
    function Effective(act: Item?): Settings
    {
      if act == null then Settings(0, 0, cfg.retry.noAct) else cfg.retry
    }

    function HasBinary(act: Item?): bool
    {
      cfg.repairBin || (act != null && act.version == 1)
    }

    method WdAction(code: int, act: Item?, env: RepairEnv) returns (ghost beats: nat)
      requires down.None?
      modifies this, if act == null then {} else {act}
      ensures clock >= old(clock)
      ensures var s := if act == null then CLEAN else old(act.State());
              var x := Report(code, old(Now()), RepairResult(cfg, code, HasBinary(act), env));
              var reaction := Step(Effective(act), s, x);
              && down == (if Fatal(cfg.retry, reaction) then Some(reaction.error) else None)
              && (act != null ==> act.State() == reaction.state)
              && (!reaction.repaired ==> beats == 0 && log == old(log) && clock == old(clock))
              && (reaction.repaired && cfg.repairTimeout > 0 && HasBinary(act) && env.forked ==>
                    beats == Rounds(env.polls, cfg.repairTimeout))
      ensures act != null ==> act.reports == old(act.reports)
      ensures cfg.repairTimeout > 0 ==>
                && log == Beats(old(log), beats) && clock == old(clock) + beats * SECOND && beats <= cfg.repairTimeout
    {
      RoundsBounded(env.polls, if cfg.repairTimeout > 0 then cfg.repairTimeout else 0);
      var result := code;
      beats := 0;
      if result == ENOERR {
        if act != null { act.lastTime, act.repairCount := 0, 0; }
        return;
      }
      if result == EDONTKNOW { return; }
      if !Unrepairable(result) {
        var timeout := true;
        if act != null && cfg.retry.retryTimeout > 0 {
          var now := Now();
          timeout := false;
          if act.lastTime == 0 {
            act.lastTime := now;
          } else {
            timeout := ToInt32(now - act.lastTime) > cfg.retry.retryTimeout;
          }
        }
        if timeout {
          var tryRepair := true;
          if act != null && cfg.retry.repairMax > 0 {
            act.repairCount := act.repairCount + 1;
            if act.repairCount > cfg.retry.repairMax {
              tryRepair := false;
            } else {
              act.lastTime := 0;
            }
          }
          if tryRepair {
            result, beats := Repair(result, HasBinary(act), env);
          }
        } else {
          result := ENOERR;
        }
      }
      if result != ENOERR && !cfg.retry.noAct { down := Some(result); }
    }

    /** What ends the run when a check fails that belongs to no list: there is no retry and no limit to repairs, so it
        is the code of an error that cannot be repaired, or what the repair returns. */
    function Unlisted(code: int, env: RepairEnv): Option<int>
    {
      var repair := RepairResult(cfg, code, cfg.repairBin, env);
      if cfg.retry.noAct || code == 0 || code == 245 then None
      else if code == 255 || code == 254 || code == 252 then Some(code)
      else if repair != 0 then Some(repair)
      else None
    }

    /** The report about an item: a version 1 item is its own repair binary. */
    function ReportFor(it: Item, env: CheckEnv, now: int): Report
    {
      Report(env.code, now, RepairResult(cfg, env.code, cfg.repairBin || it.version == 1, env.repair))
    }

    /** A report tells the code of the check, the second in which it was over, and what a repair returns: without
        the common binary only a version 1 item has one. */
    lemma ReportTells(it: Item, env: CheckEnv, run: CheckRun)
      ensures var x := ReportOf(it, env, run);
              && x.code == env.code && x.now == epoch + (run.at + run.duration) / 1_000_000
              && (it.version == 1 || cfg.repairBin ==> x.repair == RepairResult(cfg, env.code, true, env.repair))
              && (it.version != 1 && !cfg.repairBin ==> x.repair == env.code)
    {
    }

    /** The report when the check is over, before any repair. */
    function ReportOf(it: Item, env: CheckEnv, run: CheckRun): Report
    {
      ReportFor(it, env, epoch + (run.at + run.duration) / SECOND)
    }

    /** What the run is to end with after a report about an item with this history. */
    ghost function Sentence(before: seq<Report>, x: Report): Option<int>
    {
      Verdict(cfg.retry, After(cfg.retry, before), x)
    }

    /** wd_action for a check that began at `at`, with the report entered in the item's history. */
    method Judge(env: CheckEnv, act: Item?, ghost at: nat) returns (ghost run: CheckRun)
      requires down.None? && 0 < epoch && clock == at + env.duration
      requires act != null ==> act.Consistent(cfg.retry, Now()) && Alive(cfg.retry, act.reports)
      modifies this, if act == null then {} else {act}
      ensures run.at == at && run.duration == env.duration && clock == EndOf(run)
      ensures act == null ==> down == Unlisted(env.code, env.repair)
      ensures act != null ==> act.Consistent(cfg.retry, Now()) && (down.None? ==> Alive(cfg.retry, act.reports))
      ensures act != null ==>
                var x := ReportOf(act, env, run);
                act.reports == old(act.reports) + [x] && down == Sentence(old(act.reports), x)
      ensures cfg.repairTimeout > 0 ==>
                run.spent == run.beats * SECOND && run.beats <= cfg.repairTimeout && log == Beats(old(log), run.beats)
    {
      ghost var beats, due := 0, clock;
      if act == null {
        beats := JudgeUnlisted(env);
      } else {
        ghost var x := ReportFor(act, env, Now());
        beats := JudgeItem(env, act, x);
      }
      run := CheckRun(at, env.duration, beats, clock - due);
    }

    method JudgeUnlisted(env: CheckEnv) returns (ghost beats: nat)
      requires down.None?
      modifies this
      ensures clock >= old(clock) && down == Unlisted(env.code, env.repair)
      ensures cfg.repairTimeout > 0 ==>
                && log == Beats(old(log), beats) && clock == old(clock) + beats * SECOND && beats <= cfg.repairTimeout
    {
      StepVerdict(Effective(null), CLEAN,
                  Report(env.code, Now(), RepairResult(cfg, env.code, HasBinary(null), env.repair)));
      beats := WdAction(env.code, null, env.repair);
    }

    method JudgeItem(env: CheckEnv, act: Item, ghost x: Report) returns (ghost beats: nat)
      requires down.None? && 0 < epoch && act.Consistent(cfg.retry, Now()) && Alive(cfg.retry, act.reports)
      requires x == ReportFor(act, env, Now())
      modifies this, act
      ensures clock >= old(clock)
      ensures act.Consistent(cfg.retry, Now()) && (down.None? ==> Alive(cfg.retry, act.reports))
      ensures act.reports == old(act.reports) + [x] && down == Sentence(old(act.reports), x)
      ensures cfg.repairTimeout > 0 ==>
                && log == Beats(old(log), beats) && clock == old(clock) + beats * SECOND && beats <= cfg.repairTimeout
    {
      StepVerdict(cfg.retry, act.State(), x);
      beats := WdAction(env.code, act, env.repair);
      ReportKept(cfg.retry, old(act.State()), act.reports, x, Now());
      if down.None? { AliveSnoc(cfg.retry, act.reports, x); }
      act.reports := act.reports + [x];
    }

    /** wd_action(keep_alive(), repair_bin, NULL): a refresh that fails with errno is repaired at once or shuts down. */
    method Refreshing(errno: int, env: RepairEnv)
      requires down.None?
      modifies this
      ensures errno == ENOERR ==> log == old(log) + [Refresh] && clock == old(clock) && down.None?
      ensures var x := Report(errno, old(Now()), RepairResult(cfg, errno, HasBinary(null), env));
              var reaction := Step(Effective(null), CLEAN, x);
              && down == (if Fatal(cfg.retry, reaction) then Some(reaction.error) else None)
              && (Repairable(errno) ==> reaction.repaired)
      ensures down == Unlisted(errno, env)
    {
      StepVerdict(Effective(null), CLEAN, Report(errno, Now(), RepairResult(cfg, errno, HasBinary(null), env)));
      var err := KeepAlive(true, errno);
      ghost var _ := WdAction(err, null, env);
    }

    /** The same when the refresh succeeds. */
    method Feed()
      requires down.None?
      modifies this
      ensures log == old(log) + [Refresh] && clock == old(clock) && down.None?
    {
      Refreshing(ENOERR, RepairEnv(false, [], 0, StillRunning));
    }

    /** The refresh at the head of the loop. */
    method FeedFirst()
      requires down.None? && ItemsConsistent()
      modifies this
      ensures log == old(log) + [Refresh] && clock == old(clock) && down.None? && ItemsConsistent()
      ensures Histories() == old(Histories())
    {
      Feed();
      forall l, i | 0 <= l < |lists| && 0 <= i < |lists[l]| ensures Sound(lists[l][i]) {
        assert old(Sound(lists[l][i]));
      }
    }

    method DoCheck(env: CheckEnv, act: Item?) returns (ghost run: CheckRun)
      requires down.None? && 0 < epoch
      requires act != null ==> act.Consistent(cfg.retry, Now()) && Alive(cfg.retry, act.reports)
      modifies this, if act == null then {} else {act}
      ensures run.duration == env.duration && run.at == old(clock) && clock == EndOf(run) && Now() >= old(Now())
      ensures act == null ==> down == Unlisted(env.code, env.repair)
      ensures act != null ==> act.Consistent(cfg.retry, Now()) && (down.None? ==> Alive(cfg.retry, act.reports))
      ensures act != null ==>
                var x := ReportOf(act, env, run);
                act.reports == old(act.reports) + [x] && down == Sentence(old(act.reports), x)
      ensures cfg.repairTimeout > 0 ==>
                && run.spent == run.beats * SECOND && run.beats <= cfg.repairTimeout
                && log == Beats(old(log) + [Elapse(env.duration)], run.beats) + if down.None? then [Refresh] else []
    {
      Sleep(env.duration);
      run := Judge(env, act, old(clock));
      if down.None? { Feed(); }
    }

    /** Of n checks to be made these have been, one right after the other from `start` on: all of them, or some if the
        last ended the run. No repair took longer than its timeout. The log is theirs; after a shutdown the last
        refresh is missing. */
    ghost predicate Checked(runs: seq<CheckRun>, n: nat, start: nat, log0: seq<Event>)
      reads this
    {
      && Consecutive(runs, start, clock) && (if down.None? then |runs| == n else 0 < |runs| <= n)
      && (cfg.repairTimeout > 0 ==>
            && Prompt(cfg, runs)
            && log == if down.None? then ChecksLog(log0, runs) else CutShort(log0, runs))
    }

    /** do_check keeps all items consistent. */
    method CheckOne(env: CheckEnv, act: Item?) returns (ghost run: CheckRun)
      requires down.None? && ItemsConsistent() && (act != null ==> Sound(act))
      modifies this, if act == null then {} else {act}
      ensures ItemsConsistent() && Checked([run], 1, old(clock), old(log)) && Now() >= old(Now())
      ensures run.duration == env.duration && (act == null ==> down == Unlisted(env.code, env.repair))
      ensures act != null ==>
                act.reports == old(act.reports) + [ReportOf(act, env, run)] && (down.Some? ==> EndedBy(act))
    {
      run := DoCheck(env, act);
      CheckedOne(run, [run], old(clock), old(log));
      forall l, i | 0 <= l < |lists| && 0 <= i < |lists[l]| ensures Sound(lists[l][i]) {
        assert old(Sound(lists[l][i]));
      }
    }

    lemma CheckedOne(run: CheckRun, runs: seq<CheckRun>, start: nat, log0: seq<Event>)
      requires runs == [run] && run.at == start && clock == EndOf(run)
      requires cfg.repairTimeout > 0 ==>
                 && run.spent == run.beats * SECOND && run.beats <= cfg.repairTimeout
                 && log == Beats(log0 + [Elapse(run.duration)], run.beats) + if down.None? then [Refresh] else []
      ensures Checked(runs, 1, start, log0)
    {
      assert runs[..0] == [] && ChecksLog(log0, runs[..0]) == log0;
      assert CutShort(log0, runs) == Beats(log0 + [Elapse(run.duration)], run.beats);
    }

    /** Several more checks. */
    lemma CheckedConcat(
      runs: seq<CheckRun>, more: seq<CheckRun>, n: nat, start: nat, middle: nat, log0: seq<Event>, log1: seq<Event>
    )
      requires Consecutive(runs, start, middle)
      requires cfg.repairTimeout > 0 ==> Prompt(cfg, runs) && log1 == ChecksLog(log0, runs)
      requires Checked(more, n, middle, log1)
      ensures Checked(runs + more, |runs| + n, start, log0)
    {
      ConsecutiveConcat(runs, more, start, middle, clock);
      ChecksConcat(log0, runs, more);
    }

    /** Report i is about item i of the list, from check i. */
    ghost predicate About(l: nat, xs: seq<Report>, envs: seq<CheckEnv>, runs: seq<CheckRun>)
      requires l < |lists| && |runs| <= |envs| && |runs| <= |lists[l]|
    {
      && |xs| == |runs|
      && forall i {:trigger ReportOf(lists[l][i], envs[i], runs[i])} | 0 <= i < |runs| ::
           xs[i] == ReportOf(lists[l][i], envs[i], runs[i]) && runs[i].duration == envs[i].duration
    }

    lemma AboutSnoc(l: nat, xs: seq<Report>, x: Report, envs: seq<CheckEnv>, runs: seq<CheckRun>, run: CheckRun)
      requires l < |lists| && |runs| < |envs| && |runs| < |lists[l]| && About(l, xs, envs, runs)
      requires x == ReportOf(lists[l][|runs|], envs[|runs|], run) && run.duration == envs[|runs|].duration
      ensures About(l, xs + [x], envs, runs + [run])
    {
      var more := runs + [run];
      forall i | 0 <= i < |more|
        ensures (xs + [x])[i] == ReportOf(lists[l][i], envs[i], more[i]) && more[i].duration == envs[i].duration
      {
        if i < |runs| { assert xs[i] == ReportOf(lists[l][i], envs[i], runs[i]); }
      }
    }

    /** One list of items, checked in order: item i gets exactly the report about check i, and items that are not
        reached get none. What ends the run is the last report made. */
    method CheckList(l: nat, envs: seq<CheckEnv>) returns (ghost runs: seq<CheckRun>, ghost xs: seq<Report>)
      requires down.None? && ItemsConsistent()
      requires l < |lists| && |envs| == |lists[l]|
      modifies this, lists[l]
      ensures ItemsConsistent() && Now() >= old(Now())
      ensures Checked(runs, |envs|, old(clock), old(log))
      ensures About(l, xs, envs, runs)
      ensures forall i | 0 <= i < |runs| :: lists[l][i].reports == old(lists[l][i].reports) + [xs[i]]
      ensures forall i | |runs| <= i < |envs| :: lists[l][i].reports == old(lists[l][i].reports)
      ensures down.Some? ==> EndedBy(lists[l][|runs| - 1])
    {
      runs, xs := [], [];
      for i := 0 to |envs|
        invariant down.None? && |runs| == i && ItemsConsistent() && Now() >= old(Now())
        invariant Checked(runs, i, old(clock), old(log)) && About(l, xs, envs, runs)
        invariant forall j | 0 <= j < i :: lists[l][j].reports == old(lists[l][j].reports) + [xs[j]]
        invariant forall j | i <= j < |envs| :: lists[l][j].reports == old(lists[l][j].reports)
      {
        ghost var middle, log1 := clock, log;
        ghost var run, x := CheckItem(l, i, envs[i]);
        CheckedConcat(runs, [run], 1, old(clock), middle, old(log), log1);
        AboutSnoc(l, xs, x, envs, runs, run);
        runs, xs := runs + [run], xs + [x];
        if down.Some? { return; }
      }
    }

    /** One round of the loop. */
    method CheckItem(l: nat, i: nat, env: CheckEnv) returns (ghost run: CheckRun, ghost x: Report)
      requires down.None? && ItemsConsistent() && l < |lists| && i < |lists[l]|
      modifies this, lists[l][i]
      ensures ItemsConsistent() && Checked([run], 1, old(clock), old(log)) && Now() >= old(Now())
      ensures run.duration == env.duration && x == ReportOf(lists[l][i], env, run)
      ensures lists[l][i].reports == old(lists[l][i].reports) + [x]
      ensures down.Some? ==> EndedBy(lists[l][i])
    {
      assert Sound(lists[l][i]);
      run := CheckOne(env, lists[l][i]);
      x := ReportOf(lists[l][i], env, run);
    }

    /** The run was ended by the last report about the item. */
    ghost predicate EndedBy(it: Item)
      reads this, it
    {
      && it.reports != []
      && var k := |it.reports| - 1;
         down == Sentence(it.reports[..k], it.reports[k])
    }

    /** The environment of one turn fits the daemon: five unlisted checks, then one per item of each list. */
    ghost predicate Fits(env: PassEnv)
    {
      |env.fixed| == 5 && FitLists(env.lists)
    }

    /** The checks that belong to no list: sync, file table, load, free and allocatable memory. The first that demands a
        shutdown gets it. */
    method FixedChecks(envs: seq<CheckEnv>) returns (ghost runs: seq<CheckRun>)
      requires down.None? && ItemsConsistent()
      modifies this
      ensures ItemsConsistent() && Now() >= old(Now())
      ensures Checked(runs, |envs|, old(clock), old(log))
      ensures forall i | 0 <= i < |runs| :: runs[i].duration == envs[i].duration
      ensures forall i | 0 <= i < |runs| - 1 :: Unlisted(envs[i].code, envs[i].repair).None?
      ensures runs != [] ==> down == Unlisted(envs[|runs| - 1].code, envs[|runs| - 1].repair)
    {
      runs := [];
      for i := 0 to |envs|
        invariant down.None? && |runs| == i && ItemsConsistent() && Now() >= old(Now())
        invariant Checked(runs, i, old(clock), old(log))
        invariant forall j | 0 <= j < i ::
                    runs[j].duration == envs[j].duration && Unlisted(envs[j].code, envs[j].repair).None?
      {
        ghost var middle, log1 := clock, log;
        ghost var run := CheckOne(envs[i], null);
        CheckedConcat(runs, [run], 1, old(clock), middle, old(log), log1);
        runs := runs + [run];
        if down.Some? { return; }
      }
    }

    /** How many items come before a list. */
    ghost function Offset(l: nat): nat
      requires l <= |lists|
    {
      if l == 0 then 0 else Offset(l - 1) + |lists[l - 1]|
    }

    ghost predicate FitLists(envs: seq<seq<CheckEnv>>)
    {
      |envs| == |lists| && forall l | 0 <= l < |lists| :: |envs[l]| == |lists[l]|
    }

    /** Report Offset(l) + i is about item i of list l, from its own check, if the checks have come to it. */
    ghost predicate AboutItem(l: nat, i: nat, xs: seq<Report>, envs: seq<seq<CheckEnv>>, runs: seq<CheckRun>)
      requires FitLists(envs) && |xs| == |runs| && l < |lists| && i < |lists[l]|
    {
      var k := Offset(l) + i;
      k < |runs| ==> xs[k] == ReportOf(lists[l][i], envs[l][i], runs[k]) && runs[k].duration == envs[l][i].duration
    }

    ghost predicate AboutLists(xs: seq<Report>, envs: seq<seq<CheckEnv>>, runs: seq<CheckRun>)
      requires FitLists(envs)
    {
      && |xs| == |runs|
      && forall l, i {:trigger AboutItem(l, i, xs, envs, runs)} | 0 <= l < |lists| && 0 <= i < |lists[l]| ::
           AboutItem(l, i, xs, envs, runs)
    }

    lemma {:induction false} OffsetGrows(m: nat, l: nat)
      requires m < l <= |lists|
      ensures Offset(m) + |lists[m]| <= Offset(l)
    {
      if m < l - 1 { OffsetGrows(m, l - 1); }
    }

    /** The items of the lists before l come before those of the others. */
    lemma OffsetsApart(l: nat, m: nat, i: nat)
      requires l <= |lists| && m < |lists| && i < |lists[m]|
      ensures m < l <==> Offset(m) + i < Offset(l)
    {
      if m < l { OffsetGrows(m, l); } else if l < m { OffsetGrows(l, m); }
    }

    /** The reports of one more list, which may be cut short. */
    lemma AboutConcat(
      l: nat, xs: seq<Report>, ys: seq<Report>, envs: seq<seq<CheckEnv>>, runs: seq<CheckRun>, more: seq<CheckRun>
    )
      requires l < |lists| && FitLists(envs) && |runs| == Offset(l) && |more| <= |lists[l]|
      requires AboutLists(xs, envs, runs) && About(l, ys, envs[l], more)
      ensures AboutLists(xs + ys, envs, runs + more)
    {
      forall m, i | 0 <= m < |lists| && 0 <= i < |lists[m]| ensures AboutItem(m, i, xs + ys, envs, runs + more) {
        assert AboutItem(m, i, xs, envs, runs);
        AboutItemMore(l, m, i, xs, ys, envs, runs, more);
      }
    }

    lemma AboutItemMore(
      l: nat, m: nat, i: nat, xs: seq<Report>, ys: seq<Report>, envs: seq<seq<CheckEnv>>, runs: seq<CheckRun>,
      more: seq<CheckRun>
    )
      requires l < |lists| && FitLists(envs) && |xs| == |runs| == Offset(l) && |more| <= |lists[l]|
      requires m < |lists| && i < |lists[m]| && AboutItem(m, i, xs, envs, runs) && About(l, ys, envs[l], more)
      ensures AboutItem(m, i, xs + ys, envs, runs + more)
    {
      if m > l {
        OffsetsApart(l + 1, m, i);
      } else if m < l {
        OffsetsApart(l, m, i);
      } else if i < |more| {
        var _ := ReportOf(lists[l][i], envs[l][i], more[i]);
        assert (xs + ys)[Offset(l) + i] == ys[i] && (runs + more)[Offset(l) + i] == more[i];
      }
    }

    /** What the report of item i of list m is, if the checks have come to it. */
    ghost function Entered(m: nat, i: nat, xs: seq<Report>): seq<Report>
      requires m <= |lists|
    {
      if Offset(m) + i < |xs| then [xs[Offset(m) + i]] else []
    }

    lemma EnteredMore(l: nat, m: nat, i: nat, xs: seq<Report>, ys: seq<Report>)
      requires l < |lists| && m < |lists| && i < |lists[m]| && |xs| == Offset(l) && |ys| <= |lists[l]|
      ensures m < l ==> Entered(m, i, xs + ys) == Entered(m, i, xs)
      ensures m == l ==> Entered(m, i, xs) == [] && Entered(m, i, xs + ys) == if i < |ys| then [ys[i]] else []
      ensures m > l ==> Entered(m, i, xs) == Entered(m, i, xs + ys) == []
    {
      OffsetsApart(l, m, i);
      OffsetsApart(l + 1, m, i);
    }

    /** The history of each item is what it was, with the report of a turn if the checks have come to the item. */
    ghost predicate Grown(base: map<Place, seq<Report>>, xs: seq<Report>)
      reads Items()
    {
      && (forall m, i | 0 <= m < |lists| && 0 <= i < |lists[m]| :: Place(m, i) in base)
      && (forall m, i {:trigger Entered(m, i, xs)} | 0 <= m < |lists| && 0 <= i < |lists[m]| ::
            lists[m][i].reports == Extended(base[Place(m, i)], Entered(m, i, xs)))
    }

    lemma GrownStart(xs: seq<Report>)
      requires xs == []
      ensures Grown(Histories(), xs)
    {
      forall m, i | 0 <= m < |lists| && 0 <= i < |lists[m]| ensures Entered(m, i, xs) == [] {
        assert Offset(m) + i >= 0;
      }
    }

    /** Before the first list. */
    lemma NothingDone(envs: seq<seq<CheckEnv>>)
      requires FitLists(envs) && down.None?
      ensures AboutLists([], envs, []) && Checked([], Offset(0), clock, log)
    {
      forall l, i | 0 <= l < |lists| && 0 <= i < |lists[l]| ensures AboutItem(l, i, [], envs, []) { }
    }

    /** When a list has ended the run. */
    lemma CutLists(l: nat, runs: seq<CheckRun>, start: nat, log0: seq<Event>)
      requires l < |lists| && down.Some? && Checked(runs, Offset(l + 1), start, log0)
      ensures Checked(runs, Offset(|lists|), start, log0) && Offset(|lists|) > 0
    {
      if l + 1 < |lists| { OffsetGrows(l + 1, |lists|); }
    }

    /** All the lists, in order. */
    method ListChecks(envs: seq<seq<CheckEnv>>) returns (ghost runs: seq<CheckRun>, ghost xs: seq<Report>)
      requires down.None? && ItemsConsistent() && FitLists(envs)
      modifies this, Items()
      ensures ItemsConsistent() && Now() >= old(Now())
      ensures (Offset(|lists|) == 0 ==> down.None?) && Checked(runs, Offset(|lists|), old(clock), old(log))
      ensures AboutLists(xs, envs, runs)
      ensures Grown(old(Histories()), xs)
      ensures down.Some? ==> Blamed()
    {
      runs, xs := [], [];
      NothingDone(envs);
      GrownStart(xs);
      for l := 0 to |lists|
        invariant down.None? && ItemsConsistent() && Now() >= old(Now())
        invariant Checked(runs, Offset(l), old(clock), old(log)) && AboutLists(xs, envs, runs)
        invariant Grown(old(Histories()), xs)
      {
        runs, xs := ListNext(l, envs, runs, xs, old(clock), old(log), old(Histories()));
        if down.Some? {
          CutLists(l, runs, old(clock), old(log));
          return;
        }
      }
    }

    /** One more list. */
    method ListNext(
      l: nat, envs: seq<seq<CheckEnv>>, ghost runs: seq<CheckRun>, ghost xs: seq<Report>, ghost start: nat,
      ghost log0: seq<Event>, ghost base: map<Place, seq<Report>>
    ) returns (ghost runs': seq<CheckRun>, ghost xs': seq<Report>)
      requires down.None? && ItemsConsistent() && FitLists(envs) && l < |lists|
      requires Checked(runs, Offset(l), start, log0) && AboutLists(xs, envs, runs) && Grown(base, xs)
      modifies this, Items()
      ensures ItemsConsistent() && Now() >= old(Now())
      ensures Checked(runs', Offset(l + 1), start, log0) && AboutLists(xs', envs, runs') && Grown(base, xs')
      ensures down.Some? ==> Blamed()
    {
      ghost var middle, log1 := clock, log;
      assert forall i | 0 <= i < |lists[l]| :: lists[l][i] in Items();
      ghost var more, ys := CheckList(l, envs[l]);
      CheckedConcat(runs, more, |lists[l]|, start, middle, log0, log1);
      AboutConcat(l, xs, ys, envs, runs, more);
      runs', xs' := runs + more, xs + ys;
      if down.Some? { assert EndedBy(lists[l][|more| - 1]); }
      forall m, i {:trigger Entered(m, i, xs')} | 0 <= m < |lists| && 0 <= i < |lists[m]|
        ensures lists[m][i].reports == Extended(base[Place(m, i)], Entered(m, i, xs'))
      {
        EnteredMore(l, m, i, xs, ys);
        if m != l { Elsewhere(l, m, i); }
      }
    }

    lemma Elsewhere(l: nat, m: nat, i: nat)
      requires Placed() && l < |lists| && m < |lists| && i < |lists[m]| && m != l
      ensures lists[m][i] !in lists[l]
    {
    }

    /** The reports of a turn are those from the checks of the items. */
    ghost predicate AboutTurn(env: PassEnv, run: PassRun)
      requires Fits(env)
    {
      AboutLists(run.reports, env.lists, if |run.checks| < 5 then [] else run.checks[5..])
    }

    /** A check that belongs to no list ended the run. */
    ghost predicate BlamedUnlisted(env: PassEnv, run: PassRun)
      requires Fits(env)
      reads this
    {
      var k := |run.checks| - 1;
      0 <= k < 5 && down == Unlisted(env.fixed[k].code, env.fixed[k].repair)
    }

    /** The checks of the turn, from `start` on and before any sleep. */
    ghost predicate Made(env: PassEnv, run: PassRun, start: nat)
      requires Fits(env)
    {
      && run.poll == env.poll && 0 < |run.checks| <= 5 + Offset(|lists|)
      && (forall j | 0 <= j < |run.checks| && j < 5 :: run.checks[j].duration == env.fixed[j].duration)
      && Consecutive(run.checks, start, ChecksEnd(run)) && (cfg.repairTimeout > 0 ==> Prompt(cfg, run.checks))
    }

    /** Every check after the first five is that of some item. */
    lemma {:induction false} Locate(k: nat, n: nat) returns (l: nat, i: nat)
      requires n <= |lists| && k < Offset(n)
      ensures l < n && i < |lists[l]| && Offset(l) + i == k
    {
      if k < Offset(n - 1) {
        l, i := Locate(k, n - 1);
      } else {
        l, i := n - 1, k - Offset(n - 1);
      }
    }

    lemma TurnIsBrief(env: PassEnv, run: PassRun, start: nat, check: nat, poll: nat)
      requires Fits(env) && Quickly(env, check, poll) && Made(env, run, start) && AboutTurn(env, run)
      ensures Brief(run.checks, check)
    {
      forall j | 0 <= j < |run.checks| ensures run.checks[j].duration <= check {
        if j >= 5 {
          var l, i := Locate(j - 5, |lists|);
          assert AboutItem(l, i, run.reports, env.lists, run.checks[5..]);
          assert run.checks[5..][j - 5] == run.checks[j];
        }
      }
    }

    /** All the checks of a turn. */
    method Checks(env: PassEnv) returns (ghost run: PassRun)
      requires down.None? && ItemsConsistent() && Fits(env)
      modifies this, Items()
      ensures ItemsConsistent() && Made(env, run, old(clock)) && AboutTurn(env, run) && clock == ChecksEnd(run)
      ensures down.None? ==> |run.checks| == 5 + Offset(|lists|)
      ensures Grown(old(Histories()), run.reports)
      ensures down.Some? ==> Blamed() || BlamedUnlisted(env, run)
      ensures down.None? ==> UnlistedFine(env)
      ensures cfg.repairTimeout > 0 ==>
                log == if down.None? then ChecksLog(old(log), run.checks) else CutShort(old(log), run.checks)
    {
      ghost var runs := FixedChecks(env.fixed);
      ghost var middle, log1 := clock, log;
      if down.Some? { return CutTurn(env, runs, [], old(clock), old(log)); }
      ghost var more, xs := ListChecks(env.lists);
      CheckedConcat(runs, more, Offset(|lists|), old(clock), middle, old(log), log1);
      run := PassRun(runs + more, env.poll, xs);
      FullTurn(env, runs, more, xs);
      TurnMade(env, runs + more, xs, 5 + Offset(|lists|), old(clock), old(log));
    }

    lemma TurnMade(env: PassEnv, runs: seq<CheckRun>, xs: seq<Report>, n: nat, start: nat, log0: seq<Event>)
      requires Fits(env) && 0 < n <= 5 + Offset(|lists|) && Checked(runs, n, start, log0)
      requires forall j | 0 <= j < |runs| && j < 5 :: runs[j].duration == env.fixed[j].duration
      ensures Made(env, PassRun(runs, env.poll, xs), start) && clock == ChecksEnd(PassRun(runs, env.poll, xs))
    {
    }

    lemma FullTurn(env: PassEnv, runs: seq<CheckRun>, more: seq<CheckRun>, xs: seq<Report>)
      requires Fits(env) && |runs| == 5 && AboutLists(xs, env.lists, more)
      ensures AboutTurn(env, PassRun(runs + more, env.poll, xs))
    {
      assert (runs + more)[5..] == more;
    }

    /** A turn that a check ends that belongs to no list. */
    ghost function CutTurn(
      env: PassEnv, runs: seq<CheckRun>, xs: seq<Report>, start: nat, log0: seq<Event>
    ): (run: PassRun)
      requires Fits(env) && down.Some? && xs == [] && Checked(runs, 5, start, log0)
      requires forall j | 0 <= j < |runs| :: runs[j].duration == env.fixed[j].duration
      reads this, Items()
      ensures Made(env, run, start) && AboutTurn(env, run) && clock == ChecksEnd(run)
      ensures Grown(Histories(), run.reports) && run.checks == runs
    {
      NothingChecked(env, runs, xs);
      TurnMade(env, runs, xs, 5, start, log0);
      GrownStart(xs);
      PassRun(runs, env.poll, xs)
    }

    lemma NothingChecked(env: PassEnv, runs: seq<CheckRun>, xs: seq<Report>)
      requires Fits(env) && |runs| <= 5 && xs == []
      ensures AboutTurn(env, PassRun(runs, env.poll, xs))
    {
      var rest := if |runs| < 5 then [] else runs[5..];
      assert rest == [];
      forall l, i | 0 <= l < |lists| && 0 <= i < |lists[l]| ensures AboutItem(l, i, xs, env.lists, rest) { }
    }

    /** One turn of the main loop. */
    method Pass(env: PassEnv) returns (ghost run: PassRun)
      requires down.None? && ItemsConsistent() && Fits(env)
      modifies this, Items()
      ensures ItemsConsistent() && Made(env, run, old(clock)) && AboutTurn(env, run)
      ensures down.None? ==> |run.checks| == 5 + Offset(|lists|) && clock == TurnEnd(cfg.tint, run)
      ensures Grown(old(Histories()), run.reports)
      ensures down.Some? ==> Blamed() || BlamedUnlisted(env, run)
      ensures down.None? ==> UnlistedFine(env)
      ensures cfg.repairTimeout > 0 ==>
                log == if down.None? then PassLog(old(log), cfg.tint, run)
                       else CutShort(old(log) + [Refresh], run.checks)
    {
      FeedFirst();
      run := Checks(env);
      if down.Some? { return; }
      Rest(env.poll);
    }

    /** The waits at the end of a turn. */
    method Rest(poll: nat)
      requires ItemsConsistent()
      modifies this
      ensures clock == old(clock) + (SHORT_WAIT + poll + LongWait(cfg.tint)) && down == old(down) && ItemsConsistent()
      ensures log == old(log) + [Elapse(SHORT_WAIT)] + [Elapse(poll)] + [Elapse(LongWait(cfg.tint))]
    {
      Pause(SHORT_WAIT);
      Pause(poll);  // check_bin(NULL, ...)
      Pause(LongWait(cfg.tint));
    }

    /** What the turns enter about item i of list m. */
    ghost function Column(m: nat, i: nat, runs: seq<PassRun>): seq<Report>
      requires m < |lists| && i < |lists[m]|
    {
      if runs == [] then []
      else
        var k := |runs| - 1;
        Extended(Column(m, i, runs[..k]), Entered(m, i, runs[k].reports))
    }

    lemma ColumnSnoc(m: nat, i: nat, runs: seq<PassRun>, run: PassRun, base: seq<Report>)
      requires m < |lists| && i < |lists[m]|
      ensures Extended(base + Column(m, i, runs), Entered(m, i, run.reports)) == base + Column(m, i, runs + [run])
    {
      assert (runs + [run])[..|runs|] == runs;
    }

    /** Turn t made its checks and entered their reports, and began when the turn before it, which was complete,
        ended. */
    ghost predicate InTurnAt(envs: seq<PassEnv>, runs: seq<PassRun>, t: nat)
      requires t < |runs| <= |envs| && forall t | 0 <= t < |envs| :: Fits(envs[t])
    {
      && Made(envs[t], runs[t], ChecksStart(runs[t])) && AboutTurn(envs[t], runs[t])
      && (t > 0 ==> Follows(runs[t - 1], ChecksStart(runs[t])))
    }

    ghost predicate Follows(run: PassRun, start: nat)
    {
      |run.checks| == 5 + Offset(|lists|) && start == TurnEnd(cfg.tint, run)
    }

    ghost predicate InTurn(envs: seq<PassEnv>, runs: seq<PassRun>)
      requires |runs| <= |envs| && forall t | 0 <= t < |envs| :: Fits(envs[t])
    {
      forall t | 0 <= t < |runs| :: InTurnAt(envs, runs, t)
    }

    lemma InTurnSnoc(envs: seq<PassEnv>, runs: seq<PassRun>, run: PassRun, start: nat)
      requires |runs| < |envs| && (forall t | 0 <= t < |envs| :: Fits(envs[t])) && InTurn(envs, runs)
      requires Made(envs[|runs|], run, start) && AboutTurn(envs[|runs|], run)
      requires runs != [] ==> Follows(runs[|runs| - 1], start)
      ensures InTurn(envs, runs + [run])
    {
      var more := runs + [run];
      assert ChecksStart(run) == start;
      forall t | 0 <= t < |more| ensures InTurnAt(envs, more, t) {
        if t < |runs| { assert InTurnAt(envs, runs, t); }
      }
    }

    /** What the items' histories are. */
    ghost function Histories(): (h: map<Place, seq<Report>>)
      reads Items()
      ensures forall m, i {:trigger lists[m][i]} | 0 <= m < |lists| && 0 <= i < |lists[m]| ::
                Place(m, i) in h && h[Place(m, i)] == lists[m][i].reports
    {
      map m, i | 0 <= m < |lists| && 0 <= i < |lists[m]| :: Place(m, i) := lists[m][i].reports
    }

    /** Each item's history is what it was, and then its column. */
    ghost predicate Columns(base: map<Place, seq<Report>>, runs: seq<PassRun>)
      reads Items()
    {
      forall m, i {:trigger lists[m][i]} | 0 <= m < |lists| && 0 <= i < |lists[m]| ::
        Place(m, i) in base && lists[m][i].reports == base[Place(m, i)] + Column(m, i, runs)
    }

    /** The turns so far, all of them complete, with their log. */
    ghost predicate Running(envs: seq<PassEnv>, runs: seq<PassRun>)
      requires |runs| <= |envs| && forall t | 0 <= t < |envs| :: Fits(envs[t])
      reads this
    {
      && down.None? && InTurn(envs, runs) && log == LoopLog([], cfg.tint, runs)
      && AlwaysFed(log, cfg.devTimeout * SECOND)
      && (runs != [] ==> Follows(runs[|runs| - 1], clock))
    }

    /** Parameters that check_parameters accepts, with a repair timeout, and an environment in which checks take at most
        devTimeout - 2 seconds and polls less than two. */
    ghost predicate Acceptable(envs: seq<PassEnv>, poll: nat)
    {
      && 0 < cfg.tint && CheckParameters(cfg.tint, cfg.devTimeout) && 0 < cfg.repairTimeout && poll < 2 * SECOND
      && (forall t | 0 <= t < |envs| :: Fits(envs[t]))
      && (forall t | 0 <= t < |envs| :: Quickly(envs[t], (cfg.devTimeout - 2) * SECOND, poll))
    }

    /** One more turn. */
    method Turn(
      envs: seq<PassEnv>, t: nat, ghost runs: seq<PassRun>, ghost poll: nat, ghost base: map<Place, seq<Report>>
    ) returns (ghost run: PassRun)
      requires Acceptable(envs, poll) && t == |runs| < |envs| && Running(envs, runs) && ItemsConsistent()
      requires Columns(base, runs)
      modifies this, Items()
      ensures ItemsConsistent() && InTurn(envs, runs + [run]) && AlwaysFed(log, cfg.devTimeout * SECOND)
      ensures down.None? ==> Running(envs, runs + [run])
      ensures down.None? ==> UnlistedFine(envs[t])
      ensures down.Some? ==> Blamed() || BlamedUnlisted(envs[t], run)
      ensures Columns(base, runs + [run])
    {
      ghost var log0, before := log, Histories();
      run := Pass(envs[t]);
      TurnIsBrief(envs[t], run, old(clock), (cfg.devTimeout - 2) * SECOND, poll);
      SafePass(log0, cfg.tint, cfg.devTimeout, run, poll);
      LoopSnoc(cfg.tint, runs, run);
      InTurnSnoc(envs, runs, run, old(clock));
      forall m, i {:trigger lists[m][i]} | 0 <= m < |lists| && 0 <= i < |lists[m]|
        ensures Place(m, i) in base && lists[m][i].reports == base[Place(m, i)] + Column(m, i, runs + [run])
      {
        assert before[Place(m, i)] == base[Place(m, i)] + Column(m, i, runs);
        ColumnSnoc(m, i, runs, run, base[Place(m, i)]);
      }
    }

    /** The main loop, until a shutdown, SIGTERM or the --loop-exit count, or for as long as the environment lasts.
        Each item gets the reports of its own column of the environment, one in each turn, and the device never
        starves. What ends the run is the last report about an item, or a check that belongs to no list. */
    method MainLoop(envs: seq<PassEnv>, countMax: int, ghost poll: nat) returns (count: nat, ghost runs: seq<PassRun>)
      requires down.None? && log == [] && ItemsConsistent() && Acceptable(envs, poll)
      modifies this, Items()
      ensures ItemsConsistent()
      ensures AlwaysFed(log, cfg.devTimeout * SECOND)
      ensures count <= Turns(envs, countMax, 0) && |runs| <= |envs| && InTurn(envs, runs)
      ensures Columns(old(Histories()), runs)
      ensures down.None? ==> |runs| == count == Turns(envs, countMax, 0) && Running(envs, runs)
      ensures forall t {:trigger UnlistedFine(envs[t])} | 0 <= t < count :: UnlistedFine(envs[t])
      ensures down.Some? ==> |runs| == count + 1 && (Blamed() || BlamedUnlisted(envs[count], runs[count]))
    {
      count, runs := 0, [];
      var running := true;
      ghost var total, base := Turns(envs, countMax, 0), Histories();
      while running && count < |envs|
        invariant ItemsConsistent() && |runs| == count <= |envs| && Running(envs, runs)
        invariant total == if running then Turns(envs, countMax, count) else count
        invariant forall t {:trigger UnlistedFine(envs[t])} | 0 <= t < count :: UnlistedFine(envs[t])
        invariant Columns(base, runs)
      {
        ghost var run := Turn(envs, count, runs, poll, base);
        runs := runs + [run];
        if down.Some? { return; }
        running := !envs[count].term;
        count := count + 1;
        if countMax > 0 && count >= countMax { running := false; }
      }
    }

    // ----- an item whose check fails in every turn -----

    /** All turns made all their checks. */
    ghost predicate Complete(runs: seq<PassRun>)
    {
      forall t | 0 <= t < |runs| :: |runs[t].checks| == 5 + Offset(|lists|)
    }

    lemma RunningIsComplete(envs: seq<PassEnv>, runs: seq<PassRun>)
      requires |runs| <= |envs| && (forall t | 0 <= t < |envs| :: Fits(envs[t])) && Running(envs, runs)
      ensures Complete(runs)
    {
      forall t | 0 <= t < |runs| ensures |runs[t].checks| == 5 + Offset(|lists|) {
        if t < |runs| - 1 { assert InTurnAt(envs, runs, t + 1); }
      }
    }

    /** The check of item i of list m in turn t. */
    ghost function CheckOf(m: nat, i: nat, run: PassRun): CheckRun
      requires m < |lists| && i < |lists[m]|
    {
      var k := 5 + Offset(m) + i;
      if k < |run.checks| then run.checks[k] else QUICK
    }

    lemma EntryIs(m: nat, i: nat, env: PassEnv, run: PassRun)
      requires m < |lists| && i < |lists[m]| && Fits(env) && AboutTurn(env, run) && |run.checks| == 5 + Offset(|lists|)
      ensures Entered(m, i, run.reports) == [ReportOf(lists[m][i], env.lists[m][i], CheckOf(m, i, run))]
      ensures CheckOf(m, i, run).duration == env.lists[m][i].duration
    {
      OffsetsApart(|lists|, m, i);
      assert AboutItem(m, i, run.reports, env.lists, run.checks[5..]);
    }

    /** An item's column has one report for each turn, made from that turn's check of the item. */
    lemma {:induction false} ColumnIs(m: nat, i: nat, envs: seq<PassEnv>, runs: seq<PassRun>, n: nat)
      requires m < |lists| && i < |lists[m]| && n <= |runs| <= |envs| && (forall t | 0 <= t < |envs| :: Fits(envs[t]))
      requires InTurn(envs, runs) && Complete(runs)
      ensures |Column(m, i, runs[..n])| == n
      ensures forall t | 0 <= t < n ::
                Column(m, i, runs[..n])[t] == ReportOf(lists[m][i], envs[t].lists[m][i], CheckOf(m, i, runs[t]))
    {
      if n > 0 {
        ColumnIs(m, i, envs, runs, n - 1);
        assert runs[..n][..n - 1] == runs[..n - 1];
        assert InTurnAt(envs, runs, n - 1);
        EntryIs(m, i, envs[n - 1], runs[n - 1]);
      }
    }

    /** The longest time from a report about an item to the next, in seconds. */
    ghost function ReportGap(poll: nat): int
    {
      var check := (cfg.devTimeout - 2) * SECOND;
      var turn := (5 + Offset(|lists|)) * (check + cfg.repairTimeout * SECOND) + SHORT_WAIT + poll + LongWait(cfg.tint);
      (turn + check) / SECOND + 1
    }

    /** From one turn to the next, the reports about an item are at least the interval and at most ReportGap apart. */
    lemma ReportsApart(m: nat, i: nat, envs: seq<PassEnv>, runs: seq<PassRun>, poll: nat, t: nat)
      requires m < |lists| && i < |lists[m]| && t + 1 < |runs| <= |envs| && Acceptable(envs, poll) && cfg.tint <= 4294
      requires InTurn(envs, runs) && Complete(runs)
      ensures var x := ReportOf(lists[m][i], envs[t].lists[m][i], CheckOf(m, i, runs[t]));
              var y := ReportOf(lists[m][i], envs[t + 1].lists[m][i], CheckOf(m, i, runs[t + 1]));
              cfg.tint <= y.now - x.now <= ReportGap(poll)
    {
      var k := 5 + Offset(m) + i;
      var check := (cfg.devTimeout - 2) * SECOND;
      var cost := check + cfg.repairTimeout * SECOND;
      OffsetsApart(|lists|, m, i);
      assert InTurnAt(envs, runs, t) && InTurnAt(envs, runs, t + 1);
      EntryIs(m, i, envs[t], runs[t]);
      EntryIs(m, i, envs[t + 1], runs[t + 1]);
      TurnIsBrief(envs[t], runs[t], ChecksStart(runs[t]), check, poll);
      TurnIsBrief(envs[t + 1], runs[t + 1], ChecksStart(runs[t + 1]), check, poll);
      var a, b := runs[t].checks[k], runs[t + 1].checks[k];
      CheckSpan(runs[t].checks, ChecksStart(runs[t]), ChecksEnd(runs[t]), cost, k);
      CheckSpan(runs[t + 1].checks, ChecksStart(runs[t + 1]), ChecksEnd(runs[t + 1]), cost, k);
      TurnSpan(cfg.tint, |runs[t].checks|, k, cost, check, poll, runs[t].poll, a, b, ChecksEnd(runs[t]),
          ChecksStart(runs[t + 1]));
    }

    /** An item whose check has failed in every turn: the daemon cannot have run for longer than the fault bound. */
    lemma FailingItemBound(m: nat, i: nat, envs: seq<PassEnv>, runs: seq<PassRun>, poll: nat)
      requires m < |lists| && i < |lists[m]| && |runs| <= |envs| && Acceptable(envs, poll) && cfg.tint <= 4294
      requires ItemsConsistent() && Running(envs, runs) && lists[m][i].reports == Column(m, i, runs)
      requires forall t | 0 <= t < |runs| :: Repairable(envs[t].lists[m][i].code)
      requires 0 < cfg.retry.retryTimeout && 0 < cfg.retry.repairMax && !cfg.retry.noAct
      requires cfg.retry.retryTimeout + ReportGap(poll) <= INT_MAX
      ensures !Outlasts(|runs|, poll)
    {
      if |runs| <= 1 { return; }
      var reps := lists[m][i].reports;
      RunningIsComplete(envs, runs);
      assert runs[..|runs|] == runs;
      ColumnIs(m, i, envs, runs, |runs|);
      forall t | 0 <= t < |reps| - 1 ensures cfg.tint <= reps[t + 1].now - reps[t].now <= ReportGap(poll) {
        ReportsApart(m, i, envs, runs, poll, t);
      }
      forall t | 0 <= t < |reps| ensures Repairable(reps[t].code) {
        assert reps[t].code == envs[t].lists[m][i].code;
      }
      assert Sound(lists[m][i]);
      GapIsPositive(poll);
      SurvivedReports(cfg.retry, ReportGap(poll), reps);
      StepsAddUp(reps, cfg.tint, |reps| - 1);
    }

    lemma GapIsPositive(poll: nat)
      requires 0 < cfg.tint && CheckParameters(cfg.tint, cfg.devTimeout) && 0 < cfg.repairTimeout
      ensures 0 <= ReportGap(poll)
    {
      var check := (cfg.devTimeout - 2) * SECOND;
      assert (5 + Offset(|lists|)) * (check + cfg.repairTimeout * SECOND) >= 0;
    }

    /** An item whose check fails in every turn forces a shutdown, whatever the repairs return: the main loop does not
        get through more turns than fit in the fault bound. */
    method FaultEndsRun(envs: seq<PassEnv>, countMax: int, ghost poll: nat, ghost m: nat, ghost i: nat)
      returns (count: nat)
      requires down.None? && log == [] && ItemsConsistent() && Acceptable(envs, poll) && cfg.tint <= 4294
      requires m < |lists| && i < |lists[m]| && lists[m][i].reports == []
      requires forall t | 0 <= t < |envs| :: Repairable(envs[t].lists[m][i].code)
      requires 0 < cfg.retry.retryTimeout && 0 < cfg.retry.repairMax && !cfg.retry.noAct
      requires cfg.retry.retryTimeout + ReportGap(poll) <= INT_MAX
      requires Outlasts(Turns(envs, countMax, 0), poll)
      modifies this, Items()
      ensures down.Some?
    {
      ghost var runs;
      count, runs := MainLoop(envs, countMax, poll);
      assert lists[m][i].reports == [] + Column(m, i, runs) == Column(m, i, runs);
      if down.None? { FailingItemBound(m, i, envs, runs, poll); }
    }

    /** So many turns take longer than the fault bound. */
    ghost predicate Outlasts(turns: nat, poll: nat)
    {
      1 < turns && (turns - 1) * cfg.tint > Endurance(cfg.retry, ReportGap(poll))
    }

    /** No check that belongs to no list demands a shutdown in the turn. */
    ghost predicate UnlistedFine(env: PassEnv)
      requires Fits(env)
    {
      forall j | 0 <= j < 5 :: Unlisted(env.fixed[j].code, env.fixed[j].repair).None?
    }

    /** The run was ended by an item's last report. */
    ghost predicate Blamed()
      reads this, Items()
    {
      exists l, i {:trigger lists[l][i]} | 0 <= l < |lists| && 0 <= i < |lists[l]| :: EndedBy(lists[l][i])
    }
  }

  /** How many turns the loop makes if nothing shuts the machine down, when it has made n. */
  function Turns(envs: seq<PassEnv>, countMax: int, n: nat): (t: nat)
    requires n <= |envs|
    ensures n <= t <= |envs|
    decreases |envs| - n
  {
    if n == |envs| then n
    else if envs[n].term || 0 < countMax <= n + 1 then n + 1
    else Turns(envs, countMax, n + 1)
  }

  /** The loop ends after t turns: SIGTERM came in the last of them, or the count is reached. */
  predicate EndsAfter(envs: seq<PassEnv>, countMax: int, t: nat)
    requires 0 < t <= |envs|
  {
    envs[t - 1].term || 0 < countMax <= t
  }

  /** The loop makes at least one turn, and ends after the first that ends it, or with the environment. */
  lemma {:induction false} TurnsExactly(envs: seq<PassEnv>, countMax: int, n: nat)
    requires n < |envs|
    ensures var t := Turns(envs, countMax, n);
            && n < t <= |envs| && (forall k | n < k < t :: !EndsAfter(envs, countMax, k))
            && (t < |envs| ==> EndsAfter(envs, countMax, t))
    decreases |envs| - n
  {
    if n + 1 < |envs| && !EndsAfter(envs, countMax, n + 1) { TurnsExactly(envs, countMax, n + 1); }
  }

  /** The fault bound applies: since report n, before which the item passed or was new, it has reported repairable
      errors at most g seconds apart, with nothing but "don't know" between them. */
  predicate FaultySince(cfg: Settings, reps: seq<Report>, n: nat, g: int)
  {
    && 0 < cfg.retryTimeout && !cfg.noAct && 0 <= g && cfg.retryTimeout + g <= INT_MAX
    && n <= |reps| && (n == 0 || reps[n - 1].code == ENOERR)
    && var heard := Heard(reps[n..]); heard != [] && OnlyRepairable(heard) && Spaced(heard, g)
  }

  /** While the daemon runs, no item has been reporting nothing but repairable errors for longer than (k+1)r + 2kg
      seconds since its last pass, and no more than k repairs of it have been made since then. */
  lemma RunningDaemonBounds(d: Daemon, it: Item, n: nat, g: int)
    requires d.ItemsConsistent() && d.down.None? && it in d.Items()
    requires 0 < d.cfg.retry.repairMax
    ensures RepairsSincePass(d.cfg.retry, it.reports) <= d.cfg.retry.repairMax
    ensures FaultySince(d.cfg.retry, it.reports, n, g) ==>
              Elapsed(Heard(it.reports[n..])) <= Endurance(d.cfg.retry, g)
  {
    var l, i :| 0 <= l < |d.lists| && 0 <= i < |d.lists[l]| && d.lists[l][i] == it;
    assert d.Sound(d.lists[l][i]);
    RepairLimit(d.cfg.retry, it.reports);
    if FaultySince(d.cfg.retry, it.reports, n, g) { FaultSincePassBounded(d.cfg.retry, g, it.reports, n); }
  }

  /** Where a check lies among its turn's, if none of them takes longer than `cost`. */
  lemma CheckSpan(runs: seq<CheckRun>, start: nat, end: nat, cost: nat, k: nat)
    requires k < |runs| && Consecutive(runs, start, end)
    requires forall j | 0 <= j < |runs| :: runs[j].duration + runs[j].spent <= cost
    ensures start <= runs[k].at <= start + k * cost
    ensures EndOf(runs[k]) <= end <= runs[k].at + (|runs| - k) * cost
  {
    SpanBefore(runs, start, end, cost, k);
    SpanAfter(runs, start, end, cost, k);
  }

  lemma {:induction false} SpanBefore(runs: seq<CheckRun>, start: nat, end: nat, cost: nat, k: nat)
    requires k < |runs| && Consecutive(runs, start, end)
    requires forall j | 0 <= j < |runs| :: runs[j].duration + runs[j].spent <= cost
    ensures start <= runs[k].at <= start + k * cost
  {
    if k > 0 {
      SpanBefore(runs, start, end, cost, k - 1);
      assert (k - 1) * cost + cost == k * cost;
    }
  }

  lemma {:induction false} SpanAfter(runs: seq<CheckRun>, start: nat, end: nat, cost: nat, k: nat)
    requires k < |runs| && Consecutive(runs, start, end)
    requires forall j | 0 <= j < |runs| :: runs[j].duration + runs[j].spent <= cost
    ensures EndOf(runs[k]) <= end <= runs[k].at + (|runs| - k) * cost
    decreases |runs| - k
  {
    if k < |runs| - 1 {
      SpanAfter(runs, start, end, cost, k + 1);
      assert (|runs| - (k + 1)) * cost + cost == (|runs| - k) * cost;
    }
  }

  /** The same check in two turns that follow each other. */
  lemma TurnSpan(
    tint: int, n: nat, k: nat, cost: nat, check: nat, poll: nat, polled: nat, a: CheckRun, b: CheckRun, end: nat,
        next: nat
  )
    requires k < n && 0 < tint <= 4294 && polled <= poll && a.duration <= check && b.duration <= check
    requires EndOf(a) <= end <= a.at + (n - k) * cost && next == end + SHORT_WAIT + polled + LongWait(tint)
    requires next <= b.at <= next + k * cost
    ensures tint <= (b.at + b.duration) / SECOND - (a.at + a.duration) / SECOND
    ensures (b.at + b.duration) / SECOND - (a.at + a.duration) / SECOND
         <= (n * cost + SHORT_WAIT + poll + LongWait(tint) + check) / SECOND + 1
  {
    assert (n - k) * cost + k * cost == n * cost;
    SecondsApart(a.at + a.duration, b.at + b.duration, tint,
                 n * cost + SHORT_WAIT + poll + LongWait(tint) + check);
  }

  lemma SecondsApart(a: nat, b: nat, least: nat, most: nat)
    requires a + least * SECOND <= b <= a + most
    ensures least <= b / SECOND - a / SECOND <= most / SECOND + 1
  {
    var q, r := a / SECOND, a % SECOND;
    var q', r' := b / SECOND, b % SECOND;
    var u, v := most / SECOND, most % SECOND;
    assert a == q * SECOND + r && b == q' * SECOND + r' && most == u * SECOND + v;
  }

  lemma {:induction false} StepsAddUp(reps: seq<Report>, step: int, n: nat)
    requires n < |reps| && forall t | 0 <= t < |reps| - 1 :: step <= reps[t + 1].now - reps[t].now
    ensures n * step <= reps[n].now - reps[0].now
  {
    if n > 0 {
      StepsAddUp(reps, step, n - 1);
      assert reps[n - 1 + 1].now - reps[n - 1].now >= step;
      assert (n - 1) * step + step == n * step;
    }
  }

  lemma LoopSnoc(tint: int, runs: seq<PassRun>, run: PassRun)
    ensures LoopLog([], tint, runs + [run]) == PassLog(LoopLog([], tint, runs), tint, run)
  {
    assert (runs + [run])[..|runs|] == runs;
  }

  /** Each check of the turn takes at most `check` microseconds and its poll at most `poll`. */
  predicate Quickly(env: PassEnv, check: nat, poll: nat)
  {
    && env.poll <= poll && (forall j | 0 <= j < |env.fixed| :: env.fixed[j].duration <= check)
    && forall l, i | 0 <= l < |env.lists| && 0 <= i < |env.lists[l]| :: env.lists[l][i].duration <= check
  }

  /** No check takes longer than `check` microseconds. */
  predicate Brief(runs: seq<CheckRun>, check: nat) { forall j | 0 <= j < |runs| :: runs[j].duration <= check }

  /** One turn within the limits, completed or cut short, keeps the device fed. */
  lemma SafePass(log: seq<Event>, tint: int, devTimeout: int, run: PassRun, poll: nat)
    requires 0 < tint && CheckParameters(tint, devTimeout) && poll < 2 * SECOND && run.poll <= poll
    requires devTimeout >= 2 && Brief(run.checks, (devTimeout - 2) * SECOND)
    requires AlwaysFed(log, devTimeout * SECOND)
    ensures AlwaysFed(PassLog(log, tint, run), devTimeout * SECOND)
    ensures run.checks != [] ==> AlwaysFed(CutShort(log + [Refresh], run.checks), devTimeout * SECOND)
  {
    FedPass(log, tint, run, devTimeout * SECOND);
    if run.checks != [] { FedCutShort(log + [Refresh], run.checks, devTimeout * SECOND); }
  }
}
