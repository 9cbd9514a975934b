/** What a test binary's reports do to its retry clock and repair counter: check_bin feeding wd_action. */
module TestReports {
  import opened Common
  import opened TestBinary
  import opened TestRuns
  import opened TestVerdicts
  import Retry

  /** The wait status says: exited normally with status 0. */
  predicate ExitedZero(status: int) { status % 128 == 0 && ExitStatus(status) == 0 }

  lemma {:induction false} ReportedFrom(reaps: seq<Reap>, pid: int, v: int) returns (j: nat)
    requires Reported(reaps, pid) == Some(v)
    ensures j < |reaps| && reaps[j].pid == pid && Decode(reaps[j].status) == Some(v)
  {
    var k := |reaps| - 1;
    if Reported(reaps[..k], pid).Some? {
      j := ReportedFrom(reaps[..k], pid, v);
    } else {
      j := k;
    }
  }

  /** Outcome 0 comes only from waitpid reporting exit status 0 for that child. */
  lemma ZeroMeansExit(pid: int, start: int, later: seq<Call>) returns (i: nat, j: nat)
    requires Outcome(pid, start, later) == Some(ENOERR)
    ensures i < |later| && j < |later[i].reaps|
    ensures later[i].reaps[j].pid == pid && ExitedZero(later[i].reaps[j].status)
  {
    OutcomeDecided(pid, start, later, ENOERR);
    i :| 0 <= i < |later| && Decides(pid, start, later, i, ENOERR);
    j := ReportedFrom(later[i].reaps, pid, ENOERR);
  }

  /** The reaction clears the repair counter, or the retry clock other than by starting a repair. */
  predicate Clears(s: Retry.ItemState, x: Retry.Reaction)
  {
    || (s.repairCount != 0 && x.state.repairCount == 0)
    || (s.lastTime != 0 && x.state.lastTime == 0 && !x.repaired)
  }

  lemma ClearsOnlyOnPass(cfg: Retry.Settings, s: Retry.ItemState, rep: Retry.Report)
    requires s.repairCount >= 0 && Clears(s, Retry.Step(cfg, s, rep))
    ensures rep.code == ENOERR
  {
  }

  /** "Just started" and "still running" leave the item alone, whatever table the call finds; a failed fork shuts down
      without touching the item either. */
  lemma NoResultNoChange(cfg: Retry.Settings, s: Retry.ItemState, t: seq<Child>, c: Call, now: int, repair: int)
    requires c.name.Some? && HandedBy(t, c, c.name.value) == []
    ensures var x := Retry.Step(cfg, s, Retry.Report(ReturnCode(t, c), now, repair));
            && (Granted(t, c) ==> x == Retry.Reaction(s, false, ENOERR))
            && (!Granted(t, c) && c.fork.ForkFailed? ==> x == Retry.Reaction(s, false, EREBOOT))
  {
    NothingToReport(t, c, c.name.value);
  }

  lemma PassCompletes(t: seq<Child>, c: Call, name: string)
    requires c.name == Some(name) && ReturnCode(t, c) == ENOERR
    ensures Lookup(Refreshed(t, c), name) == Completed(ENOERR)
  {
  }

  /** A call that returns 0 hands back the fate of the latest child started for the name, whatever has failed before. */
  lemma PassIsAnOutcome(calls: seq<Call>, k: nat, name: string) returns (l: Launch)
    requires FreshRun(calls) && k < |calls| && calls[k].name == Some(name)
    requires ReturnCode(Table(calls[..k]), calls[k]) == ENOERR
    ensures Completes(calls, k, name, ENOERR)
    ensures LatestIs(Started(calls[..k], name), l) && l.at < k && Fate(calls[..k + 1], l) == Some(ENOERR)
  {
    PassCompletes(Table(calls[..k]), calls[k], name);
    var e;
    l, e := ResultIsFate(calls, k, name, ENOERR);
  }

  /** Up to call k, reap j of call i says that the child exited with status 0. */
  predicate CleanExit(calls: seq<Call>, k: nat, l: Launch, i: nat, j: nat)
    requires k < |calls|
  {
    && l.at < i <= k && j < |calls[i].reaps|
    && calls[i].reaps[j].pid == l.pid && ExitedZero(calls[i].reaps[j].status)
  }

  lemma ExitOf(calls: seq<Call>, k: nat, l: Launch) returns (i: nat, j: nat)
    requires k < |calls| && l.at < k && Fate(calls[..k + 1], l) == Some(ENOERR)
    ensures CleanExit(calls, k, l, i, j)
  {
    var later := calls[..k + 1][l.at + 1..];
    var i', j' := ZeroMeansExit(l.pid, l.start, later);
    i, j := l.at + 1 + i', j';
    assert calls[i] == later[i'];
  }

  /** The report that call k leads to clears the item's counter, or its clock other than by a repair. */
  predicate ResetBy(cfg: Retry.Settings, s: Retry.ItemState, calls: seq<Call>, k: nat, name: string, now: int,
      repair: int)
    requires k < |calls|
  {
    && calls[k].name == Some(name) && s.repairCount >= 0
    && Clears(s, Retry.Step(cfg, s, Retry.Report(ReturnCode(Table(calls[..k]), calls[k]), now, repair)))
  }

  /** A test binary's counter, and its clock other than by a repair, is cleared only by a call that hands back the
      result of the latest child started for that name, which was reaped with exit status 0 since its start. */
  lemma ResetNeedsCleanExit(
    cfg: Retry.Settings, s: Retry.ItemState, calls: seq<Call>, k: nat, name: string, now: int, repair: int
  )
    returns (l: Launch, i: nat, j: nat)
    requires FreshRun(calls) && k < |calls| && ResetBy(cfg, s, calls, k, name, now, repair)
    ensures Completes(calls, k, name, ENOERR) && LatestIs(Started(calls[..k], name), l)
    ensures CleanExit(calls, k, l, i, j)
  {
    ClearsOnlyOnPass(cfg, s, Retry.Report(ReturnCode(Table(calls[..k]), calls[k]), now, repair));
    l := PassIsAnOutcome(calls, k, name);
    i, j := ExitOf(calls, k, l);
  }

  lemma ResetCompletes(
    cfg: Retry.Settings, s: Retry.ItemState, calls: seq<Call>, k: nat, name: string, now: int, repair: int
  )
    requires k < |calls| && ResetBy(cfg, s, calls, k, name, now, repair)
    ensures Completes(calls, k, name, ENOERR)
  {
    ClearsOnlyOnPass(cfg, s, Retry.Report(ReturnCode(Table(calls[..k]), calls[k]), now, repair));
    PassCompletes(Table(calls[..k]), calls[k], name);
  }

  /** Two resets of an item, in whatever states, need two children: the second was not started before the first reset,
      and each was reaped with exit status 0 between its start and its reset. */
  lemma TwoResetsTwoExits(
    cfg: Retry.Settings, s: Retry.ItemState, s': Retry.ItemState, calls: seq<Call>, a: nat, b: nat, name: string,
    now: int, now': int, repair: int, repair': int
  )
    returns (la: Launch, ia: nat, ja: nat, lb: Launch, ib: nat, jb: nat)
    requires FreshRun(calls) && a < b < |calls|
    requires ResetBy(cfg, s, calls, a, name, now, repair) && ResetBy(cfg, s', calls, b, name, now', repair')
    ensures la in Started(calls[..a], name) && CleanExit(calls, a, la, ia, ja)
    ensures lb in Started(calls[..b], name) && CleanExit(calls, b, lb, ib, jb)
    ensures la.at < ia <= a <= lb.at < ib <= b
  {
    ResetCompletes(cfg, s, calls, a, name, now, repair);
    ResetCompletes(cfg, s', calls, b, name, now', repair');
    la, lb := ResultsInOrder(calls, a, b, name, ENOERR, ENOERR);
    ia, ja := ExitOf(calls, a, la);
    ib, jb := ExitOf(calls, b, lb);
  }
}
