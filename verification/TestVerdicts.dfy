/** Verdicts on test children: each entry of a reachable table follows one child, its verdict is final, and the time
    limit is enforced. */
module TestVerdicts {
  import opened Common
  import opened TestBinary
  import opened TestRuns

  // ----- outcomes of a child -----

  lemma {:induction false} OutcomeFinal(pid: int, start: int, later: seq<Call>, n: nat)
    requires n <= |later| && Outcome(pid, start, later[..n]).Some?
    ensures Outcome(pid, start, later) == Outcome(pid, start, later[..n])
  {
    if n < |later| {
      assert later[..|later| - 1][..n] == later[..n];
      OutcomeFinal(pid, start, later[..|later| - 1], n);
    } else {
      assert later[..n] == later;
    }
  }

  /** Call i decides the child's outcome. */
  predicate Decides(pid: int, start: int, later: seq<Call>, i: nat, v: int)
    requires i < |later|
  {
    Outcome(pid, start, later[..i]).None? && Progress(None, pid, start, later[i]) == Some(v)
  }

  lemma {:induction false} OutcomeDecided(pid: int, start: int, later: seq<Call>, v: int)
    ensures Outcome(pid, start, later) == Some(v) <==> exists i | 0 <= i < |later| :: Decides(pid, start, later, i, v)
  {
    if later != [] {
      var k := |later| - 1;
      OutcomeDecided(pid, start, later[..k], v);
      forall i | 0 <= i < k ensures Decides(pid, start, later, i, v) <==> Decides(pid, start, later[..k], i, v) {
        assert later[..k][..i] == later[..i];
      }
      forall i | 0 <= i < |later| && Decides(pid, start, later, i, v) ensures Outcome(pid, start, later) == Some(v) {
        assert later[..i + 1][..i] == later[..i];
        OutcomeFinal(pid, start, later, i + 1);
      }
      if Outcome(pid, start, later) == Some(v) {
        if Outcome(pid, start, later[..k]).None? {
          assert Decides(pid, start, later, k, v);
        } else {
          var i :| 0 <= i < k && Decides(pid, start, later[..k], i, v);
          assert Decides(pid, start, later, i, v);
        }
      }
    }
  }

  // ----- one entry over a run of tables, whatever these are -----

  /** The table after each number of calls. */
  type Tables = nat -> seq<Child>

  /** After n calls the table has the entry, with the fate of the launch so far as its verdict. */
  predicate Stands(tables: Tables, calls: seq<Call>, l: Launch, e: Child, n: nat)
    requires l.at < n <= |calls|
  {
    e.(verdict := Fate(calls[..n], l)) in tables(n)
  }

  /** The entry has stood in every table since the launch. */
  predicate Stood(tables: Tables, calls: seq<Call>, n: nat, l: Launch, e: Child)
    requires n <= |calls|
  {
    && l.at < n && e.verdict == Fate(calls[..n], l)
    && forall i | l.at < i <= n :: Stands(tables, calls, l, e, i)
  }

  /** The table after i calls has the entry, unfinished. */
  predicate Unfinished(tables: Tables, e: Child, i: nat) { e.(verdict := None) in tables(i) }

  /** Call i found the entry unfinished and decided it. */
  predicate DecidedAt(tables: Tables, calls: seq<Call>, e: Child, i: nat, v: int)
    requires i < |calls|
  {
    Unfinished(tables, e, i) && Progress(None, e.pid, e.start, calls[i]) == Some(v)
  }

  lemma FateAfter(calls: seq<Call>, l: Launch, n: nat)
    requires l.at < n < |calls|
    ensures Fate(calls[..n + 1], l) == Progress(Fate(calls[..n], l), l.pid, l.start, calls[n])
  {
    FateStep(calls[..n + 1], l);
    assert calls[..n + 1][..n] == calls[..n];
  }

  lemma StoodOn(tables: Tables, calls: seq<Call>, n: nat, l: Launch, e0: Child)
    requires n < |calls| && Stood(tables, calls, n, l, e0) && l.pid == e0.pid && l.start == e0.start
    requires Advance(e0, calls[n]) in tables(n + 1)
    ensures Stood(tables, calls, n + 1, l, Advance(e0, calls[n]))
  {
    var e := Advance(e0, calls[n]);
    FateAfter(calls, l, n);
    forall i | l.at < i <= n ensures Stands(tables, calls, l, e, i) { assert Stands(tables, calls, l, e0, i); }
    assert e.(verdict := e.verdict) == e;
  }

  lemma StoodNew(tables: Tables, calls: seq<Call>, n: nat, e: Child)
    requires n < |calls| && e in tables(n + 1) && e.verdict.None?
    ensures Stood(tables, calls, n + 1, Launch(n, e.pid, e.start), e)
  {
    assert calls[..n + 1][n + 1..] == [];
    assert e.(verdict := None) == e;
  }

  lemma SamePid(t: seq<Child>, a: Child, b: Child)
    requires Distinct(t) && a in t && b in t && a.pid == b.pid
    ensures a == b
  {
  }

  lemma DecidedMeansDecides(tables: Tables, calls: seq<Call>, n: nat, l: Launch, e: Child, i: nat, v: int)
    requires n <= |calls| && Stood(tables, calls, n, l, e) && l.pid == e.pid && l.start == e.start
    requires l.at < i < n && Distinct(tables(i))
    ensures DecidedAt(tables, calls, e, i, v) <==> Decides(l.pid, l.start, calls[..n][l.at + 1..], i - l.at - 1, v)
  {
    assert calls[..n][l.at + 1..][..i - l.at - 1] == calls[..i][l.at + 1..];
    assert Stands(tables, calls, l, e, i);
    if Unfinished(tables, e, i) {
      SamePid(tables(i), e.(verdict := None), e.(verdict := Fate(calls[..i], l)));
    }
  }

  lemma DecidedIn(tables: Tables, calls: seq<Call>, n: nat, l: Launch, e: Child, v: int)
    requires n <= |calls| && Stood(tables, calls, n, l, e) && l.pid == e.pid && l.start == e.start
    requires forall i | l.at < i < n :: Distinct(tables(i))
    ensures e.verdict == Some(v) <==> exists i | l.at < i < n :: DecidedAt(tables, calls, e, i, v)
  {
    var later := calls[..n][l.at + 1..];
    OutcomeDecided(l.pid, l.start, later, v);
    if e.verdict == Some(v) {
      var j :| 0 <= j < |later| && Decides(l.pid, l.start, later, j, v);
      DecidedMeansDecides(tables, calls, n, l, e, l.at + 1 + j, v);
      assert DecidedAt(tables, calls, e, l.at + 1 + j, v);
    }
    if i :| l.at < i < n && DecidedAt(tables, calls, e, i, v) {
      DecidedMeansDecides(tables, calls, n, l, e, i, v);
      assert Decides(l.pid, l.start, later, i - l.at - 1, v);
    }
  }

  // ----- the verdicts in reachable tables -----

  /** The tables of a run. */
  function TablesOf(calls: seq<Call>): Tables { (n: nat) => Table(if n <= |calls| then calls[..n] else calls) }

  /** After n calls, e is the table's record of launch l, which is the latest for its name, and has been so since the
      launch. */
  predicate Follows(calls: seq<Call>, n: nat, l: Launch, e: Child)
    requires n <= |calls|
  {
    && LatestIs(Started(calls[..n], e.name), l) && l.pid == e.pid && l.start == e.start
    && Stood(TablesOf(calls), calls, n, l, e)
  }

  predicate LatestIs(ls: seq<Launch>, l: Launch) { ls != [] && ls[|ls| - 1] == l }

  /** Where an entry comes from: it has been there before, or the call has just started the child. */
  lemma EntryFrom(t: seq<Child>, c: Call, e: Child) returns (before: Option<Child>)
    requires Distinct(t) && Fresh(t, c) && e in TableAfter(t, c)
    ensures var starts := c.name == Some(e.name) && Launches(t, c) && c.fork.Forked?;
            match before
            case Some(e0) => !starts && e0 in t && Advance(e0, c) == e
            case None => starts && e == Child(c.name.value, c.fork.pid, c.fork.start, None)
  {
    if c.name == Some(e.name) && Launches(t, c) {
      EntryStarted(t, c, e);
      before := None;
    } else {
      EntryRemained(t, c, e);
      RefreshedPointwise(t, c);
      var i :| 0 <= i < |t| && Refreshed(t, c)[i] == e;
      before := Some(t[i]);
    }
  }

  lemma EntryStarted(t: seq<Child>, c: Call, e: Child)
    requires Distinct(t) && Fresh(t, c) && e in TableAfter(t, c) && c.name == Some(e.name) && Launches(t, c)
    ensures c.fork.Forked? && e == Child(e.name, c.fork.pid, c.fork.start, None)
  {
    RefreshedPointwise(t, c);
    EntryCollected(Refreshed(t, c), e.name, e.name);
    assert forall x <- BeforeFork(t, c) :: x.name != e.name;
  }

  lemma EntryRemained(t: seq<Child>, c: Call, e: Child)
    requires Distinct(t) && Fresh(t, c) && e in TableAfter(t, c) && !(c.name == Some(e.name) && Launches(t, c))
    ensures e in Refreshed(t, c)
  {
    RefreshedPointwise(t, c);
    if c.name.Some? { EntryCollected(Refreshed(t, c), c.name.value, c.name.value); }
  }

  lemma StartedStep(calls: seq<Call>, n: nat, name: string)
    requires n < |calls|
    ensures Started(calls[..n + 1], name)
         == Started(calls[..n], name) + StartedBy(Table(calls[..n]), calls[n], n, name)
  {
    assert calls[..n + 1][..n] == calls[..n];
  }

  /** In every run, whatever fails in it: each entry of the table is the record of a child that was started for its
      name, and its verdict is that child's fate. */
  lemma {:induction false} VerdictIsFate(calls: seq<Call>, n: nat, e: Child) returns (l: Launch)
    requires FreshRun(calls) && n <= |calls| && e in Table(calls[..n])
    ensures Follows(calls, n, l, e)
  {
    var k := n - 1;
    DistinctAt(calls, k);
    TableStep(calls, k);
    assert FreshAt(calls, k);
    var before := EntryFrom(Table(calls[..k]), calls[k], e);
    StartedStep(calls, k, e.name);
    match before {
      case Some(e0) =>
        l := VerdictIsFate(calls, k, e0);
        StoodOn(TablesOf(calls), calls, k, l, e0);
      case None =>
        l := Launch(k, e.pid, e.start);
        StoodNew(TablesOf(calls), calls, k, e);
    }
  }

  lemma CollectStep(t: seq<Child>, name: string, e: Child)
    requires Distinct(t) && e in t && e.verdict.Some?
    ensures e in Collect(t, name) <==> e.name != name
    ensures e.name == name ==> Lookup(t, name) == Completed(e.verdict.value)
  {
    var i :| 0 <= i < |t| && t[i] == e;
    EntryUnique(t, e.name, i);
    EntryCollected(t, name, e.name);
    if e.name != name {
      var j := IndexOfName(Collect(t, name), e.name);
      assert Collect(t, name)[j] == e;
    }
  }

  // ----- no child that has died is unfinished -----

  /** In every run: a child that waitpid has reported dead since its start is not unfinished. */
  lemma DeadIsFinished(calls: seq<Call>, n: nat, e: Child, i: nat, j: nat) returns (l: Launch)
    requires FreshRun(calls) && n <= |calls| && e in Table(calls[..n])
    requires i < n && j < |calls[i].reaps| && calls[i].reaps[j].pid == e.pid && Dead(calls[i].reaps[j].status)
    ensures Follows(calls, n, l, e) && (l.at < i ==> e.verdict.Some?)
  {
    l := VerdictIsFate(calls, n, e);
    if l.at < i {
      ReportedExactly(calls[i].reaps, e.pid);
      DeathDecides(calls, n, l, i);
    }
  }

  lemma DeathDecides(calls: seq<Call>, n: nat, l: Launch, i: nat)
    requires l.at < i < n <= |calls| && Reported(calls[i].reaps, l.pid).Some?
    ensures Fate(calls[..n], l).Some?
  {
    var later := calls[..n][l.at + 1..];
    var k := i - l.at - 1;
    assert later[..k + 1][..k] == later[..k] && later[k] == calls[i];
    OutcomeFinal(l.pid, l.start, later, k + 1);
  }

  /** The verdict of a child that dies while its entry is unfinished: the code of its death. */
  lemma VerdictOfDeath(calls: seq<Call>, n: nat, e: Child, i: nat, j: nat) returns (l: Launch)
    requires FreshRun(calls) && n <= |calls| && e in Table(calls[..n]) && i < n
    requires Unfinished(TablesOf(calls), e, i) && DiesAt(calls[i].reaps, e.pid, j)
    ensures Follows(calls, n, l, e)
    ensures l.at < i ==> e.verdict == Some(DeathCode(calls[i].reaps[j].status))
  {
    var v := DeathCode(calls[i].reaps[j].status);
    ReportedExactly(calls[i].reaps, e.pid);
    l := VerdictDecided(calls, n, e, v);
    assert DecidedAt(TablesOf(calls), calls, e, i, v);
  }

  /** Call k finds a completed child of the name, with this code. */
  predicate Completes(calls: seq<Call>, k: nat, name: string, code: int)
    requires k < |calls|
  {
    calls[k].name == Some(name) && Lookup(Refreshed(Table(calls[..k]), calls[k]), name) == Completed(code)
  }

  lemma CompletedEntry(t: seq<Child>, c: Call, name: string) returns (e: Child)
    requires Distinct(t) && Lookup(Refreshed(t, c), name).Completed?
    ensures e in t && e.name == name && Advance(e, c).verdict == Some(Lookup(Refreshed(t, c), name).code)
  {
    RefreshedPointwise(t, c);
    e := t[IndexOfName(Refreshed(t, c), name)];
  }

  /** The code that a call finds is the fate of the latest child started for the name. */
  lemma ResultIsFate(calls: seq<Call>, k: nat, name: string, code: int) returns (l: Launch, e: Child)
    requires FreshRun(calls) && k < |calls| && Completes(calls, k, name, code)
    ensures e.name == name && Follows(calls, k, l, e) && Fate(calls[..k + 1], l) == Some(code)
  {
    DistinctAt(calls, k);
    e := CompletedEntry(Table(calls[..k]), calls[k], name);
    l := VerdictIsFate(calls, k, e);
    FateAfter(calls, l, k);
  }

  /** The launches after each number of calls. */
  type Log = nat -> seq<Launch>

  function LogOf(calls: seq<Call>, name: string): Log
  {
    (n: nat) => Started(if n <= |calls| then calls[..n] else calls, name)
  }

  /** Call k makes the latest launch, or none. */
  predicate GrowsAt(log: Log, k: nat) { log(k + 1) == log(k) || LatestFrom(log(k + 1), k) }

  predicate LatestFrom(ls: seq<Launch>, k: int) { ls != [] && k <= ls[|ls| - 1].at }

  lemma {:induction false} LatestStays(log: Log, a: nat, n: nat)
    requires a <= n && LatestFrom(log(a), a - 1) && forall k | a <= k < n :: GrowsAt(log, k)
    ensures LatestFrom(log(n), a - 1)
    decreases n
  {
    if a < n {
      LatestStays(log, a, n - 1);
      assert GrowsAt(log, n - 1);
    }
  }

  lemma LogGrows(calls: seq<Call>, name: string, k: nat)
    requires k < |calls|
    ensures GrowsAt(LogOf(calls, name), k)
    ensures StartedBy(Table(calls[..k]), calls[k], k, name) != [] ==> LatestFrom(LogOf(calls, name)(k + 1), k)
  {
    StartedStep(calls, k, name);
  }

  /** A call that starts a child for the name leaves the latest launch at that call or later. */
  lemma LatestNotBefore(calls: seq<Call>, a: nat, n: nat, name: string)
    requires a < n <= |calls| && StartedBy(Table(calls[..a]), calls[a], a, name) != []
    ensures LatestFrom(LogOf(calls, name)(n), a)
  {
    LogGrows(calls, name, a);
    forall k | a < k < n ensures GrowsAt(LogOf(calls, name), k) { LogGrows(calls, name, k); }
    LatestStays(LogOf(calls, name), a + 1, n);
  }

  /** After a call that found a completed child there is no entry for the name but a child that it started. */
  lemma CollectedForGood(t: seq<Child>, c: Call, e: Child)
    requires Distinct(t) && Fresh(t, c) && c.name == Some(e.name) && Lookup(Refreshed(t, c), e.name).Completed?
    ensures e in TableAfter(t, c) ==> c.fork.Forked?
  {
    RefreshedPointwise(t, c);
    EntryCollected(Refreshed(t, c), e.name, e.name);
  }

  /** In every run, whatever fails in it: two results found for a name are the fates of two different children,
      started in the order in which their results are found; the second is not started before the first result is
      found. */
  lemma ResultsInOrder(calls: seq<Call>, a: nat, b: nat, name: string, codeA: int, codeB: int)
    returns (la: Launch, lb: Launch)
    requires FreshRun(calls) && a < b < |calls|
    requires Completes(calls, a, name, codeA) && Completes(calls, b, name, codeB)
    ensures la in Started(calls[..a], name) && lb in Started(calls[..b], name)
    ensures la.at < a <= lb.at < b
    ensures Fate(calls[..a + 1], la) == Some(codeA) && Fate(calls[..b + 1], lb) == Some(codeB)
  {
    var ea, eb;
    la, ea := ResultIsFate(calls, a, name, codeA);
    lb, eb := ResultIsFate(calls, b, name, codeB);
    NotCollectedTwice(calls, a, b, lb, eb);
  }

  lemma EntryAfterCollecting(calls: seq<Call>, a: nat, e: Child)
    requires FreshRun(calls) && a < |calls| && e in Table(calls[..a + 1])
    requires calls[a].name == Some(e.name) && Lookup(Refreshed(Table(calls[..a]), calls[a]), e.name).Completed?
    ensures StartedBy(Table(calls[..a]), calls[a], a, e.name) != []
  {
    DistinctAt(calls, a);
    TableStep(calls, a);
    assert FreshAt(calls, a);
    CollectedForGood(Table(calls[..a]), calls[a], e);
  }

  lemma StoodAt(calls: seq<Call>, n: nat, l: Launch, e: Child, i: nat) returns (e': Child)
    requires n <= |calls| && Follows(calls, n, l, e) && l.at < i <= n
    ensures e' in Table(calls[..i]) && e'.name == e.name
  {
    assert Stands(TablesOf(calls), calls, l, e, i);
    e' := e.(verdict := Fate(calls[..i], l));
  }

  lemma LatestOnlyLater(calls: seq<Call>, n: nat, l: Launch, name: string, a: nat)
    requires a < n <= |calls| && LatestIs(LogOf(calls, name)(n), l)
    requires StartedBy(Table(calls[..a]), calls[a], a, name) != []
    ensures a <= l.at
  {
    LatestNotBefore(calls, a, n, name);
  }

  lemma NotCollectedTwice(calls: seq<Call>, a: nat, b: nat, l: Launch, e: Child)
    requires FreshRun(calls) && a < b < |calls| && Follows(calls, b, l, e)
    requires calls[a].name == Some(e.name) && Lookup(Refreshed(Table(calls[..a]), calls[a]), e.name).Completed?
    ensures a <= l.at
  {
    if l.at < a {
      var e' := StoodAt(calls, b, l, e, a + 1);
      EntryAfterCollecting(calls, a, e');
      LatestOnlyLater(calls, b, l, e.name, a);
    }
  }

  /** One call and an entry that has its verdict: it stays as it is, unless the call collects exactly that verdict or
      the chain is freed. */
  lemma VerdictStep(t: seq<Child>, c: Call, e: Child)
    requires Distinct(t) && e in t && e.verdict.Some?
    ensures e in TableAfter(t, c) <==> c.name != Some(e.name) && !Emptied(t, c)
    ensures c.name == Some(e.name) ==> Lookup(Refreshed(t, c), e.name) == Completed(e.verdict.value)
  {
    var i :| 0 <= i < |t| && t[i] == e;
    RefreshedPointwise(t, c);
    assert Refreshed(t, c)[i] == e;
    if c.name.Some? { CollectStep(Refreshed(t, c), c.name.value, e); }
  }

  /** Call k neither asks for the entry's name nor frees the chain. */
  predicate Spared(calls: seq<Call>, k: nat, e: Child)
    requires k < |calls|
  {
    calls[k].name != Some(e.name) && !Emptied(Table(calls[..k]), calls[k])
  }

  lemma KeptOnce(calls: seq<Call>, k: nat, e: Child)
    requires FreshRun(calls) && k < |calls| && e in Table(calls[..k]) && e.verdict.Some? && Spared(calls, k, e)
    ensures e in Table(calls[..k + 1])
  {
    DistinctAt(calls, k);
    TableStep(calls, k);
    VerdictStep(Table(calls[..k]), calls[k], e);
  }

  /** A recorded verdict stays in the table through any further calls, until one asks for the name or frees the
      chain. */
  lemma VerdictKept(calls: seq<Call>, i: nat, j: nat, e: Child)
    requires FreshRun(calls) && i <= j <= |calls| && e in Table(calls[..i]) && e.verdict.Some?
    requires forall k | i <= k < j :: Spared(calls, k, e)
    ensures e in Table(calls[..j])
  {
    forall k | i <= k < j ensures StaysAt(TablesOf(calls), e, k) {
      assert Spared(calls, k, e);
      SparedStays(calls, k, e);
    }
    StaysThrough(TablesOf(calls), i, j, e);
  }

  lemma SparedStays(calls: seq<Call>, k: nat, e: Child)
    requires FreshRun(calls) && k < |calls| && e.verdict.Some? && Spared(calls, k, e)
    ensures StaysAt(TablesOf(calls), e, k)
  {
    if e in Table(calls[..k]) { KeptOnce(calls, k, e); }
  }

  predicate StaysAt(tables: Tables, e: Child, k: nat) { e in tables(k) ==> e in tables(k + 1) }

  lemma {:induction false} StaysThrough(tables: Tables, i: nat, j: nat, e: Child)
    requires i <= j && e in tables(i) && forall k | i <= k < j :: StaysAt(tables, e, k)
    ensures e in tables(j)
    decreases j
  {
    if i < j {
      StaysThrough(tables, i, j - 1, e);
      assert StaysAt(tables, e, j - 1);
    }
  }

  lemma AllDistinct(calls: seq<Call>)
    requires FreshRun(calls)
    ensures forall i | 0 <= i <= |calls| :: Distinct(TablesOf(calls)(i))
  {
    forall i | 0 <= i <= |calls| ensures Distinct(TablesOf(calls)(i)) { DistinctAt(calls, i); }
  }

  /** An entry has verdict v exactly when a call after its child's start found it unfinished and decided so. */
  lemma VerdictDecided(calls: seq<Call>, n: nat, e: Child, v: int) returns (l: Launch)
    requires FreshRun(calls) && n <= |calls| && e in Table(calls[..n])
    ensures Follows(calls, n, l, e)
    ensures e.verdict == Some(v) <==> exists i | l.at < i < n :: DecidedAt(TablesOf(calls), calls, e, i, v)
  {
    l := VerdictIsFate(calls, n, e);
    AllDistinct(calls);
    DecidedIn(TablesOf(calls), calls, n, l, e, v);
  }

  /** Call i found the entry unfinished and either over the limit and not yet reaped, or exited with status 247. */
  predicate TimesOut(tables: Tables, calls: seq<Call>, e: Child, i: nat)
    requires i < |calls|
  {
    && Unfinished(tables, e, i)
    && (Reported(calls[i].reaps, e.pid) == Some(ETOOLONG)
        || (Reported(calls[i].reaps, e.pid).None? && TooLong(e.start, calls[i])))
  }

  lemma TimingOutDecides(tables: Tables, calls: seq<Call>, e: Child, i: nat)
    requires i < |calls|
    ensures DecidedAt(tables, calls, e, i, ETOOLONG) <==> TimesOut(tables, calls, e, i)
  {
  }

  /** "Took too long" stands in a reachable table exactly when some call since the child's start found it over the
      limit and not yet reaped, or when the child itself exited with that code. */
  lemma TooLongExactly(calls: seq<Call>, n: nat, e: Child) returns (l: Launch)
    requires FreshRun(calls) && n <= |calls| && e in Table(calls[..n])
    ensures Follows(calls, n, l, e)
    ensures e.verdict == Some(ETOOLONG) <==> exists i | l.at < i < n :: TimesOut(TablesOf(calls), calls, e, i)
  {
    l := VerdictDecided(calls, n, e, ETOOLONG);
    forall i | l.at < i < n
      ensures DecidedAt(TablesOf(calls), calls, e, i, ETOOLONG) <==> TimesOut(TablesOf(calls), calls, e, i)
    {
      TimingOutDecides(TablesOf(calls), calls, e, i);
    }
  }

  /** A call for "t" with nothing to find starts child 7. */
  const FIRST := Call(Some("t"), 0, [], 1, Forked(7, 1, true))

  lemma AfterFirst()
    ensures Table([FIRST]) == [Child("t", 7, 1, None)] && Fresh([], FIRST)
    ensures HandedBack([FIRST], "t") == []
  {
    var e := Child("t", 7, 1, None);
    assert [FIRST][..0] == [];
    assert BeforeFork([], FIRST) == [] && [e] + [] == [e];
  }

  lemma OneReap(status: int)
    ensures Gather([Child("t", 7, 1, None)], [Reap(7, status)]) == [Child("t", 7, 1, Decode(status))]
  {
    var e := Child("t", 7, 1, None);
    assert [Reap(7, status)][..0] == [] && IndexOfPid([e], 7) == 0;
    assert Gather([e], [Reap(7, status)]) == Update([e], 7, status);
  }

  /** A child that exits with status 247 counts as timed out even when no limit is set. */
  lemma ExitCodeLooksLikeTimeout()
    ensures var calls := [FIRST, Call(None, 0, [Reap(7, 247 * 256)], 2, ForkFailed)];
            FreshRun(calls) && Table(calls) == [Child("t", 7, 1, Some(ETOOLONG))]
  {
    var c := Call(None, 0, [Reap(7, 247 * 256)], 2, ForkFailed);
    var calls := [FIRST, c];
    AfterFirst();
    OneReap(247 * 256);
    assert calls[..0] == [] && calls[..1] == [FIRST];
    assert FreshAt(calls, 0) && FreshAt(calls, 1);
    assert Table(calls) == TableAfter(Table([FIRST]), c);
  }

  /** A child that exits with status 245: its result is handed back, but callers take it for "don't know". */
  lemma ExitCodeLooksLikeDontKnow()
    ensures var calls := [FIRST, Call(Some("t"), 0, [Reap(7, 245 * 256)], 2, Forked(8, 2, true))];
            HandedBack(calls, "t") == [EDONTKNOW] && ReturnCode(Table(calls[..1]), calls[1]) == EDONTKNOW
  {
    var c := Call(Some("t"), 0, [Reap(7, 245 * 256)], 2, Forked(8, 2, true));
    var calls := [FIRST, c];
    var t := [Child("t", 7, 1, None)];
    AfterFirst();
    OneReap(245 * 256);
    assert calls[..1] == [FIRST];
    assert Refreshed(t, c) == [Child("t", 7, 1, Some(EDONTKNOW))];
    assert Lookup(Refreshed(t, c), "t") == Completed(EDONTKNOW);
    assert HandedBack(calls, "t") == HandedBack([FIRST], "t") + HandedBy(t, c, "t");
  }

  // ----- the time limit -----

  /** An age over the limit that its low 32 bits, read as an int, do not show. */
  predicate Hidden(age: int, limit: int) { age > limit && !(limit < age % TWO_32 <= INT_MAX) }

  /** An unfinished child is over the limit. */
  predicate Late(e: Child, c: Call) { e.verdict.None? && c.now - e.start > c.limit }

  /** An unfinished child that the call does not reap has a hidden age. */
  predicate Overlooked(e: Child, c: Call)
  {
    e.verdict.None? && Reported(c.reaps, e.pid).None? && Hidden(c.now - e.start, c.limit)
  }

  /** The call enforces its limit exactly when it finds no hidden age or the chain is freed. */
  lemma LimitEnforcedExactly(t: seq<Child>, c: Call)
    requires Distinct(t) && 0 < c.limit && (c.fork.Forked? ==> c.now <= c.fork.start)
    ensures (exists e :: e in TableAfter(t, c) && Late(e, c))
       <==> !Emptied(t, c) && exists e :: e in t && Overlooked(e, c)
  {
    forall e | e in TableAfter(t, c) && Late(e, c) ensures e in t && Overlooked(e, c) { LateWasHidden(t, c, e); }
    if !Emptied(t, c) {
      forall e | e in t && Overlooked(e, c) ensures e in TableAfter(t, c) && Late(e, c) { HiddenStays(t, c, e); }
    }
  }

  lemma LateWasHidden(t: seq<Child>, c: Call, e: Child)
    requires Distinct(t) && 0 < c.limit && (c.fork.Forked? ==> c.now <= c.fork.start)
    requires e in TableAfter(t, c) && Late(e, c)
    ensures e in t && Overlooked(e, c)
  {
    UnfinishedWas(t, c, e);
    LateIsOverlooked(c, e);
  }

  lemma LateIsOverlooked(c: Call, e: Child)
    requires 0 < c.limit && Late(e, c)
    ensures Reported(c.reaps, e.pid).None? && !TooLong(e.start, c) ==> Overlooked(e, c)
    ensures Overlooked(e, c) ==> Advance(e, c) == e
  {
    HiddenAge(c.now - e.start, c.limit);
  }

  lemma HiddenStays(t: seq<Child>, c: Call, e: Child)
    requires Distinct(t) && 0 < c.limit && !Emptied(t, c)
    requires e in t && Overlooked(e, c)
    ensures e in TableAfter(t, c) && Late(e, c)
  {
    LateIsOverlooked(c, e);
    var i :| 0 <= i < |t| && t[i] == e;
    UnfinishedStays(t, c, i);
  }

  lemma UnfinishedNotCollected(t: seq<Child>, name: string, i: nat)
    requires Distinct(t) && i < |t| && t[i].verdict.None?
    ensures t[i] in Collect(t, name)
  {
    if Lookup(t, name).Completed? {
      var k := IndexOfName(t, name);
      assert IndexOfPid(t, t[k].pid) == k;
      assert Without(t, k)[if i < k then i else i - 1] == t[i];
    }
  }

  lemma UnfinishedStays(t: seq<Child>, c: Call, i: nat)
    requires Distinct(t) && i < |t| && Advance(t[i], c).verdict.None? && !Emptied(t, c)
    ensures Advance(t[i], c) in TableAfter(t, c)
  {
    RefreshedPointwise(t, c);
    if c.name.Some? { UnfinishedNotCollected(Refreshed(t, c), c.name.value, i); }
  }

  /** An unfinished entry after the call is an unfinished entry from before that the call neither reaped nor found too
      old, or the child it started. */
  lemma UnfinishedWas(t: seq<Child>, c: Call, e: Child)
    requires Distinct(t) && e in TableAfter(t, c) && e.verdict.None?
    ensures || (e in t && Reported(c.reaps, e.pid).None? && !TooLong(e.start, c))
            || (c.fork.Forked? && e.start == c.fork.start)
  {
    RefreshedPointwise(t, c);
    if c.name.Some? { EntryCollected(Refreshed(t, c), c.name.value, c.name.value); }
    if e in Refreshed(t, c) {
      var i :| 0 <= i < |t| && Refreshed(t, c)[i] == e;
      assert Advance(t[i], c).verdict.None?;
    }
  }

  lemma HiddenAge(age: int, limit: int)
    requires 0 < limit < age
    ensures Hidden(age, limit) <==> ToInt32(age) <= limit
  {
  }

  /** Ages are hidden from INT_MAX + 1 on: no smaller age is, and there a child stays unfinished whatever the limit. */
  lemma AncientChildOverlooked(limit: int)
    requires 0 < limit <= INT_MAX
    ensures forall age :: Hidden(age, limit) ==> age > INT_MAX
    ensures Hidden(INT_MAX + 1, limit)
    ensures var t := [Child("t", 7, 0, None)];
            TableAfter(t, Call(None, limit, [], INT_MAX + 1, ForkFailed)) == t
  {
    var t := [Child("t", 7, 0, None)];
    assert ExpireOne(t[0], INT_MAX + 1, limit) == t[0];
    assert Expire(t, INT_MAX + 1, limit) == t;
  }
}
