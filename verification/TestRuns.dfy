/** Whole runs of check_bin calls: no result of a test child is lost, repeated or reordered. */
module TestRuns {
  import opened Common
  import opened TestBinary

  // ----- the fate of one child, told without the table -----

  /** First definite status that waitpid reports for a pid. */
  function Reported(reaps: seq<Reap>, pid: int): Option<int>
  {
    if reaps == [] then None
    else
      var r := reaps[|reaps| - 1];
      var early := Reported(reaps[..|reaps| - 1], pid);
      if early.Some? || r.pid != pid then early else Decode(r.status)
  }

  /** The child is past the limit of the call. */
  predicate TooLong(start: int, c: Call) { c.limit > 0 && ToInt32(c.now - start) > c.limit }

  function Progress(v: Option<int>, pid: int, start: int, c: Call): Option<int>
  {
    if v.Some? then v
    else if Reported(c.reaps, pid).Some? then Reported(c.reaps, pid)
    else if TooLong(start, c) then Some(ETOOLONG)
    else None
  }

  /** Outcome of a child, from the calls after the one that started it. */
  function Outcome(pid: int, start: int, later: seq<Call>): Option<int>
  {
    if later == [] then None
    else Progress(Outcome(pid, start, later[..|later| - 1]), pid, start, later[|later| - 1])
  }

  /** From the low seven bits of a wait status: the child has ended, by exit (0) or by a signal (1 to 126). */
  predicate Dead(status: int) { status % 128 != 127 }

  /** What an ended child counts as: bits 8 to 15 of the status after an exit, 248 after a signal. */
  function DeathCode(status: int): int
    requires Dead(status)
  {
    if status % 128 == 0 then (status / 256) % 256 else 248
  }

  /** Reap j is the first that reports the pid dead. */
  predicate DiesAt(reaps: seq<Reap>, pid: int, j: nat)
  {
    && j < |reaps| && reaps[j].pid == pid && Dead(reaps[j].status)
    && forall m | 0 <= m < j && reaps[m].pid == pid :: !Dead(reaps[m].status)
  }

  /** A child is reported with the code of its first death, and not at all if it has only been stopped. */
  lemma {:induction false} ReportedExactly(reaps: seq<Reap>, pid: int)
    ensures forall j | 0 <= j < |reaps| && DiesAt(reaps, pid, j) ::
        Reported(reaps, pid) == Some(DeathCode(reaps[j].status))
    ensures NeverDies(reaps, pid) <==> Reported(reaps, pid).None?
  {
    if reaps != [] {
      var k := |reaps| - 1;
      ReportedExactly(reaps[..k], pid);
      forall j | 0 <= j < |reaps| && DiesAt(reaps, pid, j)
        ensures Reported(reaps, pid) == Some(DeathCode(reaps[j].status))
      {
        ReportedFirst(reaps, pid, j, k);
      }
      ReportedNever(reaps, pid, k);
    }
  }

  predicate NeverDies(reaps: seq<Reap>, pid: int)
  {
    forall j | 0 <= j < |reaps| && reaps[j].pid == pid :: !Dead(reaps[j].status)
  }

  lemma ReportedFirst(reaps: seq<Reap>, pid: int, j: nat, k: nat)
    requires |reaps| == k + 1 && j <= k && DiesAt(reaps, pid, j)
    requires j < k && DiesAt(reaps[..k], pid, j) ==> Reported(reaps[..k], pid) == Some(DeathCode(reaps[j].status))
    requires NeverDies(reaps[..k], pid) ==> Reported(reaps[..k], pid).None?
    ensures Reported(reaps, pid) == Some(DeathCode(reaps[j].status))
  {
    if j < k {
      assert DiesAt(reaps[..k], pid, j);
    } else {
      assert NeverDies(reaps[..k], pid);
    }
  }

  lemma ReportedNever(reaps: seq<Reap>, pid: int, k: nat)
    requires |reaps| == k + 1 && (NeverDies(reaps[..k], pid) <==> Reported(reaps[..k], pid).None?)
    ensures NeverDies(reaps, pid) <==> Reported(reaps, pid).None?
  {
    if NeverDies(reaps, pid) {
      assert NeverDies(reaps[..k], pid);
    }
    if !NeverDies(reaps[..k], pid) {
      var j :| 0 <= j < k && reaps[j].pid == pid && Dead(reaps[j].status);
      assert !NeverDies(reaps, pid);
    }
  }

  // ----- one step of the table -----

  predicate Distinct(t: seq<Child>)
  {
    forall i, j | 0 <= i < j < |t| :: t[i].pid != t[j].pid && t[i].name != t[j].name
  }

  function EntryOf(t: seq<Child>, name: string): Option<Child>
  {
    var i := IndexOfName(t, name);
    if i < |t| then Some(t[i]) else None
  }

  function Advance(e: Child, c: Call): Child { e.(verdict := Progress(e.verdict, e.pid, e.start, c)) }

  /** A status for a pid that is not in the table changes nothing. */
  lemma UnknownPidIgnored(t: seq<Child>, pid: int, status: int)
    requires forall e <- t :: e.pid != pid
    ensures Update(t, pid, status) == t
  {
  }

  lemma {:induction false} GatherPointwise(t: seq<Child>, reaps: seq<Reap>)
    requires Distinct(t)
    ensures |Gather(t, reaps)| == |t|
    ensures forall i | 0 <= i < |t| ::
              Gather(t, reaps)[i] ==
              t[i].(verdict := if t[i].verdict.Some? then t[i].verdict else Reported(reaps, t[i].pid))
  {
    if reaps == [] {
      assert Gather(t, reaps) == t;
    } else {
      GatherPointwise(t, reaps[..|reaps| - 1]);
    }
  }

  lemma RefreshedPointwise(t: seq<Child>, c: Call)
    requires Distinct(t)
    ensures |Refreshed(t, c)| == |t|
    ensures forall i | 0 <= i < |t| :: Refreshed(t, c)[i] == Advance(t[i], c)
    ensures Distinct(Refreshed(t, c))
  {
    GatherPointwise(t, c.reaps);
  }

  lemma EntryUnique(t: seq<Child>, name: string, i: nat)
    requires Distinct(t) && i < |t| && t[i].name == name
    ensures EntryOf(t, name) == Some(t[i]) && IndexOfName(t, name) == i
  {
  }

  lemma EntryRefreshed(t: seq<Child>, c: Call, name: string)
    requires Distinct(t)
    ensures EntryOf(Refreshed(t, c), name)
        == match EntryOf(t, name) case None => None case Some(e) => Some(Advance(e, c))
  {
    RefreshedPointwise(t, c);
    var i := IndexOfName(t, name);
    if i < |t| { EntryUnique(Refreshed(t, c), name, i); }
  }

  lemma EntryWithout(t: seq<Child>, i: nat, name: string)
    requires Distinct(t) && i < |t|
    ensures Distinct(Without(t, i))
    ensures EntryOf(Without(t, i), name) == if t[i].name == name then None else EntryOf(t, name)
  {
    WithoutDistinct(t, i);
    var j := IndexOfName(t, name);
    if j < |t| && j != i { EntryUnique(Without(t, i), name, if j < i then j else j - 1); }
  }

  lemma WithoutDistinct(t: seq<Child>, i: nat)
    requires Distinct(t) && i < |t|
    ensures Distinct(Without(t, i))
  {
  }

  lemma EntryAdded(t: seq<Child>, e: Child, name: string)
    ensures EntryOf([e] + t, name) == if e.name == name then Some(e) else EntryOf(t, name)
  {
    assert ([e] + t)[1..] == t;
  }

  lemma EntryCollected(t: seq<Child>, wanted: string, name: string)
    requires Distinct(t)
    ensures Distinct(Collect(t, wanted))
    ensures forall e <- Collect(t, wanted) :: e in t
    ensures EntryOf(Collect(t, wanted), name) ==
              if wanted == name && Lookup(t, name).Completed? then None else EntryOf(t, name)
    ensures Lookup(t, wanted) != Running ==> EntryOf(Collect(t, wanted), wanted) == None
  {
    if Lookup(t, wanted).Completed? {
      var i := IndexOfName(t, wanted);
      assert IndexOfPid(t, t[i].pid) == i;
      EntryWithout(t, i, name);
      EntryWithout(t, i, wanted);
    }
  }

  /** A call that reaps a tracked unfinished child leaves it finished, with the code of its death; one that finds it
      stopped only leaves it alone, unless it is too old. */
  lemma ReapedIsFinished(t: seq<Child>, c: Call, i: nat)
    requires Distinct(t) && i < |t| && t[i].verdict.None?
    ensures |Refreshed(t, c)| == |t|
    ensures forall j | 0 <= j < |c.reaps| && DiesAt(c.reaps, t[i].pid, j) ::
              Refreshed(t, c)[i] == t[i].(verdict := Some(DeathCode(c.reaps[j].status)))
    ensures NeverDies(c.reaps, t[i].pid) ==>
              Refreshed(t, c)[i] == if TooLong(t[i].start, c) then t[i].(verdict := Some(247)) else t[i]
  {
    RefreshedPointwise(t, c);
    ReportedExactly(c.reaps, t[i].pid);
  }

  /** ... and if the call asks for the child's name, it returns that code and starts the next child. */
  lemma ReapedIsReturned(t: seq<Child>, c: Call, i: nat, j: nat)
    requires Distinct(t) && i < |t| && t[i].verdict.None? && c.name == Some(t[i].name) && DiesAt(c.reaps, t[i].pid, j)
    ensures Launches(t, c)
    ensures c.fork.Forked? && c.fork.gotMemory ==>
              && ReturnCode(t, c) == DeathCode(c.reaps[j].status)
              && TableAfter(t, c) != []
              && TableAfter(t, c)[0] == Child(Stored(t[i].name), c.fork.pid, c.fork.start, None)
  {
    ReapedIsFinished(t, c, i);
    RefreshedPointwise(t, c);
    EntryUnique(Refreshed(t, c), t[i].name, i);
  }

  /** A call kills the children that it finds unfinished beyond the limit, and these are the ones that it marks as too
      long. */
  lemma {:induction false} KilledExactly(t: seq<Child>, now: int, limit: int, pid: int)
    ensures pid in OverduePids(t, now, limit)
       <==> exists i | 0 <= i < |t| :: t[i].pid == pid && t[i].verdict.None? && LateAt(t[i], now, limit)
    ensures forall i | 0 <= i < |t| :: Expire(t, now, limit)[i] ==
              if t[i].verdict.None? && LateAt(t[i], now, limit) then t[i].(verdict := Some(247)) else t[i]
  {
    if t != [] { KilledExactly(t[..|t| - 1], now, limit, pid); }
  }

  /** The age of the child as an int is beyond the limit. */
  predicate LateAt(e: Child, now: int, limit: int) { ToInt32(now - e.start) > limit }

  /** Codes of the calls that find no result: 0 without a name, 245 while the child runs or if it has just been
      started, 255 if fork fails and 12 if malloc does, with an empty table. */
  lemma CodesWithoutResult(t: seq<Child>, c: Call)
    ensures c.name.None? ==> ReturnCode(t, c) == 0 && TableAfter(t, c) == Refreshed(t, c)
    ensures c.name.Some? && Lookup(Refreshed(t, c), c.name.value) == Running ==>
              ReturnCode(t, c) == 245 && TableAfter(t, c) == Refreshed(t, c)
    ensures c.name.Some? && Lookup(Refreshed(t, c), c.name.value) != Running ==>
              && (c.fork.ForkFailed? ==> ReturnCode(t, c) == 255)
              && (c.fork.Forked? && !c.fork.gotMemory ==> ReturnCode(t, c) == 12 && TableAfter(t, c) == [])
              && (c.fork.Forked? && c.fork.gotMemory && Lookup(Refreshed(t, c), c.name.value) == Blank ==>
                    && ReturnCode(t, c) == 245
                    && TableAfter(t, c) == [Child(Stored(c.name.value), c.fork.pid, c.fork.start,
                        None)] + Refreshed(t, c))
  {
  }

  /** fork does not return a pid that is still in the table, and the name fits its field. */
  predicate Fresh(t: seq<Child>, c: Call)
  {
    && (c.name.Some? ==> |c.name.value| < PATH_MAX)
    && (Launches(t, c) && c.fork.Forked? && c.fork.gotMemory ==> forall e <- BeforeFork(t, c) :: e.pid != c.fork.pid)
  }

  /** fork and malloc succeed if the call starts a child. */
  predicate Granted(t: seq<Child>, c: Call) { Launches(t, c) ==> c.fork.Forked? && c.fork.gotMemory }

  /** malloc fails for a child just started, so that the whole chain is freed. */
  predicate Emptied(t: seq<Child>, c: Call) { Launches(t, c) && c.fork.Forked? && !c.fork.gotMemory }

  predicate Healthy(t: seq<Child>, c: Call) { Fresh(t, c) && Granted(t, c) }

  /** Every step keeps names and pids distinct. */
  lemma DistinctKept(t: seq<Child>, c: Call)
    requires Distinct(t) && Fresh(t, c)
    ensures Distinct(TableAfter(t, c))
  {
    RefreshedPointwise(t, c);
    if c.name.Some? {
      var n := c.name.value;
      EntryCollected(Refreshed(t, c), n, n);
      if Launches(t, c) {
        assert forall e <- BeforeFork(t, c) :: e.name != n;
      }
    }
  }

  /** What one call does to the entry of one name. */
  lemma EntryStep(t: seq<Child>, c: Call, name: string)
    requires Distinct(t) && Healthy(t, c)
    ensures var e := EntryOf(Refreshed(t, c), name);
            if c.name != Some(name) then EntryOf(TableAfter(t, c), name) == e
            else if e.Some? && e.value.verdict.None? then !Launches(t, c) && EntryOf(TableAfter(t, c), name) == e
            else Launches(t, c) && EntryOf(TableAfter(t, c), name) == Some(Child(name, c.fork.pid, c.fork.start, None))
    ensures c.name == Some(name) ==>
            var e := EntryOf(Refreshed(t, c), name);
            && (Lookup(Refreshed(t, c), name).Completed? <==> e.Some? && e.value.verdict.Some?)
            && ReturnCode(t, c) == if e.Some? && e.value.verdict.Some? then e.value.verdict.value else EDONTKNOW
  {
    RefreshedPointwise(t, c);
    if c.name.Some? {
      EntryCollected(Refreshed(t, c), c.name.value, name);
      if Launches(t, c) {
        EntryAdded(BeforeFork(t, c), Child(c.name.value, c.fork.pid, c.fork.start, None), name);
      }
    }
  }

  // ----- runs -----

  /** The table after a run that began with no children. */
  function Table(calls: seq<Call>): seq<Child>
  {
    if calls == [] then [] else TableAfter(Table(calls[..|calls| - 1]), calls[|calls| - 1])
  }

  predicate FreshAt(calls: seq<Call>, i: nat)
    requires i < |calls|
  {
    Fresh(Table(calls[..i]), calls[i])
  }

  /** No pid is reused while it is in the table, and all names fit; anything may fail. */
  predicate FreshRun(calls: seq<Call>) { forall i | 0 <= i < |calls| :: FreshAt(calls, i) }

  predicate GrantedAt(calls: seq<Call>, i: nat)
    requires i < |calls|
  {
    Granted(Table(calls[..i]), calls[i])
  }

  /** ... and no fork or malloc fails. */
  predicate HealthyRun(calls: seq<Call>)
  {
    FreshRun(calls) && forall i | 0 <= i < |calls| :: GrantedAt(calls, i)
  }

  datatype Launch = Launch(at: nat, pid: int, start: int)

  /** The child, if any, that call k starts for a name when it finds table t. */
  function StartedBy(t: seq<Child>, c: Call, k: nat, name: string): seq<Launch>
  {
    if c.name == Some(name) && Launches(t, c) && c.fork.Forked? then [Launch(k, c.fork.pid, c.fork.start)] else []
  }

  /** What the call returns for a name if it finds a completed child. */
  function HandedBy(t: seq<Child>, c: Call, name: string): seq<int>
  {
    if c.name == Some(name) && Lookup(Refreshed(t, c), name).Completed? then [ReturnCode(t, c)] else []
  }

  /** The children started for a name, in order. */
  function Started(calls: seq<Call>, name: string): seq<Launch>
  {
    if calls == [] then []
    else
      var k := |calls| - 1;
      Started(calls[..k], name) + StartedBy(Table(calls[..k]), calls[k], k, name)
  }

  /** What check_bin returned for a name in the calls that found a completed child. */
  function HandedBack(calls: seq<Call>, name: string): seq<int>
  {
    if calls == [] then []
    else
      var k := |calls| - 1;
      HandedBack(calls[..k], name) + HandedBy(Table(calls[..k]), calls[k], name)
  }

  /** Everything check_bin returned for a name. */
  function Returned(calls: seq<Call>, name: string): seq<int>
  {
    if calls == [] then []
    else
      var k := |calls| - 1;
      Returned(calls[..k], name) + if calls[k].name == Some(name) then [ReturnCode(Table(calls[..k]), calls[k])] else []
  }

  /** The outcome so far of a child started in the run. */
  function Fate(calls: seq<Call>, l: Launch): Option<int>
    requires l.at < |calls|
  {
    Outcome(l.pid, l.start, calls[l.at + 1..])
  }

  lemma HealthyPrefix(calls: seq<Call>)
    requires HealthyRun(calls) && calls != []
    ensures HealthyRun(calls[..|calls| - 1])
    ensures Healthy(Table(calls[..|calls| - 1]), calls[|calls| - 1])
  {
    var k := |calls| - 1;
    assert FreshAt(calls, k) && GrantedAt(calls, k);
    forall i | 0 <= i < k ensures FreshAt(calls[..k], i) && GrantedAt(calls[..k], i) {
      assert calls[..k][..i] == calls[..i];
      assert FreshAt(calls, i) && GrantedAt(calls, i);
    }
  }

  lemma FateStep(calls: seq<Call>, l: Launch)
    requires l.at + 1 < |calls|
    ensures Fate(calls, l) == Progress(Fate(calls[..|calls| - 1], l), l.pid, l.start, calls[|calls| - 1])
  {
    var later := calls[l.at + 1..];
    assert later[..|later| - 1] == calls[..|calls| - 1][l.at + 1..];
  }

  lemma TableStep(calls: seq<Call>, n: nat)
    requires n < |calls|
    ensures Table(calls[..n + 1]) == TableAfter(Table(calls[..n]), calls[n])
  {
    assert calls[..n + 1][..n] == calls[..n];
  }

  lemma {:induction false} DistinctAt(calls: seq<Call>, n: nat)
    requires FreshRun(calls) && n <= |calls|
    ensures Distinct(Table(calls[..n]))
  {
    if n > 0 {
      DistinctAt(calls, n - 1);
      assert FreshAt(calls, n - 1);
      DistinctKept(Table(calls[..n - 1]), calls[n - 1]);
      TableStep(calls, n - 1);
    }
  }

  /** Every reachable table has distinct names and pids. */
  lemma TableDistinct(calls: seq<Call>)
    requires FreshRun(calls)
    ensures Distinct(Table(calls))
  {
    DistinctAt(calls, |calls|);
    assert calls[..|calls|] == calls;
  }

  /** The books of one name: the results handed back are the outcomes of its children in start order, each once, and
      one child more has been started exactly when the table still tracks one, whose verdict is its outcome so far. */
  predicate Balanced(calls: seq<Call>, started: seq<Launch>, handed: seq<int>, entry: Option<Child>)
  {
    && (forall i | 0 <= i < |started| :: started[i].at < |calls|)
    && (forall i, j | 0 <= i < j < |started| :: started[i].at < started[j].at)
    && |started| == |handed| + (if entry.Some? then 1 else 0)
    && (forall i | 0 <= i < |handed| :: Fate(calls, started[i]) == Some(handed[i]))
    && (entry.Some? ==>
          var l := started[|handed|];
          entry.value.pid == l.pid && entry.value.start == l.start && entry.value.verdict == Fate(calls, l))
  }

  /** A call that starts nothing for the name and hands nothing back: the entry only advances. */
  lemma BalancedAdvance(calls: seq<Call>, started: seq<Launch>, handed: seq<int>, entry: Option<Child>)
    requires calls != [] && Balanced(calls[..|calls| - 1], started, handed, entry)
    ensures Balanced(calls, started, handed,
              match entry case None => None case Some(e) => Some(Advance(e, calls[|calls| - 1])))
  {
    forall i | 0 <= i < |started|
      ensures Fate(calls, started[i])
           == Progress(Fate(calls[..|calls| - 1], started[i]), started[i].pid, started[i].start, calls[|calls| - 1])
    {
      FateStep(calls, started[i]);
    }
  }

  lemma BalancedHandBack(calls: seq<Call>, started: seq<Launch>, handed: seq<int>, e: Child, code: int)
    requires Balanced(calls, started, handed, Some(e)) && e.verdict == Some(code)
    ensures Balanced(calls, started, handed + [code], None)
  {
  }

  lemma BalancedLaunch(calls: seq<Call>, started: seq<Launch>, handed: seq<int>, name: string, pid: int, start: int)
    requires calls != [] && Balanced(calls, started, handed, None)
    requires forall i | 0 <= i < |started| :: started[i].at < |calls| - 1
    ensures Balanced(calls, started + [Launch(|calls| - 1, pid, start)], handed, Some(Child(name, pid, start, None)))
  {
    assert calls[|calls|..] == [];
  }

  /** The three things that a call can do for a name: nothing, start its first child, or hand a result back and start
      the next. */
  lemma CallCases(t: seq<Child>, c: Call, k: nat, name: string)
    requires Distinct(t) && Healthy(t, c)
    ensures var e, e' := EntryOf(Refreshed(t, c), name), EntryOf(TableAfter(t, c), name);
            var s, h := StartedBy(t, c, k, name), HandedBy(t, c, name);
            || (s == [] && h == [] && e' == e)
            || (&& s == [Launch(k, c.fork.pid, c.fork.start)] && e' == Some(Child(name, c.fork.pid, c.fork.start, None))
                && match e
                   case None => h == []
                   case Some(x) => x.verdict.Some? && h == [x.verdict.value])
  {
    EntryStep(t, c, name);
  }

  /** One more call keeps the books. */
  lemma BooksKept(calls: seq<Call>, t: seq<Child>, s: seq<Launch>, h: seq<int>, k: nat, name: string)
    requires |calls| == k + 1 && Distinct(t) && Healthy(t, calls[k])
    requires Balanced(calls[..k], s, h, EntryOf(t, name))
    ensures Balanced(calls, s + StartedBy(t, calls[k], k, name), h + HandedBy(t, calls[k], name),
                     EntryOf(TableAfter(t, calls[k]), name))
  {
    var c := calls[k];
    CallCases(t, c, k, name);
    EntryRefreshed(t, c, name);
    BalancedAdvance(calls, s, h, EntryOf(t, name));
    if StartedBy(t, c, k, name) != [] {
      var e := EntryOf(Refreshed(t, c), name);
      if e.Some? { BalancedHandBack(calls, s, h, e.value, e.value.verdict.value); }
      BalancedLaunch(calls, s, h + HandedBy(t, c, name), name, c.fork.pid, c.fork.start);
    }
  }

  lemma {:induction false} Books(calls: seq<Call>, name: string)
    requires HealthyRun(calls)
    ensures Balanced(calls, Started(calls, name), HandedBack(calls, name), EntryOf(Table(calls), name))
  {
    if calls != [] {
      var k := |calls| - 1;
      HealthyPrefix(calls);
      TableDistinct(calls[..k]);
      Books(calls[..k], name);
      BooksKept(calls, Table(calls[..k]), Started(calls[..k], name), HandedBack(calls[..k], name), k, name);
    }
  }

  /** Results that say something: check_bin answers EDONTKNOW while it has none. */
  function Known(codes: seq<int>): seq<int>
  {
    if codes == [] then []
    else Known(codes[..|codes| - 1]) + if codes[|codes| - 1] == EDONTKNOW then [] else [codes[|codes| - 1]]
  }

  lemma KnownSnoc(codes: seq<int>, x: int)
    ensures Known(codes + [x]) == Known(codes) + if x == EDONTKNOW then [] else [x]
  {
    assert (codes + [x])[..|codes|] == codes;
  }

  /** A call without a result to hand back returns "don't know" exactly when fork and malloc did not fail. */
  lemma NothingToReport(t: seq<Child>, c: Call, name: string)
    requires c.name == Some(name) && HandedBy(t, c, name) == []
    ensures ReturnCode(t, c) == EDONTKNOW <==> Granted(t, c)
  {
  }

  lemma {:induction false} ReturnedIsHandedBack(calls: seq<Call>, name: string)
    requires HealthyRun(calls)
    ensures Known(Returned(calls, name)) == Known(HandedBack(calls, name))
  {
    if calls != [] {
      var k := |calls| - 1;
      var c, t := calls[k], Table(calls[..k]);
      HealthyPrefix(calls);
      ReturnedIsHandedBack(calls[..k], name);
      if c.name == Some(name) {
        KnownSnoc(Returned(calls[..k], name), ReturnCode(t, c));
        KnownSnoc(HandedBack(calls[..k], name), ReturnCode(t, c));
        if HandedBy(t, c, name) == [] {
          NothingToReport(t, c, name);
          assert HandedBack(calls, name) == HandedBack(calls[..k], name);
        }
      } else {
        assert Returned(calls, name) == Returned(calls[..k], name);
        assert HandedBack(calls, name) == HandedBack(calls[..k], name);
      }
    }
  }

  function Entries(t: seq<Child>, name: string): nat
  {
    if t == [] then 0 else (if t[0].name == name then 1 else 0) + Entries(t[1..], name)
  }

  lemma {:induction false} EntriesOfDistinct(t: seq<Child>, name: string)
    requires Distinct(t)
    ensures Entries(t, name) == if EntryOf(t, name).Some? then 1 else 0
  {
    if t != [] {
      EntriesOfDistinct(t[1..], name);
      EntryAdded(t[1..], t[0], name);
      assert [t[0]] + t[1..] == t;
    }
  }

  /** In every run without fork or allocation failure: the results handed back for a name are the outcomes of that
      name's children in start order, each exactly once; started = handed back + still in the table, which is at most
      one; and what callers see is these results with "don't know" left out. */
  lemma NoResultLost(calls: seq<Call>, name: string)
    requires HealthyRun(calls)
    ensures var started, handed := Started(calls, name), HandedBack(calls, name);
            && (forall i, j | 0 <= i < j < |started| :: started[i].at < started[j].at < |calls|)
            && |started| == |handed| + Entries(Table(calls), name) && Entries(Table(calls), name) <= 1
            && (forall i | 0 <= i < |handed| :: started[i].at < |calls| && Fate(calls, started[i]) == Some(handed[i]))
            && Known(Returned(calls, name)) == Known(handed)
  {
    Books(calls, name);
    TableDistinct(calls);
    EntriesOfDistinct(Table(calls), name);
    ReturnedIsHandedBack(calls, name);
  }

  lemma {:induction false} KnownIsAll(codes: seq<int>)
    ensures |Known(codes)| <= |codes|
    ensures Known(codes) == codes <==> EDONTKNOW !in codes
  {
    if codes != [] {
      var k := |codes| - 1;
      KnownIsAll(codes[..k]);
      assert codes == codes[..k] + [codes[k]];
    }
  }

  /** Callers see all results of a name exactly when no child of it exited with the status that stands for "don't
      know". */
  lemma CallersSeeExactly(calls: seq<Call>, name: string)
    requires HealthyRun(calls)
    ensures Known(Returned(calls, name)) == HandedBack(calls, name) <==> EDONTKNOW !in HandedBack(calls, name)
  {
    ReturnedIsHandedBack(calls, name);
    KnownIsAll(HandedBack(calls, name));
  }

  /** Outside healthy runs results do get lost: a call that finds a completed child always drops its entry, and
      returns its code exactly when fork and malloc succeed (unless the code itself looks like the failure). */
  lemma ResultKeptExactly(t: seq<Child>, c: Call, code: int)
    requires Distinct(t) && c.name.Some? && Lookup(Refreshed(t, c), c.name.value) == Completed(code)
    requires code != EREBOOT && code != ENOMEM
    ensures EntryOf(BeforeFork(t, c), c.name.value) == None
    ensures ReturnCode(t, c) == code <==> c.fork.Forked? && c.fork.gotMemory
  {
    RefreshedPointwise(t, c);
    EntryCollected(Refreshed(t, c), c.name.value, c.name.value);
  }

  predicate ShortNames(t: seq<Child>) { forall i | 0 <= i < |t| :: |t[i].name| < PATH_MAX }

  lemma {:induction false} GatherKeepsNames(t: seq<Child>, reaps: seq<Reap>)
    ensures |Gather(t, reaps)| == |t| && forall i | 0 <= i < |t| :: Gather(t, reaps)[i].name == t[i].name
  {
    if reaps != [] { GatherKeepsNames(t, reaps[..|reaps| - 1]); }
  }

  lemma {:induction false} TablesHaveShortNames(calls: seq<Call>)
    ensures ShortNames(Table(calls))
  {
    if calls != [] {
      TablesHaveShortNames(calls[..|calls| - 1]);
      ShortNamesKept(Table(calls[..|calls| - 1]), calls[|calls| - 1]);
    }
  }

  lemma CollectKeepsShortNames(t: seq<Child>, name: string)
    requires ShortNames(t)
    ensures ShortNames(Collect(t, name))
  {
  }

  lemma RefreshedKeepsNames(t: seq<Child>, c: Call)
    ensures |Refreshed(t, c)| == |t| && forall i | 0 <= i < |t| :: Refreshed(t, c)[i].name == t[i].name
  {
    GatherKeepsNames(t, c.reaps);
  }

  lemma AddedKeepsShortNames(t: seq<Child>, e: Child)
    requires ShortNames(t) && |e.name| < PATH_MAX
    ensures ShortNames([e] + t)
  {
  }

  lemma ShortNamesKept(t: seq<Child>, c: Call)
    requires ShortNames(t)
    ensures ShortNames(Refreshed(t, c)) && ShortNames(TableAfter(t, c))
  {
    RefreshedKeepsNames(t, c);
    if c.name.Some? {
      CollectKeepsShortNames(Refreshed(t, c), c.name.value);
      if Launches(t, c) && c.fork.Forked? {
        AddedKeepsShortNames(BeforeFork(t, c), Child(Stored(c.name.value), c.fork.pid, c.fork.start, None));
      }
    }
  }

  /** In any run a name too long for its field is never found again: every call for it starts another child, and none
      of them is ever reported. */
  lemma LongNameNeverFound(calls: seq<Call>, c: Call)
    requires c.name.Some? && |c.name.value| >= 4096
    ensures Launches(Table(calls), c) && HandedBy(Table(calls), c, c.name.value) == []
    ensures c.fork.Forked? && c.fork.gotMemory ==>
              && ReturnCode(Table(calls), c) == EDONTKNOW
              && TableAfter(Table(calls), c) != [] && TableAfter(Table(calls), c)[0].name == c.name.value[..4095]
  {
    TablesHaveShortNames(calls);
    ShortNamesKept(Table(calls), c);
    assert Lookup(Refreshed(Table(calls), c), c.name.value) == Blank;
  }
}
