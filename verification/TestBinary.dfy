/** The table of test children (src/test_binary.c): a linked list changed in place, specified by a sequence of
    children. */
module TestBinary {
  import opened Common

  const PATH_MAX := 4096

  /** One tracked child; the verdict is its recorded outcome once `is_done` is set. */
  datatype Child = Child(name: string, pid: int, start: int, verdict: Option<int>)

  /** What snprintf leaves of a name in the fixed-size field. */
  function Stored(name: string): (s: string)
    ensures |name| < PATH_MAX <==> s == name
  {
    if |name| < PATH_MAX then name else name[..PATH_MAX - 1]
  }

  /** The outcome that a wait status stands for: the exit code, "killed", or none for a stopped child. */
  function Decode(status: int): Option<int>
  {
    if status % 128 == 0 then Some(ExitStatus(status))
    else if status % 128 != 127 then Some(ECHKILL)
    else None
  }

  // ----- the table as a sequence, newest child first -----

  function IndexOfPid(t: seq<Child>, pid: int): (i: nat)
    ensures i <= |t| && (i < |t| ==> t[i].pid == pid)
    ensures forall j | 0 <= j < i :: t[j].pid != pid
  {
    if t == [] || t[0].pid == pid then 0 else 1 + IndexOfPid(t[1..], pid)
  }

  function IndexOfName(t: seq<Child>, name: string): (i: nat)
    ensures i <= |t| && (i < |t| ==> t[i].name == name)
    ensures forall j | 0 <= j < i :: t[j].name != name
  {
    if t == [] || t[0].name == name then 0 else 1 + IndexOfName(t[1..], name)
  }

  function Settle(c: Child, v: Option<int>): Child
  {
    if c.verdict.None? then c.(verdict := v) else c
  }

  function Update(t: seq<Child>, pid: int, status: int): seq<Child>
  {
    var i := IndexOfPid(t, pid);
    if i == |t| then t else t[i := Settle(t[i], Decode(status))]
  }

  /** A child that waitpid reported, with its wait status. */
  datatype Reap = Reap(pid: int, status: int)

  function Gather(t: seq<Child>, reaps: seq<Reap>): seq<Child>
  {
    if reaps == [] then t
    else var r := reaps[|reaps| - 1]; Update(Gather(t, reaps[..|reaps| - 1]), r.pid, r.status)
  }

  predicate Overdue(c: Child, now: int, limit: int) { c.verdict.None? && ToInt32(now - c.start) > limit }

  function ExpireOne(c: Child, now: int, limit: int): Child
  {
    if Overdue(c, now, limit) then c.(verdict := Some(ETOOLONG)) else c
  }

  function Expire(t: seq<Child>, now: int, limit: int): (r: seq<Child>)
    ensures |r| == |t| && forall i | 0 <= i < |t| :: r[i] == ExpireOne(t[i], now, limit)
  {
    seq(|t|, i requires 0 <= i < |t| => ExpireOne(t[i], now, limit))
  }

  function Without<T>(s: seq<T>, i: nat): (r: seq<T>)
    requires i < |s|
    ensures |r| == |s| - 1 && forall j | 0 <= j < |r| :: r[j] == if j < i then s[j] else s[j + 1]
  {
    s[..i] + s[i + 1..]
  }

  function Remove(t: seq<Child>, pid: int): seq<Child>
  {
    var i := IndexOfPid(t, pid);
    if i == |t| then t else Without(t, i)
  }

  /** What check_processes finds for a name. */
  datatype Status = Running | Completed(code: int) | Blank

  function Lookup(t: seq<Child>, name: string): Status
  {
    var i := IndexOfName(t, name);
    if i == |t| then Blank
    else match t[i].verdict
      case None => Running
      case Some(code) => Completed(code)
  }

  /** check_processes takes a completed child out of the table. */
  function Collect(t: seq<Child>, name: string): seq<Child>
  {
    if Lookup(t, name).Completed? then Remove(t, t[IndexOfName(t, name)].pid) else t
  }

  /** What fork and the allocation after it do: a child pid, with time(NULL) when it is entered in the table. */
  datatype Fork = Forked(pid: int, start: int, gotMemory: bool) | ForkFailed

  /** One call of check_bin with everything the system answers during it. */
  datatype Call = Call(name: Option<string>, limit: int, reaps: seq<Reap>, now: int, fork: Fork)

  /** The table when the call has gathered children and enforced the time limit. */
  function Refreshed(t: seq<Child>, c: Call): seq<Child>
  {
    var g := Gather(t, c.reaps);
    if c.limit > 0 then Expire(g, c.now, c.limit) else g
  }

  /** The call goes on to start a child. */
  predicate Launches(t: seq<Child>, c: Call)
  {
    c.name.Some? && Lookup(Refreshed(t, c), c.name.value) != Running
  }

  /** The table when the call forks. */
  function BeforeFork(t: seq<Child>, c: Call): seq<Child>
  {
    if c.name.None? then Refreshed(t, c) else Collect(Refreshed(t, c), c.name.value)
  }

  function TableAfter(t: seq<Child>, c: Call): seq<Child>
  {
    if !Launches(t, c) || c.fork.ForkFailed? then BeforeFork(t, c)
    else if c.fork.gotMemory then
      [Child(Stored(c.name.value), c.fork.pid, c.fork.start, None)] + BeforeFork(t, c)
    else []
  }

  function ReturnCode(t: seq<Child>, c: Call): int
  {
    if c.name.None? then ENOERR
    else if !Launches(t, c) then EDONTKNOW
    else if c.fork.ForkFailed? then EREBOOT
    else if !c.fork.gotMemory then ENOMEM
    else match Lookup(Refreshed(t, c), c.name.value)
      case Completed(code) => code
      case _ => EDONTKNOW
  }

  // ----- the linked list -----

  class Process {
    var name: string
    var pid: int
    var time: int
    var ecode: int
    var isDone: bool
    var next: Process?

    constructor (name: string, pid: int, time: int, next: Process?)
      ensures Value() == Child(name, pid, time, None) && this.next == next
    {
      this.name, this.pid, this.time, this.next := name, pid, time, next;
      ecode, isDone := 0, false;
    }

    function Value(): Child
      reads this
    {
      Child(name, pid, time, if isDone then Some(ecode) else None)
    }
  }

  class ProcessTable {
    var head: Process?
    ghost var nodes: seq<Process>
    ghost var contents: seq<Child>

    /** The nodes form an acyclic chain from the head and hold the contents. */
    ghost predicate Valid()
      reads this, nodes
    {
      && |contents| == |nodes| && head == NodeAt(0)
      && (forall i {:trigger nodes[i].next} | 0 <= i < |nodes| :: nodes[i].next == NodeAt(i + 1))
      && (forall i | 0 <= i < |nodes| :: nodes[i].Value() == contents[i])
      && (forall i, j | 0 <= i < j < |nodes| :: nodes[i] != nodes[j])
    }

    ghost function NodeAt(i: nat): Process?
      reads this
    {
      if i < |nodes| then nodes[i] else null
    }

    constructor ()
      ensures Valid() && contents == []
    {
      head, nodes, contents := null, [], [];
    }

    /** add_process; without memory the whole chain is freed. */
    method AddProcess(name: string, pid: int, time: int, gotMemory: bool) returns (err: int)
      requires Valid()
      modifies this
      ensures Valid()
      ensures err == if gotMemory then ENOERR else ENOMEM
      ensures contents == if gotMemory then [Child(Stored(name), pid, time, None)] + old(contents) else []
    {
      if !gotMemory {
        FreeProcess();
        return ENOMEM;
      }
      var node := new Process(Stored(name), pid, time, head);
      head := node;
      nodes, contents := [node] + nodes, [node.Value()] + contents;
      err := ENOERR;
    }

    /** The loop of free_process; a node that is let go is garbage. */
    method FreeProcess()
      requires Valid()
      modifies this
      ensures Valid() && contents == []
    {
      var current := head;
      ghost var i := 0;
      while current != null
        invariant Valid() && 0 <= i <= |nodes| && current == NodeAt(i)
        decreases |nodes| - i
      {
        current := current.next;
        i := i + 1;
      }
      head, nodes, contents := null, [], [];
    }

    /** The search loop that remove_process and update_process share. */
    method FindPid(pid: int) returns (last: Process?, current: Process?, ghost i: nat)
      requires Valid()
      ensures i == IndexOfPid(contents, pid) && current == NodeAt(i)
      ensures last == if i == 0 then null else nodes[i - 1]
    {
      last, current, i := null, head, 0;
      while current != null && current.pid != pid
        invariant 0 <= i <= |nodes| && current == NodeAt(i)
        invariant last == if i == 0 then null else nodes[i - 1]
        invariant forall j | 0 <= j < i :: contents[j].pid != pid
        decreases |nodes| - i
      {
        last, current := current, current.next;
        i := i + 1;
      }
    }

    /** Take node i out of the chain. */
    method Unlink(last: Process?, current: Process, ghost i: nat)
      requires Valid() && i < |nodes| && current == nodes[i] && last == if i == 0 then null else nodes[i - 1]
      modifies this, last
      ensures Valid() && contents == Without(old(contents), i)
      ensures forall n <- nodes :: n in old(nodes)
    {
      if last == null {
        head := current.next;
      } else {
        last.next := current.next;
      }
      nodes, contents := Without(nodes, i), Without(contents, i);
    }

    method RemoveProcess(pid: int)
      requires Valid()
      modifies this, nodes
      ensures Valid() && (forall n <- nodes :: n in old(nodes))
      ensures contents == Remove(old(contents), pid)
    {
      var last, current, i := FindPid(pid);
      if current != null { Unlink(last, current, i); }
    }

    /** Record the outcome of node i. */
    method Record(node: Process, code: int, ghost i: nat)
      requires Valid() && i < |nodes| && node == nodes[i]
      modifies this`contents, node
      ensures Valid()
      ensures contents == old(contents)[i := old(contents)[i].(verdict := Some(code))]
      ensures node.pid == old(node.pid) && node.next == old(node.next)
    {
      node.ecode := code;
      node.isDone := true;
      contents := contents[i := contents[i].(verdict := Some(code))];
    }

    method UpdateProcess(pid: int, result: int)
      requires Valid()
      modifies this`contents, nodes
      ensures Valid() && contents == Update(old(contents), pid, result)
    {
      var last, current, i := FindPid(pid);
      if current != null && !current.isDone {
        if result % 128 == 0 {
          Record(current, ExitStatus(result), i);
        } else if result % 128 != 127 {
          Record(current, ECHKILL, i);
        }
      }
    }

    method GatherChildren(reaps: seq<Reap>)
      requires Valid()
      modifies this`contents, nodes
      ensures Valid() && contents == Gather(old(contents), reaps)
    {
      for k := 0 to |reaps|
        invariant Valid() && contents == Gather(old(contents), reaps[..k])
      {
        UpdateProcess(reaps[k].pid, reaps[k].status);
        assert reaps[..k + 1][..k] == reaps[..k];
      }
      assert reaps[..|reaps|] == reaps;
    }

    method KillIfOverdue(node: Process, now: int, limit: int, ghost i: nat) returns (overdue: bool)
      requires Valid() && i < |nodes| && node == nodes[i]
      modifies this`contents, node
      ensures Valid() && node.pid == old(node.pid) && node.next == old(node.next)
      ensures overdue == Overdue(old(contents)[i], now, limit)
      ensures contents == old(contents)[i := ExpireOne(old(contents)[i], now, limit)]
    {
      overdue := !node.isDone && ToInt32(now - node.time) > limit;
      if overdue { Record(node, ETOOLONG, i); }
    }

    method CheckTimeouts(now: int, limit: int) returns (killed: seq<int>)
      requires Valid()
      modifies this`contents, nodes
      ensures Valid() && contents == Expire(old(contents), now, limit)
      ensures killed == OverduePids(old(contents), now, limit)
    {
      var current := head;
      killed := [];
      ghost var i := 0;
      ghost var t := contents;
      while current != null
        invariant Valid() && 0 <= i <= |nodes| == |t| && current == NodeAt(i)
        invariant contents == ExpireFirst(t, i, now, limit)
        invariant killed == OverduePids(t[..i], now, limit)
        decreases |nodes| - i
      {
        OverdueStep(t, i, now, limit);
        var overdue := KillIfOverdue(current, now, limit, i);
        killed := killed + if overdue then [current.pid] else [];
        current := current.next;
        i := i + 1;
      }
      assert t[..i] == t;
    }

    method CheckProcesses(name: string) returns (status: Status)
      requires Valid()
      modifies this, nodes
      ensures Valid() && (forall n <- nodes :: n in old(nodes))
      ensures status == Lookup(old(contents), name)
      ensures contents == Collect(old(contents), name)
    {
      var current := head;
      ghost var i := 0;
      while current != null
        invariant 0 <= i <= |nodes| && current == NodeAt(i)
        invariant forall j | 0 <= j < i :: contents[j].name != name
        decreases |nodes| - i
      {
        if current.name == name {
          assert i == IndexOfName(contents, name);
          if !current.isDone { return Running; }
          status := Completed(current.ecode);
          RemoveProcess(current.pid);
          return;
        }
        current := current.next;
        i := i + 1;
      }
      assert i == IndexOfName(contents, name);
      status := Blank;
    }

    /** Fork and enter the child, unless that fails; `ecode` is what check_processes left to report. */
    method StartChild(name: string, fork: Fork, ecode: int) returns (code: int)
      requires Valid()
      modifies this
      ensures Valid()
      ensures match fork
              case ForkFailed => contents == old(contents) && code == EREBOOT
              case Forked(pid, start, true) =>
                contents == [Child(Stored(name), pid, start, None)] + old(contents) && code == ecode
              case Forked(_, _, false) => contents == [] && code == ENOMEM
    {
      match fork {
        case ForkFailed => code := EREBOOT;
        case Forked(pid, start, gotMemory) =>
          var err := AddProcess(name, pid, start, gotMemory);
          code := if err != ENOERR then err else ecode;
      }
    }

    method CheckBin(c: Call) returns (code: int)
      requires Valid()
      modifies this, nodes
      ensures Valid()
      ensures contents == TableAfter(old(contents), c)
      ensures code == ReturnCode(old(contents), c)
    {
      GatherChildren(c.reaps);
      if c.limit > 0 {
        var _ := CheckTimeouts(c.now, c.limit);
      }
      assert contents == Refreshed(old(contents), c);
      if c.name.None? { return ENOERR; }
      var status := CheckProcesses(c.name.value);
      assert contents == BeforeFork(old(contents), c);
      if status == Running { return EDONTKNOW; }
      code := StartChild(c.name.value, c.fork, if status.Completed? then status.code else EDONTKNOW);
    }
  }

  /** The table in the middle of a timeout check: only the first i children have been looked at. */
  function ExpireFirst(t: seq<Child>, i: nat, now: int, limit: int): (r: seq<Child>)
    requires i <= |t|
    ensures |r| == |t| && forall j | 0 <= j < |t| :: r[j] == if j < i then ExpireOne(t[j], now, limit) else t[j]
  {
    if i == 0 then t else ExpireFirst(t, i - 1, now, limit)[i - 1 := ExpireOne(t[i - 1], now, limit)]
  }

  lemma OverdueStep(t: seq<Child>, i: nat, now: int, limit: int)
    requires i < |t|
    ensures OverduePids(t[..i + 1], now, limit)
        == OverduePids(t[..i], now, limit) + if Overdue(t[i], now, limit) then [t[i].pid] else []
  {
    assert t[..i + 1][..i] == t[..i];
  }

  /** The children that a timeout check kills, in table order. */
  function OverduePids(t: seq<Child>, now: int, limit: int): seq<int>
  {
    if t == [] then []
    else
      var k := |t| - 1;
      OverduePids(t[..k], now, limit) + if Overdue(t[k], now, limit) then [t[k].pid] else []
  }
}
