/** The heartbeat file of src/heartbeat.c: a ring of timestamps that mirrors the end of a plain history. */
module Heartbeat {
  import opened Common

  const TS_SIZE := 12
  const RESTART := "--restart--\n"

  /** A timestamp record: eleven characters and a newline. */
  predicate IsRecord(r: string)
  {
    |r| == TS_SIZE && r[TS_SIZE - 1] == '\n' && forall i | 0 <= i < TS_SIZE - 1 :: r[i] != '\n'
  }

  predicate AllRecords(rs: seq<string>) { forall i | 0 <= i < |rs| :: IsRecord(rs[i]) }

  function Bytes(rs: seq<string>): string
  {
    if rs == [] then [] else rs[0] + Bytes(rs[1..])
  }

  /** What fgets(buf, TS_SIZE + 1) reads: at most TS_SIZE characters, not past a newline. */
  function ChunkSize(s: string): (n: nat)
    ensures n <= |s| && n <= TS_SIZE && (s != [] ==> 0 < n)
    ensures forall i | 0 <= i < n - 1 :: s[i] != '\n'
    ensures n < |s| && n < TS_SIZE ==> s[n - 1] == '\n'
  {
    ChunkUpTo(s, TS_SIZE)
  }

  function ChunkUpTo(s: string, limit: nat): (n: nat)
    ensures n <= |s| && n <= limit && (s != [] && limit > 0 ==> 0 < n)
    ensures forall i | 0 <= i < n - 1 :: s[i] != '\n'
    ensures n < |s| && 0 < n < limit ==> s[n - 1] == '\n'
    decreases limit, s
  {
    if s == [] || limit == 0 then 0 else if s[0] == '\n' then 1 else 1 + ChunkUpTo(s[1..], limit - 1)
  }

  /** What the first TS_SIZE bytes of the line buffer hold after fgets: the chunk, a NUL, and what was there before. */
  function Slot(chunk: string, before: string): (r: string)
    requires |chunk| <= TS_SIZE == |before|
    ensures |r| == TS_SIZE
  {
    if |chunk| == TS_SIZE then chunk else chunk + "\0" + before[|chunk| + 1..]
  }

  /** The records that open_heartbeat copies from a file, malformed ones included; rbuf is what its buffer holds
      first. */
  function Records(s: string, rbuf: string): seq<string>
    requires |rbuf| == TS_SIZE
    decreases |s|
  {
    if s == [] then []
    else
      var r := Slot(s[..ChunkSize(s)], rbuf);
      [r] + Records(s[ChunkSize(s)..], r)
  }

  function Last(s: seq<string>, n: nat): seq<string> { if |s| <= n then s else s[|s| - n..] }

  /** Writing over the start of a file leaves what lies beyond. */
  function Overlay<T>(new_: seq<T>, old_: seq<T>): seq<T> { new_ + if |new_| < |old_| then old_[|new_|..] else [] }

  // ----- the ring -----

  /** The records of a ring buffer from its logical start to its logical end. */
  function View(slots: seq<string>, lastts: nat, nrts: nat): seq<string>
    requires lastts < |slots| && nrts <= |slots|
  {
    if nrts == |slots| then slots[lastts..] + slots[..lastts] else slots[..nrts]
  }

  /** Storing a record and moving on keeps the last records in order. */
  lemma ViewPut(slots: seq<string>, lastts: nat, nrts: nat, r: string)
    requires lastts < |slots| && nrts <= |slots| && (nrts < |slots| ==> lastts == nrts)
    ensures View(slots[lastts := r], (lastts + 1) % |slots|, if nrts < |slots| then nrts + 1 else nrts)
         == Last(View(slots, lastts, nrts) + [r], |slots|)
  {
    var slots', next := slots[lastts := r], if lastts + 1 < |slots| then lastts + 1 else 0;
    WrapAround(lastts, |slots|);
    if nrts == |slots| {
      var old_ := View(slots, lastts, nrts);
      assert Last(old_ + [r], |slots|) == old_[1..] + [r];
      ViewPutFull(slots, lastts, r);
    } else if nrts + 1 == |slots| {
      assert slots'[0..] + slots'[..0] == slots' == slots[..nrts] + [r];
    } else {
      assert slots'[..nrts + 1] == slots[..nrts] + [r];
    }
  }

  /** In a full ring the oldest record is overwritten. */
  lemma ViewPutFull(slots: seq<string>, lastts: nat, r: string)
    requires lastts < |slots|
    ensures var next := if lastts + 1 < |slots| then lastts + 1 else 0;
            View(slots[lastts := r], next, |slots|) == View(slots, lastts, |slots|)[1..] + [r]
  {
    var slots' := slots[lastts := r];
    var before, behind := slots[..lastts], slots[lastts + 1..];
    assert slots[lastts..] == [slots[lastts]] + behind;
    assert View(slots, lastts, |slots|)[1..] == behind + before;
    assert slots'[..lastts + 1] == before + [r];
    if lastts + 1 < |slots| {
      assert slots'[lastts + 1..] == behind;
      MoveAll(behind, before, [r]);
    } else {
      assert slots'[0..] + slots'[..0] == slots' == before + [r];
      assert behind + before == before;
    }
  }

  lemma WrapAround(i: nat, n: nat)
    requires i < n
    ensures (i + 1) % n == if i + 1 < n then i + 1 else 0
  {
  }

  class Ring {
    const capacity: nat       // hbstamps
    const slots: array<string>
    var lastts: nat
    var nrts: nat
    ghost var history: seq<string>

    ghost predicate Valid()
      reads this, slots
    {
      && 0 < capacity == slots.Length && lastts < capacity && nrts <= capacity
      && (nrts < capacity ==> lastts == nrts)
      && View(slots[..], lastts, nrts) == Last(history, capacity)
    }

    constructor (capacity: nat)
      requires 0 < capacity
      ensures Valid() && history == [] && this.capacity == capacity && fresh(slots)
    {
      this.capacity := capacity;
      slots := new string[capacity](_ => "");
      lastts, nrts, history := 0, 0, [];
    }

    /** Store a record, then next_value. */
    method Put(r: string)
      requires Valid()
      modifies this, slots
      ensures Valid() && history == old(history) + [r]
    {
      ViewPut(slots[..], lastts, nrts, r);
      LastLast(history, [r], capacity);
      WrapAround(lastts, capacity);
      slots[lastts] := r;
      assert slots[..] == old(slots[..])[lastts := r];
      if nrts < capacity { nrts := nrts + 1; }
      lastts := (lastts + 1) % capacity;
      assert View(slots[..], lastts, nrts) == Last(Last(history, capacity) + [r], capacity);
      history := history + [r];
    }

    /** Read the old records of a file, as open_heartbeat does. */
    method Load(file: string, junk: string)
      requires Valid() && |junk| == TS_SIZE
      modifies this, slots
      ensures Valid() && history == old(history) + Records(file, junk)
    {
      LoadLines(file, junk, RestOf(file));
      assert file[0..] == file;
    }

    /** The loop; rest(p, rbuf) stands for the records from position p on. */
    method LoadLines(file: string, junk: string, ghost rest: Rest)
      requires Valid() && |junk| == TS_SIZE && Describes(rest, file)
      modifies this, slots
      ensures Valid() && history == old(history) + rest(0, junk)
    {
      var pos, rbuf := 0, junk;
      while pos < |file|
        invariant pos <= |file| && |rbuf| == TS_SIZE && Valid()
        invariant history + rest(pos, rbuf) == old(history) + rest(0, junk)
      {
        var n, r := LoadOne(file, pos, rbuf, rest);
        pos, rbuf := pos + n, r;
      }
      NothingLeft(rest, file, rbuf);
    }

    /** One round: fgets, memcpy and next_value. */
    method LoadOne(file: string, pos: nat, rbuf: string, ghost rest: Rest) returns (n: nat, r: string)
      requires Valid() && pos < |file| && |rbuf| == TS_SIZE && Describes(rest, file)
      modifies this, slots
      ensures Valid() && 0 < n <= |file| - pos && |r| == TS_SIZE
      ensures history + rest(pos + n, r) == old(history) + rest(pos, rbuf)
    {
      n := ChunkSize(file[pos..]);
      RecordsStep(file, pos, n, rbuf);
      r := Slot(file[pos..pos + n], rbuf);
      MoveOne(history, r, Records(file[pos + n..], r));
      Put(r);
    }

    /** The bytes that write_heartbeat writes: logical start to physical end, then physical start to logical end. */
    method Emit() returns (out: string)
      requires Valid()
      ensures out == Bytes(Last(history, capacity))
    {
      if nrts == capacity {
        var a := FlattenSlots(lastts, capacity);
        var b := FlattenSlots(0, lastts);
        assert slots[..][lastts..] == slots[lastts..capacity] && slots[..][..lastts] == slots[0..lastts];
        BytesConcat(slots[lastts..capacity], slots[0..lastts]);
        out := a + b;
      } else {
        out := FlattenSlots(0, nrts);
        assert slots[..][..nrts] == slots[0..nrts];
      }
    }

    /** fwrite of the slots from lo up to hi. */
    method FlattenSlots(lo: nat, hi: nat) returns (out: string)
      requires lo <= hi <= slots.Length
      ensures out == Bytes(slots[lo..hi])
    {
      out := "";
      for i := lo to hi
        invariant out == Bytes(slots[lo..i])
      {
        assert slots[lo..i + 1] == slots[lo..i] + [slots[i]];
        BytesConcat(slots[lo..i], [slots[i]]);
        assert Bytes([slots[i]]) == slots[i];
        out := out + slots[i];
      }
    }
  }

  /** The records from each position of a file on, with what the line buffer holds there. */
  type Rest = (nat, string) -> seq<string>

  ghost function RestOf(file: string): (rest: Rest)
    ensures Describes(rest, file)
  {
    (p: nat, rbuf: string) => if p <= |file| && |rbuf| == TS_SIZE then Records(file[p..], rbuf) else []
  }

  ghost predicate Describes(rest: Rest, file: string)
  {
    forall p: nat, rbuf: string {:trigger Records(file[p..], rbuf)} | p <= |file| && |rbuf| == TS_SIZE ::
      rest(p, rbuf) == Records(file[p..], rbuf)
  }

  lemma NothingLeft(rest: Rest, file: string, rbuf: string)
    requires |rbuf| == TS_SIZE && Describes(rest, file)
    ensures rest(|file|, rbuf) == []
  {
    assert Records(file[|file|..], rbuf) == [];
  }

  lemma RecordsStep(file: string, pos: nat, n: nat, rbuf: string)
    requires pos < |file| && n == ChunkSize(file[pos..]) && |rbuf| == TS_SIZE
    ensures var r := Slot(file[pos..pos + n], rbuf);
            Records(file[pos..], rbuf) == [r] + Records(file[pos + n..], r)
  {
    assert file[pos..][..n] == file[pos..pos + n] && file[pos..][n..] == file[pos + n..];
  }

  lemma TakeOne(a: seq<string>, b: seq<string>, i: nat)
    requires i < |b|
    ensures (a + b[..i]) + [b[i]] == a + b[..i + 1]
  {
  }

  lemma MoveOne(a: seq<string>, x: string, b: seq<string>)
    ensures (a + [x]) + b == a + ([x] + b)
  {
  }

  lemma LastLast(a: seq<string>, b: seq<string>, n: nat)
    ensures Last(Last(a, n) + b, n) == Last(a + b, n)
  {
  }

  lemma {:induction false} BytesConcat(a: seq<string>, b: seq<string>)
    ensures Bytes(a + b) == Bytes(a) + Bytes(b)
  {
    if a == [] {
      assert a + b == b;
    } else {
      BytesConcat(a[1..], b);
      assert (a + b)[1..] == a[1..] + b;
      ConcatAssoc(a[0], Bytes(a[1..]), Bytes(b));
    }
  }

  lemma ConcatAssoc(a: string, b: string, c: string)
    ensures a + (b + c) == (a + b) + c
  {
  }

  // ----- the file -----

  /** An open heartbeat file. */
  class Monitor {
    const ring: Ring
    var file: string

    ghost predicate Valid()
      reads this, ring, ring.slots
    {
      ring.Valid()
    }

    /** open_heartbeat: read the old records, then note the restart. */
    constructor (capacity: nat, file: string, junk: string)
      requires 0 < capacity && |junk| == TS_SIZE
      ensures Valid() && this.file == file && fresh(ring) && fresh(ring.slots)
      ensures ring.capacity == capacity && ring.history == Records(file, junk) + [RESTART]
    {
      var r := new Ring(capacity);
      r.Load(file, junk);
      r.Put(RESTART);
      ring := r;
      this.file := file;
    }

    /** write_heartbeat: emit exactly the end of the history, oldest first; without a time nothing happens. */
    method Write(stamp: Option<string>)
      requires Valid()
      modifies this, ring, ring.slots
      ensures Valid() && ring.history == old(ring.history) + if stamp.Some? then [stamp.value] else []
      ensures file == if stamp.Some? then Overlay(Bytes(Last(ring.history, ring.capacity)), old(file)) else old(file)
    {
      if stamp.None? { return; }
      ring.Put(stamp.value);
      var out := ring.Emit();
      file := out + if |out| < |file| then file[|out|..] else [];
    }

    /** A session on a file of records: the bytes are those of the records that Session describes. */
    method WriteAll(stamps: seq<string>, ghost disk: seq<string>)
      requires Valid() && AllRecords(disk) && AllRecords(stamps)
      requires file == Bytes(disk) && ring.history == disk + [RESTART]
      modifies this, ring, ring.slots
      ensures Valid() && file == Bytes(Session(ring.capacity, disk, stamps))
    {
      for i := 0 to |stamps|
        invariant Valid() && ring.history == disk + [RESTART] + stamps[..i]
        invariant file == Bytes(Session(ring.capacity, disk, stamps[..i]))
      {
        SessionStep(ring.capacity, disk, stamps, i);
        TakeOne(disk + [RESTART], stamps, i);
        Write(Some(stamps[i]));
      }
      assert stamps[..|stamps|] == stamps;
    }
  }

  // ----- runs of sessions -----

  lemma {:induction false} BytesLength(rs: seq<string>)
    requires AllRecords(rs)
    ensures |Bytes(rs)| == TS_SIZE * |rs|
  {
    if rs != [] { BytesLength(rs[1..]); }
  }

  lemma {:induction false} ChunkOfRecord(r: string, rest: string, i: nat)
    requires IsRecord(r) && i < TS_SIZE
    ensures ChunkUpTo(r[i..] + rest, TS_SIZE - i) == TS_SIZE - i
    decreases TS_SIZE - i
  {
    var s := r[i..] + rest;
    if i < TS_SIZE - 1 {
      ChunkOfRecord(r, rest, i + 1);
      assert s[1..] == r[i + 1..] + rest;
    }
  }

  /** Reading a file of records gives the records, whatever the buffer held. */
  lemma {:induction false} RecordsOfBytes(rs: seq<string>, rbuf: string)
    requires AllRecords(rs) && |rbuf| == TS_SIZE
    ensures Records(Bytes(rs), rbuf) == rs
  {
    if rs != [] {
      var rest := Bytes(rs[1..]);
      ChunkOfRecord(rs[0], rest, 0);
      assert rs[0][0..] == rs[0];
      assert (rs[0] + rest)[..TS_SIZE] == rs[0] && (rs[0] + rest)[TS_SIZE..] == rest;
      RecordsOfBytes(rs[1..], rs[0]);
    }
  }

  /** Writing over whole records: on bytes as on records. */
  lemma OverlayBytes(new_: seq<string>, old_: seq<string>)
    requires AllRecords(new_) && AllRecords(old_)
    ensures Overlay(Bytes(new_), Bytes(old_)) == Bytes(Overlay(new_, old_))
  {
    BytesLength(new_);
    BytesLength(old_);
    if |new_| < |old_| {
      var head, tail := old_[..|new_|], old_[|new_|..];
      assert old_ == head + tail;
      BytesConcat(head, tail);
      BytesLength(head);
      assert Bytes(old_)[|Bytes(new_)|..] == Bytes(tail);
      BytesConcat(new_, tail);
    } else {
      assert new_ + [] == new_ && Bytes(new_) + [] == Bytes(new_);
    }
  }

  /** The records in the file after a session: it opens on `disk`, then writes the stamps one by one. */
  function Session(n: nat, disk: seq<string>, stamps: seq<string>): seq<string>
  {
    if stamps == [] then disk
    else Overlay(Last(disk + [RESTART] + stamps, n), Session(n, disk, stamps[..|stamps| - 1]))
  }

  lemma {:induction false} SessionRecords(n: nat, disk: seq<string>, stamps: seq<string>)
    requires AllRecords(disk) && AllRecords(stamps)
    ensures AllRecords(Last(disk + [RESTART] + stamps, n)) && AllRecords(Session(n, disk, stamps))
  {
    assert IsRecord(RESTART);
    if stamps != [] { SessionRecords(n, disk, stamps[..|stamps| - 1]); }
  }

  /** On a new file a session writes the restart mark and then its stamps, while there is room for all of them. */
  lemma FreshFile(n: nat, stamps: seq<string>)
    requires stamps != [] && |stamps| < n
    ensures Bytes(Session(n, [], stamps)) == "--restart--\n" + Bytes(stamps)
  {
    var written := [RESTART] + stamps;
    SessionLeaves(n, [], stamps);
    assert [] + [RESTART] + stamps == written == written + [];
    assert written[1..] == stamps;
  }

  lemma SessionStep(n: nat, disk: seq<string>, stamps: seq<string>, i: nat)
    requires i < |stamps| && AllRecords(disk) && AllRecords(stamps)
    ensures Bytes(Session(n, disk, stamps[..i + 1]))
         == Overlay(Bytes(Last(disk + [RESTART] + stamps[..i + 1], n)), Bytes(Session(n, disk, stamps[..i])))
  {
    assert stamps[..i + 1][..i] == stamps[..i];
    SessionRecords(n, disk, stamps[..i]);
    SessionRecords(n, disk, stamps[..i + 1]);
    OverlayBytes(Last(disk + [RESTART] + stamps[..i + 1], n), Session(n, disk, stamps[..i]));
  }

  /** A session that wrote at least once leaves the last n of old records, restart mark and stamps; records of the old
      file beyond the first n stay behind it. */
  lemma {:induction false} SessionLeaves(n: nat, disk: seq<string>, stamps: seq<string>)
    requires 0 < n && stamps != []
    ensures Session(n, disk, stamps) == Last(disk + [RESTART] + stamps, n) + if |disk| <= n then [] else disk[n..]
  {
    var k := |stamps| - 1;
    var out := Last(disk + [RESTART] + stamps, n);
    if k == 0 {
      assert stamps[..k] == [];
    } else {
      SessionLeaves(n, disk, stamps[..k]);
      var before := Last(disk + [RESTART] + stamps[..k], n);
      assert |before| <= |out|;
      if |disk| > n { assert Session(n, disk, stamps[..k])[n..] == disk[n..]; }
    }
  }

  /** The file then equals the end of the history exactly when the old file had at most n records. */
  lemma SessionExactly(n: nat, disk: seq<string>, stamps: seq<string>)
    requires 0 < n && stamps != []
    ensures Session(n, disk, stamps) == Last(disk + [RESTART] + stamps, n) <==> |disk| <= n
  {
    SessionLeaves(n, disk, stamps);
  }

  /** Open and close, again and again. */
  function Sessions(n: nat, disk: seq<string>, runs: seq<seq<string>>): seq<string>
  {
    if runs == [] then disk else Session(n, Sessions(n, disk, runs[..|runs| - 1]), runs[|runs| - 1])
  }

  /** The plain history: every session that wrote adds its restart mark and its stamps. */
  function Story(runs: seq<seq<string>>): seq<string>
  {
    if runs == [] then []
    else Story(runs[..|runs| - 1]) + if runs[|runs| - 1] == [] then [] else [RESTART] + runs[|runs| - 1]
  }

  lemma {:induction false} SessionNeverShrinks(n: nat, disk: seq<string>, stamps: seq<string>)
    ensures |Session(n, disk, stamps)| >= |disk|
  {
    if stamps != [] { SessionNeverShrinks(n, disk, stamps[..|stamps| - 1]); }
  }

  lemma {:induction false} FileNeverShrinks(n: nat, disk: seq<string>, runs: seq<seq<string>>)
    ensures |Sessions(n, disk, runs)| >= |disk|
  {
    if runs != [] {
      var k := |runs| - 1;
      FileNeverShrinks(n, disk, runs[..k]);
      SessionNeverShrinks(n, Sessions(n, disk, runs[..k]), runs[k]);
    }
  }

  /** Across any number of sessions the file holds the last n records of the old file and the whole history, exactly
      when the old file had at most n records. */
  lemma FileIsEndOfHistory(n: nat, disk: seq<string>, runs: seq<seq<string>>)
    requires 0 < n
    ensures Sessions(n, disk, runs) == Last(disk + Story(runs), n) <==> |disk| <= n
  {
    if |disk| <= n { ShortFileIsEndOfHistory(n, disk, runs); } else { FileNeverShrinks(n, disk, runs); }
  }

  lemma {:induction false} ShortFileIsEndOfHistory(n: nat, disk: seq<string>, runs: seq<seq<string>>)
    requires 0 < n && |disk| <= n
    ensures Sessions(n, disk, runs) == Last(disk + Story(runs), n)
  {
    if runs == [] {
      assert disk + Story(runs) == disk;
    } else {
      var k := |runs| - 1;
      var before, stamps := Sessions(n, disk, runs[..k]), runs[k];
      ShortFileIsEndOfHistory(n, disk, runs[..k]);
      var told := disk + Story(runs[..k]);
      if stamps == [] {
        assert Story(runs) == Story(runs[..k]);
      } else {
        SessionExactly(n, before, stamps);
        EndOfBoth(n, told, stamps);
        MoveAll(disk, Story(runs[..k]), [RESTART] + stamps);
      }
    }
  }

  predicate AllRuns(runs: seq<seq<string>>) { forall i | 0 <= i < |runs| :: AllRecords(runs[i]) }

  /** One session: open the file, write the stamps, close it. */
  method RunSession(capacity: nat, file: string, stamps: seq<string>, junk: string, ghost disk: seq<string>)
    returns (file': string)
    requires 0 < capacity && |junk| == TS_SIZE && AllRecords(disk) && AllRecords(stamps) && file == Bytes(disk)
    ensures file' == Bytes(Session(capacity, disk, stamps)) && AllRecords(Session(capacity, disk, stamps))
  {
    var monitor := new Monitor(capacity, file, junk);
    RecordsOfBytes(disk, junk);
    monitor.WriteAll(stamps, disk);
    SessionRecords(capacity, disk, stamps);
    file' := monitor.file;
  }

  /** The daemon started and stopped again and again on one file of records. */
  method RunSessions(
    capacity: nat, file: string, runs: seq<seq<string>>, junk: string, ghost disk: seq<string>
  ) returns (file': string)
    requires 0 < capacity && |junk| == TS_SIZE && AllRecords(disk) && AllRuns(runs) && file == Bytes(disk)
    ensures file' == Bytes(Sessions(capacity, disk, runs))
    ensures |disk| <= capacity ==> file' == Bytes(Last(disk + Story(runs), capacity))
  {
    file' := file;
    for i := 0 to |runs|
      invariant file' == Bytes(Sessions(capacity, disk, runs[..i])) && AllRecords(Sessions(capacity, disk, runs[..i]))
    {
      assert runs[..i + 1][..i] == runs[..i];
      file' := RunSession(capacity, file', runs[i], junk, Sessions(capacity, disk, runs[..i]));
    }
    assert runs[..|runs|] == runs;
    FileIsEndOfHistory(capacity, disk, runs);
  }

  lemma EndOfBoth(n: nat, told: seq<string>, stamps: seq<string>)
    ensures Last(Last(told, n) + [RESTART] + stamps, n) == Last(told + ([RESTART] + stamps), n)
  {
    LastLast(told, [RESTART] + stamps, n);
    MoveAll(Last(told, n), [RESTART], stamps);
  }

  lemma MoveAll(a: seq<string>, b: seq<string>, c: seq<string>)
    ensures (a + b) + c == a + (b + c)
  {
  }
}
