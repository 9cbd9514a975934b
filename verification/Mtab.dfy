/** Rewriting the mount table (update_mtab in src/fstab.c), through its bytes. */
module Mtab {
  import opened Common
  import opened Mntent
  import opened MntFile

  /** The record given for a remount; its text fields other than the directory may be NULL. */
  datatype Remount =
    Remount(fsname: Option<string>, dir: string, kind: Option<string>, opts: Option<string>, freq: int, passno: int)

  /** mangle(NULL) prints as "none". */
  function OrNone(s: Option<string>): string { if s.Some? then s.value else "none" }

  /** The record as it is printed when no entry matched. */
  function AsEntry(m: Remount): Entry
  {
    Entry(OrNone(m.fsname), m.dir, OrNone(m.kind), OrNone(m.opts), m.freq, m.passno)
  }

  /** A matching entry keeps its device and type and takes the rest from the record. */
  function Merge(e: Entry, m: Remount): Entry { AsEntry(m).(fsname := e.fsname, kind := e.kind) }

  /** What one entry of the old table becomes. */
  function Replace(e: Entry, dir: string, instead: Option<Remount>): seq<Entry>
  {
    if e.dir != dir then [e] else if instead.None? then [] else [Merge(e, instead.value)]
  }

  function ReplaceAll(es: seq<Entry>, dir: string, instead: Option<Remount>): seq<Entry>
  {
    if es == [] then [] else Replace(es[0], dir, instead) + ReplaceAll(es[1..], dir, instead)
  }

  predicate Mentions(es: seq<Entry>, dir: string) { exists i | 0 <= i < |es| :: es[i].dir == dir }

  /** The entries of the new table. */
  function Rewrite(es: seq<Entry>, dir: string, instead: Option<Remount>): seq<Entry>
  {
    ReplaceAll(es, dir, instead) + if instead.Some? && !Mentions(es, dir) then [AsEntry(instead.value)] else []
  }

  function UpdateText(text: string, dir: string, instead: Option<Remount>): string
  {
    PrintAll(Rewrite(ReadAll(Open(text)), dir, instead))
  }

  // ----- the loop -----

  /** What goes wrong: can the two files be opened, which write fails and after how many characters, how much of the
      last line arrives if closing the file fails, and does the rename work. */
  datatype Faults = Faults(open: bool, create: bool, write: Option<nat>, partial: nat, close: Option<nat>, rename: bool)

  const NO_FAULTS := Faults(true, true, None, 0, None, true)

  function FaultAt(io: Faults, w: nat): Option<nat> { if io.write == Some(w) then Some(io.partial) else None }

  /** No write before the one with number w failed. */
  predicate WritesOk(io: Faults, w: nat) { io.write.Some? ==> w <= io.write.value }

  /** The file has these entries printed, of which all but the last have been flushed. */
  ghost predicate Printed(tmp: File, es: seq<Entry>)
    reads tmp
  {
    && tmp.Valid() && tmp.text == PrintAll(es)
    && tmp.flushed == if es == [] then 0 else |PrintAll(es[..|es| - 1])|
  }

  /** The write with number k. */
  method Append(tmp: File, e: Entry, io: Faults, k: nat, ghost done: seq<Entry>) returns (died: bool)
    requires Printed(tmp, done) && NulFree(e) && WritesOk(io, k)
    modifies tmp`text, tmp`flushed
    ensures died == !WritesOk(io, k + 1) && (!died ==> Printed(tmp, done + [e]))
    ensures died <==> io.write == Some(k)
  {
    PrintAppend(done, e);
    assert (done + [e])[..|done|] == done;
    var res := tmp.AddMntEnt(e, FaultAt(io, k));
    died := res == 1;
  }

  /** Write what an entry becomes to the new file, after k writes; a write that fails ends the program. */
  method CopyEntry(
    tmp: File, e: Entry, dir: string, instead: Option<Remount>, io: Faults, k: nat, ghost done: seq<Entry>
  ) returns (died: bool, k': nat)
    requires Printed(tmp, ReplaceAll(done, dir, instead))
    requires k == |ReplaceAll(done, dir, instead)| && WritesOk(io, k)
    requires NulFree(e) && (instead.Some? ==> NulFree(AsEntry(instead.value)))
    modifies tmp`text, tmp`flushed
    ensures died <==> Replace(e, dir, instead) != [] && io.write == Some(k)
    ensures !died ==> Printed(tmp, ReplaceAll(done + [e], dir, instead))
    ensures !died ==> k' == |ReplaceAll(done + [e], dir, instead)| && WritesOk(io, k')
  {
    ReplaceSnoc(done, e, dir, instead);
    if e.dir == dir && instead.None? {
      assert ReplaceAll(done, dir, instead) + [] == ReplaceAll(done, dir, instead);
      return false, k;
    }
    var next := if e.dir == dir then Merge(e, instead.value) else e;
    died := Append(tmp, next, io, k, ReplaceAll(done, dir, instead));
    k' := k + 1;
  }

  /** The next entry, as the head of everything still to come. */
  method Fetch(mfp: File) returns (mnt: Option<Entry>)
    requires mfp.Valid()
    modifies mfp
    ensures mfp.Valid() && (mnt.Some? ==> NulFree(mnt.value))
    ensures ReadAll(old(mfp.State())) == if mnt.None? then [] else [mnt.value] + ReadAll(mfp.State())
  {
    mnt := mfp.GetMntEnt();
  }

  /** What the copying loop has made of the entries so far: `added` counts those at dir, and k the writes. */
  ghost predicate Copied(
    tmp: File, done: seq<Entry>, dir: string, instead: Option<Remount>, io: Faults, added: nat, k: nat
  )
    reads tmp
  {
    && Printed(tmp, ReplaceAll(done, dir, instead)) && (added > 0 <==> Mentions(done, dir))
    && k == |ReplaceAll(done, dir, instead)| && WritesOk(io, k)
  }

  /** One round of the loop. */
  method CopyOne(
    tmp: File, e: Entry, dir: string, instead: Option<Remount>, io: Faults, added: nat, k: nat, ghost done: seq<Entry>
  ) returns (added': nat, k': nat, died: bool)
    requires Copied(tmp, done, dir, instead, io, added, k)
    requires NulFree(e) && (instead.Some? ==> NulFree(AsEntry(instead.value)))
    modifies tmp`text, tmp`flushed
    ensures died <==> !WritesOk(io, |ReplaceAll(done + [e], dir, instead)|)
    ensures !died ==> Copied(tmp, done + [e], dir, instead, io, added', k')
  {
    MentionsSnoc(done, e, dir);
    ReplaceSnoc(done, e, dir, instead);
    added' := if e.dir == dir then added + 1 else added;
    died, k' := CopyEntry(tmp, e, dir, instead, io, k, done);
  }

  /** The copying loop of update_mtab. */
  method CopyTable(mfp: File, tmp: File, dir: string, instead: Option<Remount>, io: Faults)
    returns (added: nat, k: nat, died: bool)
    requires mfp.Valid() && mfp != tmp && Printed(tmp, [])
    requires instead.Some? ==> NulFree(AsEntry(instead.value))
    modifies mfp, tmp`text, tmp`flushed
    ensures var es := ReadAll(old(mfp.State()));
            && (died <==> !WritesOk(io, |ReplaceAll(es, dir, instead)|))
            && (!died ==> Copied(tmp, es, dir, instead, io, added, k))
  {
    ghost var all := ReadAll(mfp.State());
    ghost var done: seq<Entry> := [];
    added, k, died := 0, 0, false;
    var mnt := Fetch(mfp);
    ghost var todo := all;
    while mnt.Some?
      invariant mfp.Valid() && !died
      invariant mnt.Some? ==> NulFree(mnt.value)
      invariant done + todo == all
      invariant todo == if mnt.None? then [] else [mnt.value] + ReadAll(mfp.State())
      invariant Copied(tmp, done, dir, instead, io, added, k)
      decreases |todo|
    {
      MoveOne(done, todo);
      WritesAhead(done + [mnt.value], todo[1..], dir, instead);
      added, k, died := CopyOne(tmp, mnt.value, dir, instead, io, added, k, done);
      if died { return; }
      done, todo := done + [mnt.value], todo[1..];
      mnt := Fetch(mfp);
    }
    assert done == all;
  }

  /** The loop, and the record behind it if no entry matched. */
  method WriteTable(mfp: File, tmp: File, dir: string, instead: Option<Remount>, io: Faults) returns (died: bool)
    requires mfp.Valid() && mfp != tmp && Printed(tmp, [])
    requires instead.Some? ==> NulFree(AsEntry(instead.value))
    modifies mfp, tmp`text, tmp`flushed
    ensures var r := Rewrite(ReadAll(old(mfp.State())), dir, instead);
            (died <==> !WritesOk(io, |r|)) && (!died ==> Printed(tmp, r))
  {
    ghost var es := ReadAll(mfp.State());
    RewriteCases(es, dir, instead);
    var added, k;
    added, k, died := CopyTable(mfp, tmp, dir, instead, io);
    if !died && instead.Some? && added == 0 {
      died := Append(tmp, AsEntry(instead.value), io, k, ReplaceAll(es, dir, instead));
    }
  }

  lemma RewriteCases(es: seq<Entry>, dir: string, instead: Option<Remount>)
    ensures Rewrite(es, dir, instead) == if instead.Some? && !Mentions(es, dir)
                                         then ReplaceAll(es, dir, instead) + [AsEntry(instead.value)]
                                         else ReplaceAll(es, dir, instead)
  {
    assert ReplaceAll(es, dir, instead) + [] == ReplaceAll(es, dir, instead);
  }

  /** What is still to come can only make more writes. */
  lemma WritesAhead(done: seq<Entry>, todo: seq<Entry>, dir: string, instead: Option<Remount>)
    ensures |ReplaceAll(done + todo, dir, instead)| >= |ReplaceAll(done, dir, instead)|
  {
    ReplaceConcat(done, todo, dir, instead);
  }

  lemma {:induction false} ReplaceConcat(a: seq<Entry>, b: seq<Entry>, dir: string, instead: Option<Remount>)
    ensures |ReplaceAll(a + b, dir, instead)| == |ReplaceAll(a, dir, instead)| + |ReplaceAll(b, dir, instead)|
  {
    if a == [] {
      assert a + b == b;
    } else {
      ReplaceConcat(a[1..], b, dir, instead);
      assert (a + b)[1..] == a[1..] + b;
    }
  }

  lemma MoveOne(a: seq<Entry>, b: seq<Entry>)
    requires b != []
    ensures (a + [b[0]]) + b[1..] == a + b
  {
  }

  /** The table file; `exists` and `symlink` are what get_mtab_info found out. */
  class Table {
    const exists_: bool
    const symlink: bool
    var text: string

    constructor (exists_: bool, symlink: bool, text: string)
      ensures this.exists_ == exists_ && this.symlink == symlink && this.text == text
    {
      this.exists_, this.symlink, this.text := exists_, symlink, text;
    }

    /** The file is there and is not a symlink, say to /proc/mounts. */
    predicate Kept() { exists_ && !symlink }

    /** update_mtab: the table is left as it is, or becomes what is on the disk when the new one has been closed. That
        is the whole new table unless closing fails, which goes unnoticed. */
    method UpdateMtab(dir: string, instead: Option<Remount>, io: Faults) returns (died: bool)
      requires instead.Some? ==> NulFree(AsEntry(instead.value))
      modifies this
      ensures died <==> exists_ && !symlink && io.open && io.create
                        && !WritesOk(io, |Rewrite(ReadAll(Open(old(text))), dir, instead)|)
      ensures text == if exists_ && !symlink && io.open && io.create && !died && io.rename
                      then Closed(Rewrite(ReadAll(Open(old(text))), dir, instead), io.close)
                      else old(text)
      ensures io.close.None? ==> text == old(text) || text == UpdateText(old(text), dir, instead)
    {
      if !Kept() || !io.open || !io.create { return false; }
      var mfp := new File(text);
      var tmp := new File("");
      ghost var r := Rewrite(ReadAll(Open(text)), dir, instead);
      died := WriteTable(mfp, tmp, dir, instead, io);
      if died { return; }
      var disk := CloseTable(tmp, io.close, r);
      if io.rename { text := disk; }
    }
  }

  method CloseTable(tmp: File, fault: Option<nat>, ghost es: seq<Entry>) returns (disk: string)
    requires Printed(tmp, es)
    ensures disk == Closed(es, fault)
  {
    if es != [] { LastLine(es); }
    disk := tmp.Close(fault);
  }

  lemma LastLine(es: seq<Entry>)
    requires es != []
    ensures var k := |es| - 1;
            var n := |PrintAll(es[..k])|;
            && n <= |PrintAll(es)| && PrintAll(es)[..n] == PrintAll(es[..k])
            && PrintAll(es)[n..] == Line(es[k]) + "\n"
  {
    var k := |es| - 1;
    PrintAppend(es[..k], es[k]);
    assert es[..k] + [es[k]] == es;
    CutConcat(PrintAll(es[..k]), Line(es[k]), "\n");
  }

  lemma CutConcat(a: string, b: string, c: string)
    ensures (a + b + c)[..|a|] == a && (a + b + c)[|a|..] == b + c
  {
  }

  /** What a table file holds once it has been closed: with a fault, of the last line only the start. */
  function Closed(es: seq<Entry>, fault: Option<nat>): string
  {
    if fault.None? || es == [] then PrintAll(es)
    else
      var k := |es| - 1;
      PrintAll(es[..k]) + Start(Line(es[k]) + "\n", fault.value)
  }

  lemma {:induction false} ReplaceSnoc(es: seq<Entry>, e: Entry, dir: string, instead: Option<Remount>)
    ensures ReplaceAll(es + [e], dir, instead) == ReplaceAll(es, dir, instead) + Replace(e, dir, instead)
  {
    if es == [] {
      assert es + [e] == [e] && [e][1..] == [];
    } else {
      ReplaceSnoc(es[1..], e, dir, instead);
      assert (es + [e])[1..] == es[1..] + [e];
      var a, b, c := Replace(es[0], dir, instead), ReplaceAll(es[1..], dir, instead), Replace(e, dir, instead);
      assert a + (b + c) == (a + b) + c;
    }
  }

  lemma MentionsSnoc(es: seq<Entry>, e: Entry, dir: string)
    ensures Mentions(es + [e], dir) <==> Mentions(es, dir) || e.dir == dir
  {
    if e.dir == dir { assert (es + [e])[|es|].dir == dir; }
    if Mentions(es, dir) {
      var i :| 0 <= i < |es| && es[i].dir == dir;
      assert (es + [e])[i].dir == dir;
    }
  }

  // ----- what a reader finds afterwards -----

  /** The entries whose directory is not in the set, in order. */
  function Minus(es: seq<Entry>, dirs: set<string>): seq<Entry>
  {
    if es == [] then [] else (if es[0].dir in dirs then [] else [es[0]]) + Minus(es[1..], dirs)
  }

  predicate AllWellFormed(es: seq<Entry>) { forall i | 0 <= i < |es| :: WellFormed(es[i]) }

  predicate AllFit(es: seq<Entry>) { forall i | 0 <= i < |es| :: FitsBuffer(es[i]) }

  lemma {:induction false} MinusFacts(es: seq<Entry>, dirs: set<string>)
    ensures AllWellFormed(es) ==> AllWellFormed(Minus(es, dirs))
    ensures AllFit(es) ==> AllFit(Minus(es, dirs))
    ensures forall e :: e in Minus(es, dirs) <==> e in es && e.dir !in dirs
  {
    if es != [] {
      assert es == [es[0]] + es[1..];
      MinusFacts(es[1..], dirs);
    }
  }

  lemma {:induction false} MinusMinus(es: seq<Entry>, a: set<string>, b: set<string>)
    ensures Minus(Minus(es, a), b) == Minus(es, a + b)
  {
    if es != [] {
      MinusMinus(es[1..], a, b);
      if es[0].dir in a {
        assert Minus(es, a) == Minus(es[1..], a);
      } else {
        assert Minus(es, a)[1..] == Minus(es[1..], a);
      }
    }
  }

  lemma {:induction false} RemovalIsMinus(es: seq<Entry>, dir: string)
    ensures Rewrite(es, dir, None) == Minus(es, {dir})
  {
    if es != [] { RemovalIsMinus(es[1..], dir); }
  }

  /** Removing a directory: re-reading the file gives the old entries minus those at the directory, in order. */
  lemma RemovalReadsBack(text: string, dir: string)
    requires var es := ReadAll(Open(text)); AllWellFormed(es) && AllFit(es)
    ensures ReadAll(Open(UpdateText(text, dir, None))) == Minus(ReadAll(Open(text)), {dir})
  {
    var es := ReadAll(Open(text));
    RemovalIsMinus(es, dir);
    MinusFacts(es, {dir});
    RoundTripExactly(Minus(es, {dir}));
  }

  /** What a remount makes of a table, entry by entry. */
  lemma {:induction false} ReplaceAllShape(es: seq<Entry>, dir: string, m: Remount)
    ensures |ReplaceAll(es, dir, Some(m))| == |es|
    ensures forall i | 0 <= i < |es| ::
              ReplaceAll(es, dir, Some(m))[i] == if es[i].dir == dir then Merge(es[i], m) else es[i]
  {
    if es != [] { ReplaceAllShape(es[1..], dir, m); }
  }

  /** Matching entries keep device and type and take the rest from the record; without a match the record is appended
      once. */
  lemma RemountShape(es: seq<Entry>, dir: string, m: Remount)
    ensures var r, opts := Rewrite(es, dir, Some(m)), if m.opts.Some? then m.opts.value else "none";
            && |r| == |es| + (if Mentions(es, dir) then 0 else 1)
            && (forall i | 0 <= i < |es| ::
                  && (es[i].dir != dir ==> r[i] == es[i])
                  && (es[i].dir == dir ==>
                        r[i] == Entry(es[i].fsname, m.dir, es[i].kind, opts, m.freq, m.passno)))
            && (!Mentions(es, dir) ==>
                  r[|es|].dir == m.dir && r[|es|].opts == opts && r[|es|].freq == m.freq && r[|es|].passno == m.passno)
            && (!Mentions(es, dir) ==>
                  r[|es|].fsname == (if m.fsname.Some? then m.fsname.value else "none")
                  && r[|es|].kind == (if m.kind.Some? then m.kind.value else "none"))
  {
    ReplaceAllShape(es, dir, m);
  }

  lemma RemountWellFormed(es: seq<Entry>, dir: string, m: Remount)
    requires AllWellFormed(es) && WellFormed(AsEntry(m))
    ensures AllWellFormed(Rewrite(es, dir, Some(m)))
  {
    RemountShape(es, dir, m);
  }

  /** The merged line of every matching entry fits the reader's buffer. */
  predicate MergesFit(es: seq<Entry>, dir: string, m: Remount)
  {
    forall i | 0 <= i < |es| && es[i].dir == dir :: FitsBuffer(Merge(es[i], m))
  }

  lemma RemountFits(es: seq<Entry>, dir: string, m: Remount)
    requires AllFit(es) && FitsBuffer(AsEntry(m))
    ensures AllFit(Rewrite(es, dir, Some(m))) <==> MergesFit(es, dir, m)
  {
    RemountShape(es, dir, m);
    var r := Rewrite(es, dir, Some(m));
    if AllFit(r) {
      forall i | 0 <= i < |es| && es[i].dir == dir ensures FitsBuffer(Merge(es[i], m)) { assert FitsBuffer(r[i]); }
    }
  }

  /** With a representable table and record, re-reading after a remount gives the rewritten entries exactly when every
      merged line fits: device and type of the old entry with options of the new record can be too long together. */
  lemma RemountReadsBackExactly(text: string, dir: string, m: Remount)
    requires var es := ReadAll(Open(text)); AllWellFormed(es) && AllFit(es)
    requires Representable(AsEntry(m))
    ensures ReadAll(Open(UpdateText(text, dir, Some(m)))) == Rewrite(ReadAll(Open(text)), dir, Some(m))
       <==> MergesFit(ReadAll(Open(text)), dir, m)
  {
    var es := ReadAll(Open(text));
    RemountWellFormed(es, dir, m);
    RemountFits(es, dir, m);
    RoundTripExactly(Rewrite(es, dir, Some(m)));
  }

  // ----- a merge that does not fit -----

  lemma {:induction false} MangleLetters(s: string, c: char)
    requires !NeedsEscape(c) && forall i | 0 <= i < |s| :: s[i] == c
    ensures Mangle(s) == s
  {
    if s != [] { MangleLetters(s[1..], c); }
  }

  /** An entry on "m" of type "k" without frequency or pass. */
  function Sample(device: string, opts: string): Entry { Entry(device, "m", "k", opts, 0, 0) }

  lemma SampleLine(device: string, c: char, opts: string, d: char)
    requires c != '\0' && d != '\0' && !NeedsEscape(c) && !NeedsEscape(d)
    requires (forall i | 0 <= i < |device| :: device[i] == c) && (forall i | 0 <= i < |opts| :: opts[i] == d)
    ensures |Line(Sample(device, opts))| == |device| + |opts| + 9
  {
    var e := Sample(device, opts);
    MangleLetters(device, c);
    MangleLetters(opts, d);
    MangleLetters("m", 'm');
    MangleLetters("k", 'k');
    LineFromJoin(e, 0);
    assert Words(e)[0..] == Words(e);
    assert Word(e, 4) == Word(e, 5) == "0";
    assert LineFrom(e, 4) == "0" + (" " + LineFrom(e, 5));
    assert LineFrom(e, 3) == opts + (" " + LineFrom(e, 4));
    assert LineFrom(e, 2) == "k" + (" " + LineFrom(e, 3));
    assert LineFrom(e, 1) == "m" + (" " + LineFrom(e, 2));
    assert LineFrom(e, 0) == device + (" " + LineFrom(e, 1));
  }

  /** A table and a record that are representable, but whose merge is not read back. */
  lemma MergedLineTooLong()
    ensures var device, opts := seq(2100, _ => 'a'), seq(2100, _ => 'b');
            var e, m := Sample(device, "o"), Remount(Some("a"), "m", Some("k"), Some(opts), 0, 0);
            && Representable(e) && Representable(AsEntry(m))
            && ReadAll(Open(UpdateText(PrintAll([e]), "m", Some(m)))) != Rewrite([e], "m", Some(m))
  {
    var device, opts := seq(2100, _ => 'a'), seq(2100, _ => 'b');
    var e, m := Sample(device, "o"), Remount(Some("a"), "m", Some("k"), Some(opts), 0, 0);
    SampleLine(device, 'a', "o", 'o');
    SampleLine("a", 'a', opts, 'b');
    SampleLine(device, 'a', opts, 'b');
    assert AsEntry(m) == Sample("a", opts) && Merge(e, m) == Sample(device, opts);
    RoundTrip([e]);
    assert !MergesFit([e], "m", m) by { assert [e][0].dir == "m"; }
    RemountReadsBackExactly(PrintAll([e]), "m", m);
  }

  // ----- a close that fails -----

  /** A last line without a newline is no entry. */
  lemma ReadUnterminated(tail: string, soft: nat)
    requires OneLine(tail) && soft < ERR_MAX
    ensures ReadAll(Reader(tail, false, soft)) == []
  {
    var r := Reader(tail, false, soft);
    if tail != [] {
      assert ReadLine(tail).Broken?;
      var broken := Reader(ReadLine(tail).rest, true, soft + 1);
      assert TryLine(r) == Again(broken);
      assert Next(broken).entry == None;
      assert Next(r) == Next(broken);
    }
  }

  lemma ShiftTail(a: string, b: string, c: string, tail: string)
    ensures a + b + c + tail == a + b + (c + tail)
  {
  }

  lemma {:induction false} ReadPrintedThen(es: seq<Entry>, tail: string, soft: nat)
    requires AllWellFormed(es) && AllFit(es) && OneLine(tail) && soft < ERR_MAX
    ensures ReadAll(Reader(PrintAll(es) + tail, false, soft)) == es
  {
    if es == [] {
      assert PrintAll(es) + tail == tail;
      ReadUnterminated(tail, soft);
    } else {
      ReadPrintedThen(es[1..], tail, soft);
      ReadFirst(es[0], PrintAll(es[1..]) + tail, soft);
      ShiftTail(Line(es[0]), "\n", PrintAll(es[1..]), tail);
    }
  }

  lemma ReadFirst(e: Entry, rest: string, soft: nat)
    requires WellFormed(e) && FitsBuffer(e) && soft < ERR_MAX
    ensures ReadAll(Reader(Line(e) + "\n" + rest, false, soft)) == [e] + ReadAll(Reader(rest, false, soft))
  {
    NextPrinted(e, rest, soft);
  }

  /** A fault at closing cuts the last line. */
  predicate CutsLast(es: seq<Entry>, fault: Option<nat>)
  {
    fault.Some? && es != [] && fault.value <= |Line(es[|es| - 1])|
  }

  /** The table is whole exactly when the close did not cut the last line. */
  lemma ClosedWhole(es: seq<Entry>, fault: Option<nat>)
    ensures Closed(es, fault) == PrintAll(es) <==> !CutsLast(es, fault)
  {
    if es != [] {
      var k := |es| - 1;
      PrintAppend(es[..k], es[k]);
      assert es[..k] + [es[k]] == es;
    }
  }

  /** Re-reading a table that has been closed gives the entries, without the last one exactly when the close cut its
      line. */
  lemma ClosedReadsBack(es: seq<Entry>, fault: Option<nat>)
    requires AllWellFormed(es) && AllFit(es)
    ensures ReadAll(Open(Closed(es, fault))) == if CutsLast(es, fault) then es[..|es| - 1] else es
  {
    if CutsLast(es, fault) {
      var k := |es| - 1;
      var line := Line(es[k]);
      LineInverse(es[k]);
      assert Start(line + "\n", fault.value) == line[..fault.value];
      ReadPrintedThen(es[..k], line[..fault.value], 0);
    } else {
      if fault.Some? && es != [] {
        PrintAppend(es[..|es| - 1], es[|es| - 1]);
        assert es[..|es| - 1] + [es[|es| - 1]] == es;
      }
      assert Closed(es, fault) == PrintAll(es);
      RoundTrip(es);
    }
  }

  /** Removing one of two directories from a table while the disk is full, so that n characters of the last line
      arrive: the update goes through without an error, but the other entry is gone as well. */
  lemma FullDiskLosesEntry(a: Entry, b: Entry, n: nat)
    requires Representable(a) && Representable(b) && a.dir != b.dir && n <= |Line(b)|
    ensures Rewrite([a, b], a.dir, None) == [b]
    ensures ReadAll(Open(Closed(Rewrite([a, b], a.dir, None), Some(n)))) == []
  {
    RemovesFirst(a, b);
    ClosedReadsBack([b], Some(n));
    assert [b][..0] == [];
  }

  lemma RemovesFirst(a: Entry, b: Entry)
    requires a.dir != b.dir
    ensures Rewrite([a, b], a.dir, None) == [b]
  {
    assert [a, b][1..] == [b] && [b][1..] == [];
    assert ReplaceAll([b], a.dir, None) == [b] + [];
    RewriteCases([a, b], a.dir, None);
  }

  // ----- idempotence -----

  /** Rewriting a table twice changes nothing more exactly when the record, if any, is for the directory itself. */
  lemma RewriteTwice(es: seq<Entry>, dir: string, instead: Option<Remount>)
    ensures Rewrite(Rewrite(es, dir, instead), dir, instead) == Rewrite(es, dir, instead)
       <==> instead.None? || instead.value.dir == dir
  {
    var once := Rewrite(es, dir, instead);
    if instead.None? {
      RemovalIsMinus(es, dir);
      RemovalIsMinus(once, dir);
      MinusMinus(es, {dir}, {dir});
      assert {dir} + {dir} == {dir};
    } else {
      var m := instead.value;
      RemountShape(es, dir, m);
      RemountShape(once, dir, m);
      if m.dir == dir {
        if Mentions(es, dir) {
          var i :| 0 <= i < |es| && es[i].dir == dir;
          assert once[i].dir == dir;
        } else {
          assert once[|es|].dir == dir;
        }
        assert Mentions(once, dir);
      } else {
        assert !Mentions(once, dir);
      }
    }
  }

  lemma {:induction false} PrintConcat(a: seq<Entry>, b: seq<Entry>)
    ensures |PrintAll(a + b)| == |PrintAll(a)| + |PrintAll(b)|
  {
    if a == [] {
      assert a + b == b;
    } else {
      PrintConcat(a[1..], b);
      assert (a + b)[1..] == a[1..] + b;
    }
  }

  /** Cutting a table off at entry p and appending at most one record whose line is shorter gives a shorter file. */
  lemma CutOffIsShorter(es: seq<Entry>, p: nat, last: seq<Entry>)
    requires p < |es| && !FitsBuffer(es[p]) && |last| <= 1 && AllFit(last)
    ensures |PrintAll(es[..p] + last)| < |PrintAll(es)|
  {
    assert es == es[..p] + es[p..];
    PrintConcat(es[..p], es[p..]);
    PrintConcat(es[..p], last);
    assert |PrintAll(es[p..])| >= |Line(es[p])| + 1;
    if last != [] { assert FitsBuffer(last[0]) && last[1..] == []; }
  }

  /** Rewriting the start of a rewritten table changes none of its entries and appends at most the record. */
  lemma RewritePrefix(es: seq<Entry>, dir: string, m: Remount, p: nat)
    requires p <= |Rewrite(es, dir, Some(m))|
    ensures var r := Rewrite(es, dir, Some(m))[..p];
            Rewrite(r, dir, Some(m)) == r + if Mentions(r, dir) then [] else [AsEntry(m)]
  {
    var r := Rewrite(es, dir, Some(m))[..p];
    RemountShape(es, dir, m);
    ReplaceAllShape(r, dir, m);
    forall i | 0 <= i < p ensures ReplaceAll(r, dir, Some(m))[i] == r[i] {
      assert r[i].dir == dir ==> Merge(r[i], m) == r[i];
    }
    assert ReplaceAll(r, dir, Some(m)) == r;
  }

  /** For a remount that is read back: the second update changes nothing exactly when the record is for the
      directory. */
  lemma UpdateTwiceFits(es: seq<Entry>, dir: string, m: Remount)
    requires AllWellFormed(es) && AllFit(es) && Representable(AsEntry(m)) && MergesFit(es, dir, m)
    ensures var once := PrintAll(Rewrite(es, dir, Some(m)));
            UpdateText(once, dir, Some(m)) == once <==> m.dir == dir
  {
    var r := Rewrite(es, dir, Some(m));
    RemountWellFormed(es, dir, m);
    RemountFits(es, dir, m);
    RoundTripExactly(r);
    RewriteTwice(es, dir, Some(m));
    RewritePrefix(es, dir, m, |r|);
    assert r[..|r|] == r;
    if m.dir != dir { PrintConcat(r, [AsEntry(m)]); }
  }

  /** For one that is not, the second update always changes the file: what follows the first line that does not fit is
      lost. */
  lemma UpdateTwiceLoses(es: seq<Entry>, dir: string, m: Remount)
    requires AllWellFormed(es) && AllFit(es) && Representable(AsEntry(m)) && !MergesFit(es, dir, m)
    ensures var once := PrintAll(Rewrite(es, dir, Some(m)));
            |UpdateText(once, dir, Some(m))| < |once|
  {
    var r := Rewrite(es, dir, Some(m));
    var p := ReadablePrefix(r);
    RemountWellFormed(es, dir, m);
    RemountFits(es, dir, m);
    ReadPrinted(r, 0);
    RewritePrefix(es, dir, m, p);
    CutOffIsShorter(r, p, if Mentions(r[..p], dir) then [] else [AsEntry(m)]);
  }

  /** Updating the file a second time leaves it as it is exactly when this is a removal, or a remount whose record is
      for the directory itself and whose merged lines all fit. */
  lemma UpdateTwice(text: string, dir: string, instead: Option<Remount>)
    requires var es := ReadAll(Open(text)); AllWellFormed(es) && AllFit(es)
    requires instead.Some? ==> Representable(AsEntry(instead.value))
    ensures UpdateText(UpdateText(text, dir, instead), dir, instead) == UpdateText(text, dir, instead)
       <==> instead.None? || (instead.value.dir == dir && MergesFit(ReadAll(Open(text)), dir, instead.value))
  {
    var es := ReadAll(Open(text));
    if instead.None? {
      RewriteTwice(es, dir, instead);
      RemovalReadsBack(text, dir);
      RemovalIsMinus(es, dir);
    } else if MergesFit(es, dir, instead.value) {
      UpdateTwiceFits(es, dir, instead.value);
    } else {
      UpdateTwiceLoses(es, dir, instead.value);
    }
  }
}
