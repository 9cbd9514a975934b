/** The line loop of read_config in src/configfile.c with the in-place string helpers of src/read-conf.c. */
module ConfigReader {
  import opened Strings
  import opened Config

  /** A C string runs from p to its NUL at e. */
  ghost predicate IsStr(buf: array<char>, p: nat, e: nat)
    reads buf
  {
    p <= e < buf.Length && buf[e] == '\0' && forall i | p <= i < e :: buf[i] != '\0'
  }

  method StrLen(buf: array<char>, p: nat, ghost e: nat) returns (q: nat)
    requires IsStr(buf, p, e)
    ensures q == e
  {
    q := p;
    while buf[q] != '\0'
      invariant p <= q <= e
      decreases e - q
    {
      q := q + 1;
    }
  }

  /** str_start. */
  method StrStart(buf: array<char>, p: nat, ghost e: nat) returns (q: nat)
    requires IsStr(buf, p, e)
    ensures p <= q <= e && buf[q..e] == TrimLeft(buf[p..e])
  {
    q := p;
    while buf[q] != '\0' && IsWhite(buf[q])
      invariant p <= q <= e && TrimLeft(buf[q..e]) == TrimLeft(buf[p..e])
      decreases e - q
    {
      assert buf[q..e][1..] == buf[q + 1..e];
      q := q + 1;
    }
  }

  /** strchr(p, '='); the end of the string if there is none. */
  method FindEquals(buf: array<char>, p: nat, ghost e: nat) returns (q: nat)
    requires IsStr(buf, p, e)
    ensures p <= q <= e && q - p == EqualsAt(buf[p..e])
  {
    q := p;
    while buf[q] != '\0' && buf[q] != '='
      invariant p <= q <= e && q - p + EqualsAt(buf[q..e]) == EqualsAt(buf[p..e])
      decreases e - q
    {
      assert buf[q..e][1..] == buf[q + 1..e];
      q := q + 1;
    }
  }

  /** trim_white: trailing white space becomes NULs. */
  method TrimWhite(buf: array<char>, p: nat, ghost e: nat) returns (ghost e': nat)
    requires IsStr(buf, p, e)
    modifies buf
    ensures e' <= e && IsStr(buf, p, e') && buf[p..e'] == TrimRight(old(buf[p..e]))
    ensures forall i | 0 <= i < buf.Length && !(e' <= i < e) :: buf[i] == old(buf[i])
  {
    var ii := StrLen(buf, p, e);
    e' := e;
    while ii > p && IsWhite(buf[ii - 1])
      invariant p <= ii == e' <= e && IsStr(buf, p, e')
      invariant forall i | 0 <= i < buf.Length && !(e' <= i < e) :: buf[i] == old(buf[i])
      invariant TrimRight(buf[p..e']) == TrimRight(old(buf[p..e]))
    {
      assert buf[p..e'][..e' - p - 1] == buf[p..e' - 1];
      ghost var rest := buf[p..e' - 1];
      ii := ii - 1;
      buf[ii] := '\0';
      e' := ii;
      assert buf[p..e'] == rest;
    }
  }

  /** Trimming one string leaves another one in the same buffer alone. */
  method TrimBeside(buf: array<char>, p: nat, ghost e: nat, ghost p1: nat, ghost e1: nat) returns (ghost e': nat)
    requires IsStr(buf, p, e) && IsStr(buf, p1, e1) && (e < p1 || e1 < p)
    modifies buf
    ensures e' <= e && IsStr(buf, p, e') && buf[p..e'] == TrimRight(old(buf[p..e]))
    ensures IsStr(buf, p1, e1) && buf[p1..e1] == old(buf[p1..e1])
  {
    e' := TrimWhite(buf, p, e);
  }

  /** Trim the two strings left and right of the NUL at eq, the right one on both sides. */
  method TrimHalves(buf: array<char>, arg: nat, eq: nat, ghost e: nat)
    returns (val: nat, ghost argEnd: nat, ghost valEnd: nat)
    requires IsStr(buf, arg, eq) && eq < e && IsStr(buf, eq + 1, e)
    modifies buf
    ensures IsStr(buf, arg, argEnd) && buf[arg..argEnd] == TrimRight(old(buf[arg..eq]))
    ensures IsStr(buf, val, valEnd) && buf[val..valEnd] == TrimRight(TrimLeft(old(buf[eq + 1..e])))
  {
    val := StrStart(buf, eq + 1, e);
    valEnd := TrimBeside(buf, val, e, arg, eq);
    argEnd := TrimBeside(buf, arg, eq, val, valEnd);
  }

  /** Put a NUL at position eq of a string, which leaves two. */
  method CutAt(buf: array<char>, p: nat, eq: nat, ghost e: nat)
    requires IsStr(buf, p, e) && p <= eq < e
    modifies buf
    ensures IsStr(buf, p, eq) && IsStr(buf, eq + 1, e)
    ensures buf[p..eq] == old(buf[p..eq]) && buf[eq + 1..e] == old(buf[eq + 1..e])
  {
    buf[eq] := '\0';
  }

  /** The setting on a line, from the two sides of its first '='. */
  lemma SettingOfHalves(line: string, a: string, eq: nat)
    requires a == TrimLeft(line) && a != [] && a[0] != '#' && eq == EqualsAt(a) < |a|
    ensures ReadSetting(line) == Setting(TrimRight(a[..eq]), TrimRight(TrimLeft(a[eq + 1..])))
  {
  }

  lemma Halves(buf: array<char>, p: nat, q: nat, e: nat)
    requires p <= q < e <= buf.Length
    ensures buf[p..e][..q - p] == buf[p..q] && buf[p..e][q - p + 1..] == buf[q + 1..e]
  {
  }

  /** Split a line at its first '=', in place. */
  method SplitLine(buf: array<char>, ghost e: nat)
    returns (found: bool, arg: nat, val: nat, ghost argEnd: nat, ghost valEnd: nat)
    requires IsStr(buf, 0, e)
    modifies buf
    ensures var s := ReadSetting(old(buf[0..e]));
            && found == s.Setting?
            && (found ==> IsStr(buf, arg, argEnd) && buf[arg..argEnd] == s.key)
            && (found ==> IsStr(buf, val, valEnd) && buf[val..valEnd] == s.value)
  {
    arg := StrStart(buf, 0, e);
    found, val, argEnd, valEnd := false, 0, 0, 0;
    ghost var line, a := buf[0..e], buf[arg..e];
    if buf[arg] == '\0' || buf[arg] == '#' {
      NoSetting(line, a);
      return;
    }
    var eq := FindEquals(buf, arg, e);
    if buf[eq] == '\0' {
      NoSetting(line, a);
      return;
    }
    Halves(buf, arg, eq, e);
    SettingOfHalves(line, a, eq - arg);
    CutAt(buf, arg, eq, e);
    val, argEnd, valEnd := TrimHalves(buf, arg, eq, e);
    found := true;
  }

  lemma NoSetting(line: string, a: string)
    requires a == TrimLeft(line) && (a == [] || a[0] == '#' || EqualsAt(a) == |a|)
    ensures ReadSetting(line) == Ignored
  {
  }

  /** The settings of a text, line by line as getline delivers them. */
  function Settings(text: string): seq<Setting>
    decreases |text|
  {
    if text == [] then []
    else [ReadSetting(CString(text[..LineLength(text)]))] + Settings(text[LineLength(text)..])
  }

  /** A copy of a line in a buffer, with the NUL behind it; the C string in it ends at the first NUL. */
  method LineBuffer(line: string) returns (buf: array<char>, ghost e: nat)
    ensures fresh(buf) && IsStr(buf, 0, e) && buf[0..e] == CString(line)
  {
    buf := new char[|line| + 1](i requires 0 <= i < |line| + 1 => if i < |line| then line[i] else '\0');
    e := |CString(line)|;
    CStringEnds(line);
    assert buf[0..e] == line[..e];
  }

  lemma {:induction false} CStringEnds(s: string)
    ensures |CString(s)| < |s| ==> s[|CString(s)|] == '\0'
  {
    if s != [] && s[0] != '\0' { CStringEnds(s[1..]); }
  }

  method Extract(buf: array<char>, p: nat, ghost e: nat) returns (s: string)
    requires IsStr(buf, p, e)
    ensures s == buf[p..e]
  {
    var q := StrLen(buf, p, e);
    s := buf[p..q];
  }

  /** One line, as a setting. */
  method LineSetting(line: string) returns (s: Setting)
    ensures s == ReadSetting(CString(line))
  {
    var buf, e := LineBuffer(line);
    var found, arg, val, argEnd, valEnd := SplitLine(buf, e);
    if !found { return Ignored; }
    var key := Extract(buf, arg, argEnd);
    var value := Extract(buf, val, valEnd);
    s := Setting(key, value);
  }

  /** A node of the file list (struct list in include/extern.h). */
  class Item {
    const name: string
    var mtime: int
    var next: Item?

    /** xcalloc, then the name. */
    constructor (name: string)
      ensures Value() == FileItem(name, 0) && next == null
    {
      this.name, mtime, next := name, 0, null;
    }

    function Value(): FileItem
      reads this
    {
      FileItem(name, mtime)
    }
  }

  class Reader {
    var head: Item?  // file_list
    ghost var repr: set<Item>
    ghost var nodes: seq<Item>
    ghost var files: seq<FileItem>

    /** The nodes form an acyclic chain from the head and hold the files. */
    ghost predicate Valid()
      reads this, repr
    {
      && |files| == |nodes| && head == NodeAt(0) && (forall i | 0 <= i < |nodes| :: nodes[i] in repr)
      && (forall i {:trigger nodes[i].next} | 0 <= i < |nodes| :: nodes[i].next == NodeAt(i + 1))
      && (forall i {:trigger nodes[i].Value()} | 0 <= i < |nodes| :: nodes[i].Value() == files[i])
      && (forall i, j | 0 <= i < j < |nodes| :: nodes[i] != nodes[j])
    }

    ghost function NodeAt(i: nat): Item?
      reads this
    {
      if i < |nodes| then nodes[i] else null
    }

    constructor ()
      ensures Valid() && files == [] && repr == {}
    {
      head, repr, nodes, files := null, {}, [], [];
    }

    /** The loop to the end of the list, in add_list and for a change interval. */
    method FindEnd() returns (act: Item)
      requires Valid() && head != null
      ensures act == nodes[|nodes| - 1]
    {
      act := head;
      ghost var i := 0;
      while act.next != null
        invariant 0 <= i < |nodes| && act == nodes[i]
        decreases |nodes| - i
      {
        act := act.next;
        i := i + 1;
      }
    }

    method AddList(name: string)
      requires Valid()
      modifies this, repr
      ensures Valid() && files == old(files) + [FileItem(name, 0)]
      ensures fresh(repr - old(repr))
    {
      var node := new Item(name);
      assert forall i | 0 <= i < |nodes| :: nodes[i].Value() == files[i];
      if head == null {
        head := node;
      } else {
        var act := FindEnd();
        act.next := node;
      }
      repr, nodes, files := repr + {node}, nodes + [node], files + [node.Value()];
    }

    method SetLast(mtime: int)
      requires Valid() && head != null
      modifies this`files, repr
      ensures Valid() && files == old(files)[|old(files)| - 1 := old(files)[|old(files)| - 1].(mtime := mtime)]
    {
      var act := FindEnd();
      assert forall i | 0 <= i < |nodes| :: nodes[i].Value() == files[i];
      act.mtime := mtime;
      files := files[|files| - 1 := files[|files| - 1].(mtime := mtime)];
    }

    /** READ_LIST(FILENAME, ...) and READ_INT(CHANGE, ...). */
    method TakeSetting(s: Setting)
      requires Valid()
      modifies this, repr
      ensures Valid() && files == Take(old(files), s)
      ensures fresh(repr - old(repr))
    {
      if s.Ignored? { return; }
      if s.key == "file" {
        if s.value != [] { AddList(s.value); }
      } else if s.key == "change" {
        var itmp := 0;
        if s.value != [] && IsNumber(s.value[0]) { itmp := ParseInt(s.value); }
        if head != null { SetLast(itmp); }
      }
    }

    /** The line loop of read_config; rest(p) stands for the settings from position p on. */
    method ReadLines(text: string, ghost rest: Rest)
      requires Valid() && repr == {} && Describes(rest, text)
      modifies this
      ensures Valid() && files == TakeAll(old(files), rest(0))
    {
      var pos := 0;
      while pos < |text|
        invariant 0 <= pos <= |text| && Valid() && fresh(repr)
        invariant TakeAll(files, rest(pos)) == TakeAll(old(files), rest(0))
      {
        var n := ReadLine(text, pos, rest);
        pos := pos + n;
      }
      NothingLeft(rest, text);
    }

    /** One round of the loop. */
    method ReadLine(text: string, pos: nat, ghost rest: Rest) returns (n: nat)
      requires Valid() && pos < |text| && Describes(rest, text)
      modifies this, repr
      ensures Valid() && 0 < n <= |text| - pos && fresh(repr - old(repr))
      ensures TakeAll(files, rest(pos + n)) == TakeAll(old(files), rest(pos))
    {
      n := LineLength(text[pos..]);
      SettingsStep(files, text, pos, n);
      var s := LineSetting(text[pos..pos + n]);
      TakeSetting(s);
    }

    /** read_config: the list is what can be read off the text. */
    method ReadConfig(text: string)
      requires Valid() && files == [] && repr == {}
      modifies this
      ensures Valid() && files == FilesFrom(Settings(text), 0)
    {
      ReadLines(text, RestOf(text));
      FilesInTextOrder(Settings(text));
      assert text[0..] == text;
    }
  }

  /** The settings from each position of a text on. */
  type Rest = nat -> seq<Setting>

  ghost function RestOf(text: string): (rest: Rest)
    ensures Describes(rest, text)
  {
    (p: nat) => Settings(if p <= |text| then text[p..] else [])
  }

  ghost predicate Describes(rest: Rest, text: string)
  {
    forall p: nat {:trigger Settings(text[p..])} | p <= |text| :: rest(p) == Settings(text[p..])
  }

  lemma NothingLeft(rest: Rest, text: string)
    requires Describes(rest, text)
    ensures rest(|text|) == []
  {
    assert Settings(text[|text|..]) == [];
  }

  lemma SettingsStep(files: seq<FileItem>, text: string, pos: nat, n: nat)
    requires pos < |text| && n == LineLength(text[pos..])
    ensures TakeAll(files, Settings(text[pos..])) ==
            TakeAll(Take(files, ReadSetting(CString(text[pos..pos + n]))), Settings(text[pos + n..]))
  {
    var s := ReadSetting(CString(text[pos..pos + n]));
    assert text[pos..][..n] == text[pos..pos + n] && text[pos..][n..] == text[pos + n..];
    TakeConcat(files, [s], Settings(text[pos + n..]));
    assert [s][..0] == [] && TakeAll(files, [s]) == Take(files, s);
  }
}
