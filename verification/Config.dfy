/** Reading the configuration file (src/configfile.c and src/read-conf.c): lines to settings, settings to the list of
    files. */
module Config {
  import opened Common
  import opened Strings

  predicate IsWhite(c: char) { c == ' ' || c == '\t' || c == '\r' || c == '\n' || c == '\U{8}' }

  /** str_start. */
  function TrimLeft(s: string): (r: string)
    ensures |r| <= |s| && (r != [] ==> !IsWhite(r[0]))
  {
    if s != [] && IsWhite(s[0]) then TrimLeft(s[1..]) else s
  }

  /** trim_white. */
  function TrimRight(s: string): (r: string)
    ensures |r| <= |s| && (r != [] ==> !IsWhite(r[|r| - 1]))
  {
    if s != [] && IsWhite(s[|s| - 1]) then TrimRight(s[..|s| - 1]) else s
  }

  /** Position of the first '=', or the length. */
  function EqualsAt(s: string): (i: nat)
    ensures i <= |s| && (i < |s| ==> s[i] == '=') && forall j | 0 <= j < i :: s[j] != '='
  {
    if s == [] || s[0] == '=' then 0 else 1 + EqualsAt(s[1..])
  }

  datatype Setting = Ignored | Setting(key: string, value: string)

  /** One line of the file as a C string. */
  function ReadSetting(line: string): Setting
  {
    var a := TrimLeft(line);
    var eq := EqualsAt(a);
    if a == [] || a[0] == '#' || eq == |a| then Ignored
    else Setting(TrimRight(a[..eq]), TrimRight(TrimLeft(a[eq + 1..])))
  }

  // ----- numbers -----

  /** Looks like the start of a number. */
  predicate IsNumber(c: char) { IsDigit(c) || c == '-' || c == '+' }

  /** atoi: an optional sign and digits; strtol saturates, then the result is cut down to int. */
  function ParseInt(s: string): int
  {
    var body := if s != [] && (s[0] == '-' || s[0] == '+') then s[1..] else s;
    var v: int := Value(Digits(body));
    if s != [] && s[0] == '-' then ToInt32(if v <= LONG_MAX + 1 then -v else -LONG_MAX - 1)
    else ToInt32(if v <= LONG_MAX then v else LONG_MAX)
  }

  /** What a `change` line sets: itmp stays 0 unless the value looks like a number. */
  function ChangeValue(value: string): int { if value != [] && IsNumber(value[0]) then ParseInt(value) else 0 }

  // ----- the list of files -----

  datatype FileItem = FileItem(name: string, mtime: int)

  predicate AddsFile(s: Setting) { s.Setting? && s.key == "file" && s.value != [] }

  predicate SetsChange(s: Setting) { s.Setting? && s.key == "change" }

  /** What one setting does to the list. */
  function Take(files: seq<FileItem>, s: Setting): seq<FileItem>
  {
    if AddsFile(s) then files + [FileItem(s.value, 0)]
    else if SetsChange(s) && files != [] then files[|files| - 1 := files[|files| - 1].(mtime := ChangeValue(s.value))]
    else files
  }

  function TakeAll(files: seq<FileItem>, ss: seq<Setting>): seq<FileItem>
  {
    if ss == [] then files else Take(TakeAll(files, ss[..|ss| - 1]), ss[|ss| - 1])
  }

  // ----- the same, read off the text -----

  /** Position of the next accepted `file` line. */
  function NextFile(ss: seq<Setting>, k: nat): (n: nat)
    requires k <= |ss|
    ensures k <= n <= |ss| && (n < |ss| ==> AddsFile(ss[n])) && forall j | k <= j < n :: !AddsFile(ss[j])
    decreases |ss| - k
  {
    if k == |ss| || AddsFile(ss[k]) then k else NextFile(ss, k + 1)
  }

  /** Position of the last `change` line from lo up to hi. */
  function LastChange(ss: seq<Setting>, lo: nat, hi: nat): (r: Option<nat>)
    requires lo <= hi <= |ss|
    ensures r.Some? ==>
              && lo <= r.value < hi && SetsChange(ss[r.value])
              && forall j | r.value < j < hi :: !SetsChange(ss[j])
    ensures r.None? ==> forall j | lo <= j < hi :: !SetsChange(ss[j])
    decreases hi - lo
  {
    if lo == hi then None else if SetsChange(ss[hi - 1]) then Some(hi - 1) else LastChange(ss, lo, hi - 1)
  }

  /** The interval for the file at position i: the last `change` line before the next accepted `file` line. */
  function Interval(ss: seq<Setting>, i: nat): int
    requires i < |ss|
  {
    match LastChange(ss, i + 1, NextFile(ss, i + 1))
    case None => 0
    case Some(j) => ChangeValue(ss[j].value)
  }

  /** The accepted `file` lines from k on, each with its interval. */
  function FilesFrom(ss: seq<Setting>, k: nat): seq<FileItem>
    requires k <= |ss|
    decreases |ss| - k
  {
    if k == |ss| then []
    else (if AddsFile(ss[k]) then [FileItem(ss[k].value, Interval(ss, k))] else []) + FilesFrom(ss, k + 1)
  }

  /** The list after the settings up to n: all files before the last one are final, the last has the last change so
      far. */
  lemma {:induction false} TakeStretch(files: seq<FileItem>, ss: seq<Setting>, lo: nat, hi: nat)
    requires lo <= hi <= |ss| && forall j | lo <= j < hi :: !AddsFile(ss[j])
    ensures TakeAll(files, ss[lo..hi]) ==
              if files == [] then []
              else match LastChange(ss, lo, hi)
                   case None => files
                   case Some(j) => files[|files| - 1 := files[|files| - 1].(mtime := ChangeValue(ss[j].value))]
    decreases hi - lo
  {
    if lo < hi {
      assert ss[lo..hi][..hi - lo - 1] == ss[lo..hi - 1];
      TakeStretch(files, ss, lo, hi - 1);
    }
  }

  lemma {:induction false} TakeConcat(files: seq<FileItem>, a: seq<Setting>, b: seq<Setting>)
    ensures TakeAll(files, a + b) == TakeAll(TakeAll(files, a), b)
  {
    if b == [] {
      assert a + b == a;
    } else {
      TakeConcat(files, a, b[..|b| - 1]);
      assert (a + b)[..|a + b| - 1] == a + b[..|b| - 1];
    }
  }

  lemma {:induction false} SkipToFile(ss: seq<Setting>, lo: nat, hi: nat)
    requires lo <= hi <= |ss| && forall j | lo <= j < hi :: !AddsFile(ss[j])
    ensures FilesFrom(ss, lo) == FilesFrom(ss, hi)
    decreases hi - lo
  {
    if lo < hi { SkipToFile(ss, lo + 1, hi); }
  }

  /** An accepted `file` line and the lines up to the next one add the file with its interval. */
  lemma TakeOneFile(files: seq<FileItem>, ss: seq<Setting>, k: nat, n: nat)
    requires k < |ss| && AddsFile(ss[k]) && n == NextFile(ss, k + 1)
    ensures TakeAll(files, ss[k..n]) == files + [FileItem(ss[k].value, Interval(ss, k))]
  {
    var added := files + [FileItem(ss[k].value, 0)];
    assert ss[k..n] == [ss[k]] + ss[k + 1..n];
    assert [ss[k]][..0] == [] && TakeAll(files, [ss[k]]) == added;
    TakeConcat(files, [ss[k]], ss[k + 1..n]);
    TakeStretch(added, ss, k + 1, n);
  }

  /** From an accepted `file` line on, the list grows by that file with its interval, and so on. */
  lemma {:induction false} TakeFromFile(files: seq<FileItem>, ss: seq<Setting>, k: nat)
    requires k <= |ss| && (k < |ss| ==> AddsFile(ss[k]))
    ensures TakeAll(files, ss[k..]) == files + FilesFrom(ss, k)
    decreases |ss| - k
  {
    if k < |ss| {
      var n := NextFile(ss, k + 1);
      var item := FileItem(ss[k].value, Interval(ss, k));
      assert ss[k..] == ss[k..n] + ss[n..];
      TakeConcat(files, ss[k..n], ss[n..]);
      TakeOneFile(files, ss, k, n);
      TakeFromFile(files + [item], ss, n);
      SkipToFile(ss, k + 1, n);
      ItemsAssoc(files, item, FilesFrom(ss, n));
    } else {
      assert ss[k..] == [] && files + [] == files;
    }
  }

  lemma ItemsAssoc(a: seq<FileItem>, x: FileItem, b: seq<FileItem>)
    ensures (a + [x]) + b == a + ([x] + b)
  {
  }

  /** Reading the settings one by one gives the accepted `file` values in text order, each with the number of the last
      `change` line after it and before the next accepted `file` line, or 0. */
  lemma FilesInTextOrder(ss: seq<Setting>)
    ensures TakeAll([], ss) == FilesFrom(ss, 0)
  {
    var n := NextFile(ss, 0);
    assert ss == ss[0..n] + ss[n..];
    TakeStretch([], ss, 0, n);
    TakeConcat([], ss[0..n], ss[n..]);
    TakeFromFile([], ss, n);
    SkipToFile(ss, 0, n);
    assert [] + FilesFrom(ss, n) == FilesFrom(ss, n);
  }

  // ----- white space and further '=' -----

  predicate AllWhite(s: string) { forall i | 0 <= i < |s| :: IsWhite(s[i]) }

  /** No white space at either end. */
  predicate Trimmed(s: string) { s != [] ==> !IsWhite(s[0]) && !IsWhite(s[|s| - 1]) }

  lemma {:induction false} TrimLeftOf(w: string, s: string)
    requires AllWhite(w) && (s != [] ==> !IsWhite(s[0]))
    ensures TrimLeft(w + s) == s
  {
    if w == [] {
      assert w + s == s;
    } else {
      TrimLeftOf(w[1..], s);
      assert (w + s)[1..] == w[1..] + s;
    }
  }

  lemma {:induction false} TrimRightOf(s: string, w: string)
    requires AllWhite(w) && (s != [] ==> !IsWhite(s[|s| - 1]))
    ensures TrimRight(s + w) == s
  {
    if w == [] {
      assert s + w == s;
    } else {
      TrimRightOf(s, w[..|w| - 1]);
      assert (s + w)[..|s + w| - 1] == s + w[..|w| - 1];
    }
  }

  lemma {:induction false} EqualsOf(a: string, b: string)
    requires '=' !in a
    ensures EqualsAt(a + ("=" + b)) == |a|
  {
    var s := a + ("=" + b);
    if a != [] {
      EqualsOf(a[1..], b);
      assert s[1..] == a[1..] + ("=" + b);
    }
  }

  lemma TrimBoth(w1: string, s: string, w2: string)
    requires AllWhite(w1) && AllWhite(w2) && Trimmed(s)
    ensures TrimRight(TrimLeft(w1 + s + w2)) == s
  {
    if s == [] {
      assert w1 + s + w2 == (w1 + w2) + [];
      TrimLeftOf(w1 + w2, []);
    } else {
      assert w1 + s + w2 == w1 + (s + w2);
      TrimLeftOf(w1, s + w2);
      TrimRightOf(s, w2);
    }
  }

  /** Whatever white space surrounds key and value, and whatever further '=' the value has, the line sets key to
      value. */
  lemma SpacingIgnored(key: string, value: string, w1: string, w2: string, w3: string, w4: string)
    requires AllWhite(w1) && AllWhite(w2) && AllWhite(w3) && AllWhite(w4)
    requires key != [] && key[0] != '#' && '=' !in key && Trimmed(key) && Trimmed(value)
    ensures ReadSetting(w1 + ((key + w2) + ("=" + (w3 + value + w4)))) == Setting(key, value)
  {
    var left, right := key + w2, w3 + value + w4;
    TrimLeftOf(w1, left + ("=" + right));
    assert '=' !in left by { assert '=' !in w2; }
    SettingOf(w1 + (left + ("=" + right)), left, right);
    TrimRightOf(key, w2);
    TrimBoth(w3, value, w4);
  }

  lemma SettingOf(line: string, left: string, right: string)
    requires TrimLeft(line) == left + ("=" + right)
    requires left != [] && left[0] != '#' && '=' !in left
    ensures ReadSetting(line) == Setting(TrimRight(left), TrimRight(TrimLeft(right)))
  {
    var a := left + ("=" + right);
    EqualsOf(left, right);
    assert a[..|left|] == left && a[|left| + 1..] == right;
  }
}
