/** The configuration file from the text's side: which lines say something, what a number is, and that a file written in
    the usual way is read as it was meant. */
module ConfigText {
  import opened Common
  import opened Strings
  import opened Mntent
  import opened Config
  import opened ConfigReader

  predicate Space(c: char) { c in [' ', '\t', '\r', '\n', '\U{8}'] }

  predicate Spaces(w: string) { forall i | 0 <= i < |w| :: Space(w[i]) }

  /** A line says nothing exactly when, after white space, it is at its end, starts with '#' or has no '='. */
  lemma IgnoredExactly(w: string, rest: string)
    requires Spaces(w) && (rest != [] ==> !Space(rest[0]))
    ensures ReadSetting(w + rest) == Ignored <==> rest == [] || rest[0] == '#' || '=' !in rest
  {
    TrimLeftOf(w, rest);
    var eq := EqualsAt(rest);
    if '=' in rest {
      var i :| 0 <= i < |rest| && rest[i] == '=';
      assert eq <= i;
    }
  }

  /** Otherwise the text before the first '=' is the key and what follows is the value, without the white space around
      them. */
  lemma SettingExactly(w1: string, key: string, w2: string, w3: string, value: string, w4: string)
    requires Spaces(w1) && Spaces(w2) && Spaces(w3) && Spaces(w4)
    requires key != [] && key[0] != '#' && '=' !in key && !Space(key[0]) && !Space(key[|key| - 1])
    requires value != [] ==> !Space(value[0]) && !Space(value[|value| - 1])
    ensures ReadSetting(w1 + ((key + w2) + ("=" + (w3 + value + w4)))) == Setting(key, value)
  {
    SpacingIgnored(key, value, w1, w2, w3, w4);
  }

  // ----- numbers -----

  /** A value that starts with a number in the range of int sets that number, whatever follows it. */
  lemma NumberSets(n: int, junk: string)
    requires -0x8000_0000 <= n <= 0x7fff_ffff && (junk != [] ==> !('0' <= junk[0] <= '9'))
    ensures ChangeValue(PrintInt(n) + junk) == n
    ensures n >= 0 ==> ChangeValue("+" + PrintInt(n) + junk) == n
  {
    if n < 0 {
      SignedSets(-n, '-', junk);
      assert PrintInt(n) == ['-'] + Dec(-n);
    } else {
      PlainSets(n, junk);
      PlusSets(n, junk);
    }
  }

  lemma PlusSets(n: nat, junk: string)
    requires n <= 0x7fff_ffff && (junk != [] ==> !IsDigit(junk[0]))
    ensures ChangeValue("+" + PrintInt(n) + junk) == n
  {
    SignedSets(n, '+', junk);
    assert "+" + PrintInt(n) == ['+'] + Dec(n);
  }

  lemma PlainSets(n: nat, junk: string)
    requires n <= 0x7fff_ffff && (junk != [] ==> !IsDigit(junk[0]))
    ensures ChangeValue(Dec(n) + junk) == n
  {
    DecDigits(n);
    DigitsOf(Dec(n), junk);
    assert IsDigit((Dec(n) + junk)[0]);
  }

  lemma SignedSets(n: int, sign: char, junk: string)
    requires 0 <= n <= 0x8000_0000 && (junk != [] ==> !IsDigit(junk[0]))
    requires sign == '-' || (sign == '+' && n <= 0x7fff_ffff)
    ensures ChangeValue([sign] + Dec(n) + junk) == if sign == '-' then -n else n
  {
    DecDigits(n);
    DigitsOf(Dec(n), junk);
    SignFirst(sign, Dec(n), junk);
    var value := [sign] + Dec(n) + junk;
    assert value[0] == sign && value[1..] == Dec(n) + junk;
  }

  lemma SignFirst(sign: char, d: string, junk: string)
    ensures [sign] + d + junk == [sign] + (d + junk)
  {
  }

  /** A value that does not start with a digit, or with a sign and a digit, sets 0. */
  lemma NoNumber(value: string)
    requires value != [] ==> !('0' <= value[0] <= '9')
    requires |value| >= 2 && value[0] in ['-', '+'] ==> !('0' <= value[1] <= '9')
    ensures ChangeValue(value) == 0
  {
    if value != [] && (value[0] == '-' || value[0] == '+') {
      var body := value[1..];
      assert Digits(body) == [];
    }
  }

  // ----- a file written in the usual way -----

  /** A file with its interval, as an administrator writes it. */
  function Written(item: FileItem): string
  {
    "file = " + item.name + "\n" + ("change = " + PrintInt(item.mtime) + "\n")
  }

  function WriteAll(items: seq<FileItem>): string
  {
    if items == [] then [] else Written(items[0]) + WriteAll(items[1..])
  }

  /** A name that a line can hold, and an interval that fits an int. */
  predicate Writable(item: FileItem)
  {
    && item.name != [] && !Space(item.name[0]) && !Space(item.name[|item.name| - 1])
    && '\n' !in item.name && '\0' !in item.name
    && -0x8000_0000 <= item.mtime <= 0x7fff_ffff
  }

  lemma OneSetting(line: string, rest: string)
    requires OneLine(line)
    ensures Settings(line + "\n" + rest) == [ReadSetting(line + "\n")] + Settings(rest)
  {
    var text := line + "\n" + rest;
    LineLengthOf(line, rest);
    assert text[..|line| + 1] == line + "\n" && text[|line| + 1..] == rest;
    assert CString(line + "\n") == line + "\n";
  }

  lemma UsualLine(key: string, value: string)
    requires key == "file" || key == "change"
    requires value != [] && !Space(value[0]) && !Space(value[|value| - 1])
    ensures ReadSetting(key + " = " + value + "\n") == Setting(key, value)
  {
    SpacedLine("", key, " ", " ", value, "\n");
    assert " = " == " " + "=" + " ";
  }

  lemma SpacedLine(w: string, key: string, a: string, b: string, value: string, nl: string)
    requires w == "" && Spaces(a) && Spaces(b) && Spaces(nl)
    requires key != [] && key[0] != '#' && '=' !in key && !Space(key[0]) && !Space(key[|key| - 1])
    requires value != [] ==> !Space(value[0]) && !Space(value[|value| - 1])
    ensures ReadSetting(key + (a + "=" + b) + value + nl) == Setting(key, value)
  {
    SettingExactly(w, key, a, b, value, nl);
    Regrouped(w, key, a, "=", b, value, nl);
  }

  lemma Regrouped(w: string, key: string, a: string, eq: string, b: string, value: string, nl: string)
    requires w == ""
    ensures w + ((key + a) + (eq + (b + value + nl))) == key + (a + eq + b) + value + nl
  {
  }

  lemma NumberVisible(n: int)
    ensures var d := PrintInt(n);
            d != [] && !Space(d[0]) && !Space(d[|d| - 1]) && OneLine(d)
  {
    DecDigits(if n < 0 then -n else n);
  }

  lemma FileSetting(name: string, rest: string)
    requires name != [] && !Space(name[0]) && !Space(name[|name| - 1]) && OneLine(name)
    ensures Settings("file = " + name + "\n" + rest) == [Setting("file", name)] + Settings(rest)
  {
    UsualLine("file", name);
    assert "file" + " = " + name == "file = " + name;
    OneSetting("file = " + name, rest);
  }

  lemma ChangeSetting(n: string, rest: string)
    requires n != [] && !Space(n[0]) && !Space(n[|n| - 1]) && OneLine(n)
    ensures Settings("change = " + n + "\n" + rest) == [Setting("change", n)] + Settings(rest)
  {
    UsualLine("change", n);
    assert "change" + " = " + n == "change = " + n;
    OneSetting("change = " + n, rest);
  }

  lemma WrittenSettings(item: FileItem, rest: string)
    requires Writable(item)
    ensures Settings(Written(item) + rest)
         == [Setting("file", item.name)] + ([Setting("change", PrintInt(item.mtime))] + Settings(rest))
  {
    var second := "change = " + PrintInt(item.mtime) + "\n" + rest;
    assert Written(item) + rest == "file = " + item.name + "\n" + second;
    FileSetting(item.name, second);
    NumberVisible(item.mtime);
    ChangeSetting(PrintInt(item.mtime), rest);
  }

  lemma TakeTwo(files: seq<FileItem>, item: FileItem, n: string, ss: seq<Setting>)
    requires item.name != [] && ChangeValue(n) == item.mtime
    ensures TakeAll(files, [Setting("file", item.name)] + ([Setting("change", n)] + ss)) == TakeAll(files + [item], ss)
  {
    var a, b := Setting("file", item.name), Setting("change", n);
    TakeCons(files, a, [b] + ss);
    TakeCons(files + [FileItem(item.name, 0)], b, ss);
    assert (files + [FileItem(item.name, 0)])[|files| := item] == files + [item];
  }

  lemma NumberTaken(n: int)
    requires -0x8000_0000 <= n <= 0x7fff_ffff
    ensures ChangeValue(PrintInt(n)) == n
  {
    NumberSets(n, []);
    assert PrintInt(n) + [] == PrintInt(n);
  }

  lemma TakeCons(files: seq<FileItem>, s: Setting, ss: seq<Setting>)
    ensures TakeAll(files, [s] + ss) == TakeAll(Take(files, s), ss)
  {
    TakeConcat(files, [s], ss);
    assert [s][..0] == [];
  }

  lemma TakeFirst(files: seq<FileItem>, item: FileItem, rest: string)
    requires Writable(item)
    ensures TakeAll(files, Settings(Written(item) + rest)) == TakeAll(files + [item], Settings(rest))
  {
    WrittenSettings(item, rest);
    NumberTaken(item.mtime);
    TakeTwo(files, item, PrintInt(item.mtime), Settings(rest));
  }

  /** The list after the text for some more files has been read. */
  function ReadBack(files: seq<FileItem>, items: seq<FileItem>): seq<FileItem>
  {
    TakeAll(files, Settings(WriteAll(items)))
  }

  /** Reading moves one file over. */
  ghost predicate Moves(
    read: (seq<FileItem>, seq<FileItem>) -> seq<FileItem>, files: seq<FileItem>, items: seq<FileItem>
  )
  {
    if items == [] then read(files, items) == files
    else Writable(items[0]) ==> read(files, items) == read(files + [items[0]], items[1..])
  }

  lemma ReadBackMoves(files: seq<FileItem>, items: seq<FileItem>)
    ensures Moves(ReadBack, files, items)
  {
    if items != [] && Writable(items[0]) { TakeFirst(files, items[0], WriteAll(items[1..])); }
  }

  lemma {:induction false} MovesAll(
    read: (seq<FileItem>, seq<FileItem>) -> seq<FileItem>, files: seq<FileItem>, items: seq<FileItem>
  )
    requires forall i | 0 <= i < |items| :: Writable(items[i])
    requires forall fs, rest :: Moves(read, fs, rest)
    ensures read(files, items) == files + items
    decreases |items|
  {
    assert Moves(read, files, items);
    if items == [] {
      assert files + items == files;
    } else {
      MovesAll(read, files + [items[0]], items[1..]);
      assert files + items == files + [items[0]] + items[1..];
    }
  }

  /** Writing a list of files with their intervals and reading the text gives the list back. */
  lemma ConfigRoundTrip(items: seq<FileItem>)
    requires forall i | 0 <= i < |items| :: Writable(items[i])
    ensures FilesFrom(Settings(WriteAll(items)), 0) == items
  {
    forall fs, rest ensures Moves(ReadBack, fs, rest) { ReadBackMoves(fs, rest); }
    MovesAll(ReadBack, [], items);
    FilesInTextOrder(Settings(WriteAll(items)));
    assert [] + items == items;
  }

  /** Lines that are ignored, or set something else, do not matter. */
  lemma OthersIgnored(files: seq<FileItem>, s: Setting, ss: seq<Setting>)
    requires s == Ignored || (s.key != "file" && s.key != "change") || (s.key == "file" && s.value == "")
    ensures TakeAll(files, [s] + ss) == TakeAll(files, ss)
  {
    TakeCons(files, s, ss);
  }
}
