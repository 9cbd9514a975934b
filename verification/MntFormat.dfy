/** The format of a mount table, spelled out: the text that src/mntent.c writes for an entry, and what it reads from a
    file that anyone wrote. */
module MntFormat {
  import opened Common
  import opened Mntent
  import opened Strings

  // ----- what is written -----

  lemma {:induction false} MangleConcat(a: string, b: string)
    ensures Mangle(a + b) == Mangle(a) + Mangle(b)
  {
    if a == [] {
      assert a + b == b;
    } else {
      MangleConcat(a[1..], b);
      assert (a + b)[1..] == a[1..] + b;
      Reassociate(MangleChar(a[0]), Mangle(a[1..]), Mangle(b));
    }
  }

  lemma Reassociate(a: string, b: string, c: string)
    ensures a + (b + c) == (a + b) + c
  {
  }

  /** Text without a space, a tab, a newline and a backslash. */
  predicate Plain(s: string) { ' ' !in s && '\t' !in s && '\n' !in s && '\\' !in s }

  /** Plain text, and no other, is written as it is; the four other characters are written in octal. */
  lemma {:induction false} MangleExactly(s: string)
    ensures Mangle(s) == s <==> Plain(s)
    ensures |Mangle(s)| >= |s|
    ensures Mangle([' ']) == "\\040" && Mangle(['\t']) == "\\011"
    ensures Mangle(['\n']) == "\\012" && Mangle(['\\']) == "\\134"
  {
    FourEscapes();
    if s != [] {
      MangleExactly(s[1..]);
      assert s == [s[0]] + s[1..];
      if !NeedsEscape(s[0]) {
        assert MangleChar(s[0]) == [s[0]];
        assert Mangle(s)[1..] == Mangle(s[1..]);
      }
    }
  }

  lemma FourEscapes()
    ensures Mangle([' ']) == "\\040" && Mangle(['\t']) == "\\011"
    ensures Mangle(['\n']) == "\\012" && Mangle(['\\']) == "\\134"
  {
    MangleOne(' ');
    MangleOne('\t');
    MangleOne('\n');
    MangleOne('\\');
  }

  lemma MangleOne(c: char)
    ensures Mangle([c]) == MangleChar(c)
  {
    assert [c][1..] == [];
    assert MangleChar(c) + [] == MangleChar(c);
  }

  const DIGITS := "0123456789"

  /** Numbers are written in decimal, without leading zeros. */
  lemma DecimalExactly(n: nat, k: nat)
    requires k < 10
    ensures PrintInt(k) == [DIGITS[k]]
    ensures n > 0 ==> PrintInt(10 * n + k) == PrintInt(n) + [DIGITS[k]]
  {
    DigitChar(k);
    assert (10 * n + k) / 10 == n && (10 * n + k) % 10 == k;
  }

  lemma DigitChar(k: nat)
    requires k < 10
    ensures DIGITS[k] == Digit(k)
    ensures k < 8 ==> IsOctal(DIGITS[k])
    ensures DIGITS[k] as int - '0' as int == k
  {
  }

  lemma NegativeExactly(n: int)
    requires n < 0
    ensures PrintInt(n) == "-" + PrintInt(-n)
  {
  }

  /** An entry is written as its escaped fields and its numbers with a space between them. */
  lemma LineExactly(e: Entry)
    ensures Line(e) == Mangle(e.fsname) + " " + Mangle(e.dir) + " " + Mangle(e.kind) + " " + Mangle(e.opts) + " "
                       + PrintInt(e.freq) + " " + PrintInt(e.passno)
  {
    LineFromStart(e, 0);
    var w2, w3, w4, w5 := Mangle(e.kind), Mangle(e.opts), PrintInt(e.freq), PrintInt(e.passno);
    var p1 := Mangle(e.fsname) + " " + Mangle(e.dir);
    Spaced(Mangle(e.fsname), Mangle(e.dir), LineFrom(e, 2));
    Spaced(p1, w2, LineFrom(e, 3));
    Spaced(p1 + " " + w2, w3, LineFrom(e, 4));
    SpacedEnd(p1 + " " + w2 + " " + w3, w4, w5);
  }

  lemma LineFromStart(e: Entry, k: nat)
    requires k == 0
    ensures Line(e) == Mangle(e.fsname) + (" " + (Mangle(e.dir) + (" " + LineFrom(e, 2))))
    ensures LineFrom(e, 2) == Mangle(e.kind) + (" " + LineFrom(e, 3))
    ensures LineFrom(e, 3) == Mangle(e.opts) + (" " + LineFrom(e, 4))
    ensures LineFrom(e, 4) == PrintInt(e.freq) + (" " + PrintInt(e.passno))
  {
    LineFromJoin(e, k);
    assert Words(e)[k..] == Words(e);
    assert LineFrom(e, k) == Mangle(e.fsname) + (" " + LineFrom(e, k + 1));
  }

  lemma Spaced(p: string, w: string, rest: string)
    ensures p + (" " + (w + (" " + rest))) == (p + " " + w) + (" " + rest)
  {
  }

  lemma SpacedEnd(p: string, v: string, w: string)
    ensures p + (" " + (v + (" " + w))) == p + " " + v + " " + w
  {
  }

  /** ... which for plain fields are the fields themselves. */
  lemma PlainLine(e: Entry)
    requires Plain(e.fsname) && Plain(e.dir) && Plain(e.kind) && Plain(e.opts)
    ensures Line(e) == e.fsname + " " + e.dir + " " + e.kind + " " + e.opts + " "
                       + PrintInt(e.freq) + " " + PrintInt(e.passno)
  {
    LineExactly(e);
    MangleExactly(e.fsname);
    MangleExactly(e.dir);
    MangleExactly(e.kind);
    MangleExactly(e.opts);
  }

  // ----- what is read from one line -----

  predicate Blank(s: string) { forall i | 0 <= i < |s| :: s[i] == ' ' || s[i] == '\t' }

  predicate IsWord(w: string) { w != [] && ' ' !in w && '\t' !in w }

  /** Words with a gap before each of them and one at the end. */
  function Lay(gaps: seq<string>, words: seq<string>): string
    requires |gaps| == |words| + 1
  {
    if words == [] then gaps[0] else gaps[0] + (words[0] + Lay(gaps[1..], words[1..]))
  }

  /** The gaps are blank, and none between two words is empty. */
  predicate Separates(gaps: seq<string>, words: seq<string>)
  {
    && |gaps| == |words| + 1
    && (forall i | 0 <= i < |gaps| :: Blank(gaps[i]) && (0 < i < |words| ==> gaps[i] != []))
    && (forall i | 0 <= i < |words| :: IsWord(words[i]))
  }

  /** Word i decoded, or nothing if the line has fewer words. */
  function Field(words: seq<string>, i: nat): string { if i < |words| then CString(Unescape(words[i])) else [] }

  predicate AllDigits(w: string) { forall i | 0 <= i < |w| :: '0' <= w[i] <= '9' }

  /** Word i is missing or a number. */
  predicate Numeric(words: seq<string>, i: nat) { i < |words| ==> AllDigits(words[i]) }

  function NumberAt(words: seq<string>, i: nat): int
    requires Numeric(words, i)
  {
    if i < |words| then Atoi(words[i]) else 0
  }

  lemma {:induction false} SkipGap(gap: string, rest: string)
    requires Blank(gap) && (rest != [] ==> rest[0] != ' ' && rest[0] != '\t')
    ensures SkipSpaces(gap + rest) == rest
  {
    if gap == [] {
      assert gap + rest == rest;
    } else {
      SkipGap(gap[1..], rest);
      assert (gap + rest)[1..] == gap[1..] + rest;
    }
  }

  /** The line from its first word on. */
  function Rest(gaps: seq<string>, words: seq<string>): string
    requires |gaps| == |words| + 1
  {
    if words == [] then [] else words[0] + Lay(gaps[1..], words[1..])
  }

  lemma RestOf(gaps: seq<string>, words: seq<string>)
    requires Separates(gaps, words)
    ensures SkipSpaces(Lay(gaps, words)) == Rest(gaps, words)
    ensures Rest(gaps, words) == [] <==> words == []
    ensures words != [] ==> Rest(gaps, words)[0] == words[0][0]
  {
    if words != [] {
      assert IsWord(words[0]) && words[0][0] in words[0];
    } else {
      assert gaps[0] + [] == gaps[0];
    }
    SkipGap(gaps[0], Rest(gaps, words));
  }

  lemma SeparatesTail(gaps: seq<string>, words: seq<string>)
    requires Separates(gaps, words) && words != []
    ensures Separates(gaps[1..], words[1..])
    ensures |words| > 1 ==> gaps[1] != []
  {
  }

  /** What follows the first word: the end, or a blank. */
  lemma AfterWord(gaps: seq<string>, words: seq<string>)
    requires Separates(gaps, words) && words != []
    ensures var rest := Lay(gaps[1..], words[1..]); rest != [] ==> rest[0] == ' ' || rest[0] == '\t'
  {
    SeparatesTail(gaps, words);
    assert Blank(gaps[1]);
  }

  lemma FieldStep(gaps: seq<string>, words: seq<string>)
    requires Separates(gaps, words)
    ensures Unmangle(Rest(gaps, words)) == Field(words, 0)
    ensures NextField(Rest(gaps, words)) == if words == [] then [] else Rest(gaps[1..], words[1..])
  {
    if words != [] {
      AfterWord(gaps, words);
      SeparatesTail(gaps, words);
      assert IsWord(words[0]);
      TokenOf(words[0], Lay(gaps[1..], words[1..]));
      RestOf(gaps[1..], words[1..]);
    }
  }

  /** A number at the start of the first word, and what comes after it. */
  lemma NumberStep(gaps: seq<string>, words: seq<string>)
    requires Separates(gaps, words)
    ensures var s := Rest(gaps, words);
            && (Junk(AfterNumber(s)) <==> !Numeric(words, 0))
            && (Numeric(words, 0) ==>
                  Number(s) == NumberAt(words, 0)
                  && SkipSpaces(AfterNumber(s)) == if words == [] then [] else Rest(gaps[1..], words[1..]))
  {
    if words != [] {
      AfterWord(gaps, words);
      SeparatesTail(gaps, words);
      RestOf(gaps[1..], words[1..]);
      DigitsOfWord(words[0], Lay(gaps[1..], words[1..]));
    }
  }

  lemma DigitsOfWord(w: string, rest: string)
    requires IsWord(w) && (rest != [] ==> rest[0] == ' ' || rest[0] == '\t')
    ensures Junk(AfterNumber(w + rest)) <==> !AllDigits(w)
    ensures AllDigits(w) ==> Digits(w + rest) == w && AfterNumber(w + rest) == rest
  {
    var s := w + rest;
    if AllDigits(w) {
      DigitsOf(w, rest);
    } else {
      var d := Digits(s);
      var k :| 0 <= k < |w| && !IsDigit(w[k]);
      assert s[k] == w[k] && |d| <= k;
      assert s[|d|..][0] == w[|d|] && w[|d|] in w;
    }
  }

  /** The line from word number k on. */
  function From(gaps: seq<string>, words: seq<string>, k: nat): string
    requires |gaps| == |words| + 1
  {
    if k <= |words| then Rest(gaps[k..], words[k..]) else []
  }

  lemma SeparatesFrom(gaps: seq<string>, words: seq<string>, k: nat)
    requires Separates(gaps, words) && k <= |words|
    ensures Separates(gaps[k..], words[k..])
    ensures k < |words| ==> gaps[k..][1..] == gaps[k + 1..] && words[k..][1..] == words[k + 1..]
  {
  }

  lemma FieldAt(gaps: seq<string>, words: seq<string>, k: nat)
    requires Separates(gaps, words)
    ensures Unmangle(From(gaps, words, k)) == Field(words, k)
    ensures NextField(From(gaps, words, k)) == From(gaps, words, k + 1)
  {
    if k <= |words| {
      SeparatesFrom(gaps, words, k);
      FieldStep(gaps[k..], words[k..]);
    }
  }

  lemma NumberFrom(gaps: seq<string>, words: seq<string>, k: nat)
    requires Separates(gaps, words)
    ensures var s := From(gaps, words, k);
            && (Junk(AfterNumber(s)) <==> !Numeric(words, k))
            && (Numeric(words, k) ==>
                  Number(s) == NumberAt(words, k) && SkipSpaces(AfterNumber(s)) == From(gaps, words, k + 1))
  {
    if k <= |words| {
      SeparatesFrom(gaps, words, k);
      NumberStep(gaps[k..], words[k..]);
    }
  }

  lemma {:induction false} FieldsFrom(gaps: seq<string>, words: seq<string>, k: nat, fields: seq<string>)
    requires Separates(gaps, words) && |fields| == k <= 4
    requires forall i | 0 <= i < k :: fields[i] == Field(words, i)
    ensures ParseFields(From(gaps, words, k), fields) == Says(words)
    decreases 4 - k
  {
    if k < 4 {
      FieldAt(gaps, words, k);
      ParseStep(From(gaps, words, k), fields, Field(words, k), From(gaps, words, k + 1));
      FieldsFrom(gaps, words, k + 1, fields + [Field(words, k)]);
    } else {
      NumbersFrom(gaps, words, fields);
    }
  }

  lemma NumbersFrom(gaps: seq<string>, words: seq<string>, fields: seq<string>)
    requires Separates(gaps, words) && |fields| == 4
    requires forall i | 0 <= i < 4 :: fields[i] == Field(words, i)
    ensures ParseFields(From(gaps, words, 4), fields) == Says(words)
  {
    NumberFrom(gaps, words, 4);
    NumberFrom(gaps, words, 5);
    NumbersSay(From(gaps, words, 4), From(gaps, words, 5), words, fields);
  }

  lemma NumbersSay(f: string, p: string, words: seq<string>, fields: seq<string>)
    requires |fields| == 4 && forall i | 0 <= i < 4 :: fields[i] == Field(words, i)
    requires Junk(AfterNumber(f)) <==> !Numeric(words, 4)
    requires Junk(AfterNumber(p)) <==> !Numeric(words, 5)
    requires Numeric(words, 4) ==> Number(f) == NumberAt(words, 4) && SkipSpaces(AfterNumber(f)) == p
    requires Numeric(words, 5) ==> Number(p) == NumberAt(words, 5)
    ensures ParseNumbers(f, fields) == Says(words)
  {
    assert fields[0] == Field(words, 0) && fields[1] == Field(words, 1);
    assert fields[2] == Field(words, 2) && fields[3] == Field(words, 3);
  }

  /** What the words of a line say: an entry, with empty fields and zeros for missing words, if the fifth and the sixth
      word are numbers or missing. */
  function Says(words: seq<string>): Parsed
  {
    if Numeric(words, 4) && Numeric(words, 5)
    then Good(Entry(Field(words, 0), Field(words, 1), Field(words, 2), Field(words, 3),
                    NumberAt(words, 4), NumberAt(words, 5)))
    else Bad
  }

  /** What a line says, however its words are spaced: nothing if it has no words or starts with '#', and otherwise what
      its words say. */
  lemma LineSays(gaps: seq<string>, words: seq<string>)
    requires Separates(gaps, words)
    ensures ParseLine(Lay(gaps, words)) ==
              if words == [] || words[0][0] == '#' then Skipped
              else Says(words)
  {
    RestOf(gaps, words);
    if words != [] && words[0][0] != '#' {
      assert gaps[0..] == gaps && words[0..] == words;
      FieldsFrom(gaps, words, 0, []);
    }
  }

  /** Every line is made of words and gaps. */
  lemma {:induction false} EveryLine(l: string) returns (gaps: seq<string>, words: seq<string>)
    ensures Separates(gaps, words) && Lay(gaps, words) == l
    decreases |l|
  {
    if Blank(l) {
      gaps, words := [l], [];
    } else {
      var gap, w, rest := FirstWord(l);
      var gs, ws := EveryLine(rest);
      NoGapAtWord(gs, ws, rest);
      gaps, words := [gap] + gs, [w] + ws;
      LayMore(gap, gs, w, ws);
    }
  }

  lemma FirstWord(l: string) returns (gap: string, w: string, rest: string)
    requires !Blank(l)
    ensures Blank(gap) && IsWord(w) && l == gap + (w + rest) && |rest| < |l|
    ensures rest != [] ==> IsBlank(rest[0])
  {
    gap := GapOf(l);
    assert gap + [] == gap;
    w, rest := WordOf(SkipSpaces(l));
  }

  lemma WordOf(s: string) returns (w: string, rest: string)
    requires s != [] && !IsBlank(s[0])
    ensures IsWord(w) && s == w + rest && (rest != [] ==> IsBlank(rest[0]))
  {
    w := Token(s);
    rest := s[|w|..];
  }

  lemma WordFirst(gap: string, w: string, rest: string)
    requires IsWord(w)
    ensures gap == [] ==> gap + (w + rest) != [] && !IsBlank((gap + (w + rest))[0])
  {
    assert w[0] in w;
    assert [] + (w + rest) == w + rest;
  }

  lemma LayMore(gap: string, gaps: seq<string>, w: string, words: seq<string>)
    requires Separates(gaps, words) && Blank(gap) && IsWord(w)
    requires words != [] ==> gaps[0] != []
    ensures Separates([gap] + gaps, [w] + words)
    ensures Lay([gap] + gaps, [w] + words) == gap + (w + Lay(gaps, words))
  {
    assert ([gap] + gaps)[1..] == gaps && ([w] + words)[1..] == words;
  }

  lemma {:induction false} GapOf(l: string) returns (gap: string)
    ensures l == gap + SkipSpaces(l) && Blank(gap)
  {
    if l != [] && IsBlank(l[0]) {
      var tail := GapOf(l[1..]);
      gap := [l[0]] + tail;
      Reassociate([l[0]], tail, SkipSpaces(l[1..]));
      assert l == [l[0]] + l[1..];
    } else {
      gap := [];
    }
  }

  /** Text that does not start with a word starts with a gap. */
  lemma NoGapAtWord(gaps: seq<string>, words: seq<string>, s: string)
    requires Separates(gaps, words) && Lay(gaps, words) == s && (s != [] ==> IsBlank(s[0]))
    ensures words != [] ==> gaps[0] != []
  {
    if words != [] {
      assert IsWord(words[0]);
      WordFirst(gaps[0], words[0], Lay(gaps[1..], words[1..]));
    }
  }

  // ----- decoding a word -----

  /** A backslash and three octal digits stand for one byte, of which eight bits are kept. */
  lemma OctalDecoded(a: nat, b: nat, c: nat, rest: string)
    requires a < 8 && b < 8 && c < 8
    ensures Unescape(['\\', DIGITS[a], DIGITS[b], DIGITS[c]] + rest)
         == [((64 * a + 8 * b + c) % 256) as char] + Unescape(rest)
  {
    DigitChar(a);
    DigitChar(b);
    DigitChar(c);
    Escaped(DIGITS[a], DIGITS[b], DIGITS[c], rest);
  }

  lemma Escaped(a: char, b: char, c: char, rest: string)
    requires IsOctal(a) && IsOctal(b) && IsOctal(c)
    ensures var n := 64 * (a as int - '0' as int) + 8 * (b as int - '0' as int) + (c as int - '0' as int);
            Unescape(['\\', a, b, c] + rest) == [(n % 256) as char] + Unescape(rest)
  {
    var t := ['\\', a, b, c] + rest;
    assert EscapeAt(t);
    assert t[4..] == rest;
  }

  /** Any other backslash stands for itself. */
  lemma BackslashKept(rest: string)
    requires !(|rest| >= 3 && '0' <= rest[0] <= '7' && '0' <= rest[1] <= '7' && '0' <= rest[2] <= '7')
    ensures Unescape(['\\'] + rest) == ['\\'] + Unescape(rest)
  {
    assert (['\\'] + rest)[1..] == rest;
  }

  /** ... and so does everything else. */
  lemma {:induction false} OthersKept(s: string, rest: string)
    requires '\\' !in s
    ensures Unescape(s + rest) == s + Unescape(rest)
  {
    if s == [] {
      assert s + rest == rest;
    } else {
      OthersKept(s[1..], rest);
      assert (s + rest)[1..] == s[1..] + rest && s[0] in s;
      Reassociate([s[0]], s[1..], Unescape(rest));
      assert [s[0]] + s[1..] == s;
    }
  }

  /** Numbers are read in decimal, and those beyond a long count as its largest value, whose low 32 bits are -1. */
  lemma NumberRead(d: string, k: nat)
    requires AllDigits(d) && k < 10
    ensures Value([]) == 0 && Value(d + [DIGITS[k]]) == 10 * Value(d) + k
    ensures Value(d) <= 0x7fff_ffff ==> Atoi(d) == Value(d)
    ensures Value(d) >= 0x7fff_ffff_ffff_ffff ==> Atoi(d) == -1
  {
    DigitChar(k);
    assert (d + [DIGITS[k]])[..|d|] == d;
  }

  // ----- what is read from a file -----

  function Lines(ls: seq<string>): string
  {
    if ls == [] then [] else ls[0] + "\n" + Lines(ls[1..])
  }

  /** A line that fgets delivers whole. */
  predicate Fits(l: string) { '\n' !in l && '\0' !in l && |l| < 4095 }

  predicate AllFit(ls: seq<string>) { forall i | 0 <= i < |ls| :: Fits(ls[i]) }

  /** The entries of the good lines, for any way of parsing one. */
  function Goods(parse: string -> Parsed, ls: seq<string>): seq<Entry>
  {
    if ls == [] then [] else GoodOne(parse(ls[0])) + Goods(parse, ls[1..])
  }

  /** How many lines are bad. */
  function Bads(parse: string -> Parsed, ls: seq<string>): nat
  {
    if ls == [] then 0 else BadOne(parse(ls[0])) + Bads(parse, ls[1..])
  }

  function GoodOne(p: Parsed): seq<Entry> { match p case Good(e) => [e] case _ => [] }

  function BadOne(p: Parsed): nat { if p == Bad then 1 else 0 }

  /** What a line leads to. */
  function Tried(p: Parsed, next: Reader): Try
  {
    match p case Good(e) => Done(Some(e), next) case _ => Again(next)
  }

  /** Reading everything goes on with what trying a line leads to. */
  ghost predicate GoesOn(all: Reader -> seq<Entry>, tries: Reader -> Try, r: Reader)
  {
    all(r) == match tries(r)
              case Done(None, _) => []
              case Done(Some(e), next) => [e] + all(next)
              case Again(next) => all(next)
  }

  lemma ReadAllGoesOn(r: Reader)
    ensures GoesOn(ReadAll, TryLine, r)
  {
  }

  /** The first of the lines is tried, and the others are still to be read. */
  ghost predicate TriesFirst(
    tries: Reader -> Try, parse: string -> Parsed, text: string, l: string, rest: string, soft: nat
  )
  {
    text == l + "\n" + rest && Fits(l) && soft < 5 ==>
      tries(Reader(text, false, soft)) == Tried(parse(l), Reader(rest, false, soft + BadOne(parse(l))))
  }

  lemma TryLineTries(text: string, l: string, rest: string, soft: nat)
    ensures TriesFirst(TryLine, ParseLine, text, l, rest, soft)
  {
    if text == l + "\n" + rest && Fits(l) && soft < 5 {
      ReadLineOf(l, rest);
      TryFirst(Reader(text, false, soft), l, rest, ParseLine(l));
    }
  }

  lemma TryFirst(r: Reader, l: string, rest: string, p: Parsed)
    requires !r.errs && r.softErrs < 5 && ReadLine(r.rest) == Got(l, rest) && p == ParseLine(l)
    ensures TryLine(r) == Tried(p, Reader(rest, false, r.softErrs + BadOne(p)))
  {
  }

  lemma ReadStep(all: Reader -> seq<Entry>, tries: Reader -> Try, r: Reader, p: Parsed, next: Reader)
    requires GoesOn(all, tries, r) && tries(r) == Tried(p, next)
    ensures all(r) == GoodOne(p) + all(next)
  {
  }

  /** Good lines give their entries and bad ones count, until there have been five. */
  lemma {:induction false} ReadAhead(
    all: Reader -> seq<Entry>, tries: Reader -> Try, parse: string -> Parsed, ls: seq<string>, rest: string, soft: nat
  )
    requires AllFit(ls) && soft + Bads(parse, ls) < 5
    requires forall r :: GoesOn(all, tries, r)
    requires forall t, l, r, s | 0 <= s :: TriesFirst(tries, parse, t, l, r, s)
    ensures all(Reader(Lines(ls) + rest, false, soft))
         == Goods(parse, ls) + all(Reader(rest, false, soft + Bads(parse, ls)))
  {
    if ls == [] {
      assert Lines(ls) + rest == rest;
    } else {
      var text, more := Lines(ls) + rest, Lines(ls[1..]) + rest;
      var p := parse(ls[0]);
      Reassociate(ls[0] + "\n", Lines(ls[1..]), rest);
      assert Fits(ls[0]) && TriesFirst(tries, parse, text, ls[0], more, soft);
      assert GoesOn(all, tries, Reader(text, false, soft));
      ReadStep(all, tries, Reader(text, false, soft), p, Reader(more, false, soft + BadOne(p)));
      ReadAhead(all, tries, parse, ls[1..], rest, soft + BadOne(p));
      Appended(GoodOne(p), Goods(parse, ls[1..]), all(Reader(rest, false, soft + Bads(parse, ls))));
    }
  }

  lemma Appended(a: seq<Entry>, b: seq<Entry>, c: seq<Entry>)
    ensures a + (b + c) == (a + b) + c
  {
  }

  lemma StopsAt(
    all: Reader -> seq<Entry>, tries: Reader -> Try, parse: string -> Parsed, ls: seq<string>, rest: string,
        start: Reader
  )
    requires AllFit(ls) && Bads(parse, ls) < 5 && all(Reader(rest, false, Bads(parse, ls))) == []
    requires forall r :: GoesOn(all, tries, r)
    requires forall t, l, r, s | 0 <= s :: TriesFirst(tries, parse, t, l, r, s)
    requires start == Reader(Lines(ls) + rest, false, 0)
    ensures all(start) == Goods(parse, ls)
  {
    ReadAhead(all, tries, parse, ls, rest, 0);
  }

  /** After the lines reading ends. */
  predicate EndsHere(rest: string, soft: nat) { ReadAll(Reader(rest, false, soft)) == [] }

  lemma NothingMore(rest: string, soft: nat)
    ensures rest == [] || soft >= 5 ==> EndsHere(rest, soft)
  {
  }

  lemma ReadUntil(ls: seq<string>, rest: string, start: Reader)
    requires AllFit(ls) && Bads(ParseLine, ls) <= 4 && EndsHere(rest, Bads(ParseLine, ls))
    requires start == Open(Lines(ls) + rest)
    ensures ReadAll(start) == Goods(ParseLine, ls)
  {
    forall r ensures GoesOn(ReadAll, TryLine, r) { ReadAllGoesOn(r); }
    forall t, l, r, s: nat ensures TriesFirst(TryLine, ParseLine, t, l, r, s) { TryLineTries(t, l, r, s); }
    StopsAt(ReadAll, TryLine, ParseLine, ls, rest, start);
  }

  /** A file of lines that fit, at most four of them bad, gives the entries of its good lines. */
  lemma FileRead(ls: seq<string>)
    requires AllFit(ls) && Bads(ParseLine, ls) <= 4
    ensures ReadAll(Open(Lines(ls))) == Goods(ParseLine, ls)
  {
    NothingMore([], Bads(ParseLine, ls));
    assert Lines(ls) + [] == Lines(ls);
    ReadUntil(ls, [], Open(Lines(ls)));
  }

  /** After the fifth bad line, or a line that does not fit, the rest of the file is lost. */
  lemma RestLost(ls: seq<string>, l: string, rest: string)
    requires AllFit(ls) && Bads(ParseLine, ls) <= 4
    requires '\n' !in l && '\0' !in l && (!Fits(l) || (Bads(ParseLine, ls) == 4 && ParseLine(l) == Bad))
    ensures ReadAll(Open(Lines(ls) + (l + "\n" + rest))) == Goods(ParseLine, ls)
  {
    if Fits(l) { FifthBad(l, rest, Bads(ParseLine, ls)); } else { LongLine(l, rest, Bads(ParseLine, ls)); }
    ReadUntil(ls, l + "\n" + rest, Open(Lines(ls) + (l + "\n" + rest)));
  }

  lemma FifthBad(l: string, rest: string, soft: nat)
    requires Fits(l) && ParseLine(l) == Bad && soft == 4
    ensures EndsHere(l + "\n" + rest, soft)
  {
    var r := Reader(l + "\n" + rest, false, soft);
    ReadLineOf(l, rest);
    TryFirst(r, l, rest, Bad);
    NextAgain(r, Reader(rest, false, soft + 1));
    NothingMore(rest, soft + 1);
  }

  lemma LongLine(l: string, rest: string, soft: nat)
    requires '\n' !in l && '\0' !in l && |l| >= 4095 && soft < 5
    ensures EndsHere(l + "\n" + rest, soft)
  {
    ReadLineOf(l, rest);
    var r := Reader(l + "\n" + rest, false, soft);
    var broken := Reader(ReadLine(r.rest).rest, true, soft + 1);
    assert TryLine(r) == Again(broken) && Next(broken).entry == None;
    NextAgain(r, broken);
  }

  lemma NextAgain(r: Reader, next: Reader)
    requires TryLine(r) == Again(next)
    ensures ReadAll(r) == ReadAll(next)
  {
  }
}
