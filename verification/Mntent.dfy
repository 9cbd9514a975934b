/** The mount-table codec of src/mntent.c: escaping, the record printer and the record parser.
    A C pointer into a string is the suffix it points at; the terminating NUL is the end of the suffix. */
module Mntent {
  import opened Common
  import opened Strings

  // ----- escaping -----

  predicate NeedsEscape(c: char) { c == ' ' || c == '\t' || c == '\n' || c == '\\' }

  function Digit(d: int): char
    requires 0 <= d < 10
  {
    ('0' as int + d) as char
  }

  function Escape(c: char): (r: string)
    ensures |r| == 4
  {
    var n := c as int;
    ['\\', Digit((n / 64) % 4), Digit((n / 8) % 8), Digit(n % 8)]
  }

  function MangleChar(c: char): string { if NeedsEscape(c) then Escape(c) else [c] }

  function Mangle(s: string): string
  {
    if s == [] then [] else MangleChar(s[0]) + Mangle(s[1..])
  }

  predicate IsOctal(c: char) { '0' <= c <= '7' }

  /** An escape sequence starts here: a backslash and three octal digits. */
  predicate EscapeAt(t: string)
  {
    |t| >= 4 && t[0] == '\\' && IsOctal(t[1]) && IsOctal(t[2]) && IsOctal(t[3])
  }

  /** The byte an escape stands for; a `char` keeps the low eight bits. */
  function EscapedByte(t: string): char
    requires EscapeAt(t)
  {
    ((64 * (t[1] as int - '0' as int) + 8 * (t[2] as int - '0' as int) + (t[3] as int - '0' as int)) % 256) as char
  }

  function Unescape(t: string): (r: string)
    ensures |r| <= |t|
  {
    if t == [] then []
    else if EscapeAt(t) then [EscapedByte(t)] + Unescape(t[4..])
    else [t[0]] + Unescape(t[1..])
  }

  // ----- tokens -----

  predicate IsBlank(c: char) { c == ' ' || c == '\t' }

  function SkipSpaces(s: string): (r: string)
    ensures |r| <= |s| && (r != [] ==> !IsBlank(r[0]))
  {
    if s != [] && IsBlank(s[0]) then SkipSpaces(s[1..]) else s
  }

  /** The text up to the next space, tab or end. */
  function Token(s: string): (t: string)
    ensures t <= s && (|t| < |s| ==> IsBlank(s[|t|]))
    ensures forall i | 0 <= i < |t| :: !IsBlank(t[i])
  {
    if s == [] || IsBlank(s[0]) then [] else [s[0]] + Token(s[1..])
  }

  function AfterToken(s: string): string { s[|Token(s)|..] }

  function Unmangle(s: string): string { CString(Unescape(Token(s))) }

  // ----- numbers -----

  function Dec(n: nat): string
  {
    if n < 10 then [Digit(n)] else Dec(n / 10) + [Digit(n % 10)]
  }

  /** printf's %d. */
  function PrintInt(n: int): string { if n < 0 then "-" + Dec(-n) else Dec(n) }

  /** atoi at a digit: strtol saturates, then the result is cut down to int. */
  function Atoi(d: string): int
    requires forall i | 0 <= i < |d| :: IsDigit(d[i])
  {
    ToInt32(if Value(d) <= LONG_MAX then Value(d) else LONG_MAX)
  }

  // ----- records -----

  datatype Entry = Entry(fsname: string, dir: string, kind: string, opts: string, freq: int, passno: int)

  /** The text fields in the order of the file. */
  function Text(e: Entry, i: nat): string
  {
    if i == 0 then e.fsname else if i == 1 then e.dir else if i == 2 then e.kind else e.opts
  }

  function Word(e: Entry, i: nat): string
  {
    if i < 4 then Mangle(Text(e, i)) else PrintInt(if i == 4 then e.freq else e.passno)
  }

  function Words(e: Entry): (w: seq<string>)
    ensures |w| == 6 && forall i | 0 <= i < 6 :: w[i] == Word(e, i)
  {
    seq(6, i requires 0 <= i < 6 => Word(e, i))
  }

  /** Words with one space between them. */
  function Join(words: seq<string>): string
  {
    if words == [] then [] else if |words| == 1 then words[0] else words[0] + (" " + Join(words[1..]))
  }

  /** What my_addmntent prints, without the newline. */
  function Line(e: Entry): string { Join(Words(e)) }

  function PrintAll(es: seq<Entry>): string
  {
    if es == [] then [] else Line(es[0]) + "\n" + PrintAll(es[1..])
  }

  datatype Parsed = Skipped | Bad | Good(e: Entry)

  /** The position after the token at s and the blanks behind it. */
  function NextField(s: string): string { SkipSpaces(AfterToken(s)) }

  function Number(s: string): int { Atoi(Digits(s)) }

  function AfterNumber(s: string): string { s[|Digits(s)|..] }

  /** Neither the end nor a blank: the line is malformed here. */
  predicate Junk(s: string) { s != [] && !IsBlank(s[0]) }

  /** The two numbers, after the four text fields. */
  function ParseNumbers(f: string, fields: seq<string>): Parsed
    requires |fields| == 4
  {
    var p := SkipSpaces(AfterNumber(f));
    if Junk(AfterNumber(f)) || Junk(AfterNumber(p)) then Bad
    else Good(Entry(fields[0], fields[1], fields[2], fields[3], Number(f), Number(p)))
  }

  /** The rest of a line when some of the four text fields have been read. */
  function ParseFields(s: string, fields: seq<string>): Parsed
    requires |fields| <= 4
    decreases 4 - |fields|, s
  {
    if |fields| == 4 then ParseNumbers(s, fields)
    else ParseFields(NextField(s), fields + [Unmangle(s)])
  }

  /** How my_getmntent takes one line apart. */
  function ParseLine(l: string): Parsed
  {
    var a := SkipSpaces(l);
    if a == [] || a[0] == '#' then Skipped else ParseFields(a, [])
  }

  const ERR_MAX := 5
  const BUFFER_SIZE := 4096

  datatype Read = Eof | Broken(rest: string) | Got(line: string, rest: string)

  /** fgets into the buffer, then strchr for the newline: without one the file counts as corrupted. */
  function ReadLine(text: string): (r: Read)
    ensures !r.Eof? ==> |r.rest| < |text|
  {
    if text == [] then Eof
    else
      var n := if LineLength(text) < BUFFER_SIZE then LineLength(text) else BUFFER_SIZE - 1;
      var chunk := text[..n];
      if chunk[n - 1] == '\n' && '\0' !in chunk then Got(chunk[..n - 1], text[n..]) else Broken(text[n..])
  }

  /** The fields of mntFILE that steer reading, with the unread text. */
  datatype Reader = Reader(rest: string, errs: bool, softErrs: nat)

  function Open(text: string): Reader { Reader(text, false, 0) }

  /** What one line leads to: the call returns, or goes on to the next line. */
  datatype Try = Done(entry: Option<Entry>, reader: Reader) | Again(reader: Reader)

  function TryLine(r: Reader): (t: Try)
    ensures t.Again? || t.entry.Some? ==> |t.reader.rest| < |r.rest|
  {
    if r.errs || r.softErrs >= ERR_MAX then Done(None, r)
    else match ReadLine(r.rest)
      case Eof => Done(None, r)
      case Broken(rest) => Again(Reader(rest, true, r.softErrs + 1))
      case Got(line, rest) =>
        match ParseLine(line)
        case Skipped => Again(r.(rest := rest))
        case Bad => Again(r.(rest := rest, softErrs := r.softErrs + 1))
        case Good(e) => Done(Some(e), r.(rest := rest))
  }

  datatype Step = Step(entry: Option<Entry>, reader: Reader)

  /** One call of my_getmntent. */
  function Next(r: Reader): (s: Step)
    ensures s.entry.Some? ==> |s.reader.rest| < |r.rest|
    decreases |r.rest|
  {
    match TryLine(r)
    case Done(entry, reader) => Step(entry, reader)
    case Again(reader) => Next(reader)
  }

  /** All the entries that repeated calls deliver. */
  function ReadAll(r: Reader): seq<Entry>
    decreases |r.rest|
  {
    var s := Next(r);
    if s.entry.None? then [] else [s.entry.value] + ReadAll(s.reader)
  }

  // ----- escaping and its inverse -----

  predicate TokenText(s: string) { forall i | 0 <= i < |s| :: !IsBlank(s[i]) && s[i] != '\n' && s[i] != '\0' }

  lemma {:induction false} MangleIsToken(s: string)
    requires '\0' !in s
    ensures TokenText(Mangle(s)) && |s| <= |Mangle(s)| <= 4 * |s|
    ensures s != [] && s[0] != '#' ==> Mangle(s)[0] != '#'
  {
    if s != [] {
      MangleIsToken(s[1..]);
      assert TokenText(MangleChar(s[0]));
    }
  }

  lemma EscapeInverse(c: char, rest: string)
    ensures Unescape(MangleChar(c) + rest) == [c] + Unescape(rest)
  {
    var t := MangleChar(c) + rest;
    if NeedsEscape(c) {
      assert EscapeAt(t) && EscapedByte(t) == c;
      assert t[4..] == rest;
    } else {
      assert t[1..] == rest;
    }
  }

  lemma {:induction false} UnescapeMangle(s: string)
    ensures Unescape(Mangle(s)) == s
  {
    if s != [] {
      UnescapeMangle(s[1..]);
      EscapeInverse(s[0], Mangle(s[1..]));
    }
  }

  /** A word followed by the end or a blank is read as that token. */
  lemma {:induction false} TokenOf(w: string, rest: string)
    requires forall i | 0 <= i < |w| :: !IsBlank(w[i])
    requires rest != [] ==> IsBlank(rest[0])
    ensures Token(w + rest) == w && AfterToken(w + rest) == rest
  {
    if w == [] {
      assert w + rest == rest;
    } else {
      TokenOf(w[1..], rest);
      assert (w + rest)[1..] == w[1..] + rest;
    }
  }

  /** The escaped form has no separator in it, and decoding it recovers the text whatever follows the separator. */
  lemma UnmangleMangle(s: string, sep: char, rest: string)
    requires '\0' !in s && IsBlank(sep)
    ensures TokenText(Mangle(s))
    ensures Unmangle(Mangle(s) + [sep] + rest) == s
  {
    MangleIsToken(s);
    TokenOf(Mangle(s), [sep] + rest);
    assert Mangle(s) + [sep] + rest == Mangle(s) + ([sep] + rest);
    UnescapeMangle(s);
  }

  // ----- numbers and their inverse -----

  lemma {:induction false} DecDigits(n: nat)
    ensures Dec(n) != [] && forall i | 0 <= i < |Dec(n)| :: IsDigit(Dec(n)[i])
    ensures Value(Dec(n)) == n
  {
    if n >= 10 {
      DecDigits(n / 10);
      assert Dec(n)[..|Dec(n)| - 1] == Dec(n / 10);
    } else {
      assert Dec(n)[..0] == [];
    }
  }

  lemma {:induction false} DigitsOf(d: string, rest: string)
    requires forall i | 0 <= i < |d| :: IsDigit(d[i])
    requires rest != [] ==> !IsDigit(rest[0])
    ensures Digits(d + rest) == d && AfterNumber(d + rest) == rest
  {
    if d == [] {
      assert d + rest == rest;
    } else {
      DigitsOf(d[1..], rest);
      assert (d + rest)[1..] == d[1..] + rest;
    }
  }

  lemma NumberInverse(n: nat, rest: string)
    requires n <= INT_MAX && (rest != [] ==> !IsDigit(rest[0]))
    ensures Number(PrintInt(n) + rest) == n && AfterNumber(PrintInt(n) + rest) == rest
    ensures TokenText(PrintInt(n)) && PrintInt(n) != []
  {
    var d := Dec(n);
    DecDigits(n);
    DigitsOf(d, rest);
    assert PrintInt(n) == d;
    assert forall i | 0 <= i < |d| :: !IsBlank(d[i]) && d[i] != '\n' && d[i] != '\0';
  }

  // ----- the parser inverts the printer -----

  /** An entry that the printed form can carry, line length aside. */
  predicate WellFormed(e: Entry)
  {
    && e.fsname != [] && e.dir != [] && e.kind != [] && e.opts != []
    && '\0' !in e.fsname && '\0' !in e.dir && '\0' !in e.kind && '\0' !in e.opts
    && e.fsname[0] != '#'
    && 0 <= e.freq <= INT_MAX && 0 <= e.passno <= INT_MAX
  }

  /** The line and its newline fit the reader's buffer. */
  predicate FitsBuffer(e: Entry) { |Line(e)| + 1 < BUFFER_SIZE }

  predicate Representable(e: Entry) { WellFormed(e) && FitsBuffer(e) }

  lemma SkipOneSpace(rest: string)
    requires rest != [] && !IsBlank(rest[0])
    ensures SkipSpaces(" " + rest) == rest
  {
    assert (" " + rest)[1..] == rest;
    assert SkipSpaces(rest) == rest;
  }

  lemma FieldInverse(s: string, rest: string)
    requires s != [] && '\0' !in s && rest != [] && !IsBlank(rest[0])
    ensures Unmangle(Mangle(s) + (" " + rest)) == s
    ensures NextField(Mangle(s) + (" " + rest)) == rest
  {
    MangleIsToken(s);
    TokenOf(Mangle(s), " " + rest);
    UnescapeMangle(s);
    SkipOneSpace(rest);
  }

  lemma WordIsToken(e: Entry, k: nat)
    requires WellFormed(e)
    ensures Word(e, k) != [] && TokenText(Word(e, k))
    ensures k == 0 ==> Word(e, k)[0] != '#'
  {
    if k < 4 {
      MangleIsToken(Text(e, k));
    } else {
      NumberInverse(if k == 4 then e.freq else e.passno, []);
    }
  }

  /** The printed words from number k on. */
  function LineFrom(e: Entry, k: nat): string
    decreases 5 - k, e
  {
    if k >= 5 then Word(e, 5) else Word(e, k) + (" " + LineFrom(e, k + 1))
  }

  lemma {:induction false} LineFromJoin(e: Entry, k: nat)
    requires k <= 5
    ensures Join(Words(e)[k..]) == LineFrom(e, k)
    decreases 5 - k
  {
    if k < 5 {
      LineFromJoin(e, k + 1);
      assert Words(e)[k..][1..] == Words(e)[k + 1..];
    }
  }

  lemma {:induction false} LineFromPlain(e: Entry, k: nat)
    requires WellFormed(e)
    ensures LineFrom(e, k) != [] && !IsBlank(LineFrom(e, k)[0]) && OneLine(LineFrom(e, k))
    ensures k == 0 ==> LineFrom(e, k)[0] != '#'
    decreases 5 - k
  {
    WordIsToken(e, if k < 5 then k else 5);
    if k < 5 {
      LineFromPlain(e, k + 1);
      OneLineJoin(Word(e, k), LineFrom(e, k + 1));
    }
  }

  lemma OneLineJoin(a: string, b: string)
    requires OneLine(a) && OneLine(b)
    ensures OneLine(a + (" " + b))
  {
  }

  lemma NumbersInverse(freq: nat, passno: nat, fields: seq<string>)
    requires freq <= INT_MAX && passno <= INT_MAX && |fields| == 4
    ensures ParseNumbers(PrintInt(freq) + (" " + PrintInt(passno)), fields)
         == Good(Entry(fields[0], fields[1], fields[2], fields[3], freq, passno))
  {
    var b := PrintInt(passno);
    NumberInverse(freq, " " + b);
    NumberInverse(passno, []);
    assert b + [] == b;
    SkipOneSpace(b);
  }

  lemma ParseStep(s: string, fields: seq<string>, text: string, rest: string)
    requires |fields| < 4 && Unmangle(s) == text && NextField(s) == rest
    ensures ParseFields(s, fields) == ParseFields(rest, fields + [text])
  {
  }

  lemma {:induction false} ParseLineFrom(e: Entry, k: nat, fields: seq<string>)
    requires WellFormed(e) && |fields| == k <= 4
    requires forall i | 0 <= i < k :: fields[i] == Text(e, i)
    ensures ParseFields(LineFrom(e, k), fields) == Good(e)
    decreases 4 - k
  {
    if k < 4 {
      var rest := LineFrom(e, k + 1);
      LineFromPlain(e, k + 1);
      FieldInverse(Text(e, k), rest);
      ParseStep(LineFrom(e, k), fields, Text(e, k), rest);
      ParseLineFrom(e, k + 1, fields + [Text(e, k)]);
    } else {
      ParseLineEnd(e, k, fields);
    }
  }

  lemma ParseLineEnd(e: Entry, k: nat, fields: seq<string>)
    requires WellFormed(e) && |fields| == k == 4
    requires forall i | 0 <= i < k :: fields[i] == Text(e, i)
    ensures ParseFields(LineFrom(e, k), fields) == Good(e)
  {
    NumbersInverse(e.freq, e.passno, fields);
    assert LineFrom(e, k) == PrintInt(e.freq) + (" " + PrintInt(e.passno));
    assert fields[0] == e.fsname && fields[1] == e.dir && fields[2] == e.kind && fields[3] == e.opts;
  }

  lemma LineFromStart(e: Entry, k: nat)
    requires WellFormed(e) && k == 0
    ensures ParseLine(Line(e)) == Good(e) && OneLine(Line(e))
  {
    LineFromJoin(e, k);
    assert Words(e)[k..] == Words(e);
    LineFromPlain(e, k);
    ParseLineFrom(e, k, []);
  }

  /** my_getmntent takes a printed line apart into the entry that was printed. */
  lemma LineInverse(e: Entry)
    requires WellFormed(e)
    ensures ParseLine(Line(e)) == Good(e) && OneLine(Line(e))
  {
    LineFromStart(e, 0);
  }

  predicate OneLine(s: string) { forall i | 0 <= i < |s| :: s[i] != '\n' && s[i] != '\0' }

  lemma {:induction false} LineLengthOf(l: string, rest: string)
    requires OneLine(l)
    ensures LineLength(l + "\n" + rest) == |l| + 1
  {
    var s := l + "\n" + rest;
    if l != [] {
      LineLengthOf(l[1..], rest);
      assert s[1..] == l[1..] + "\n" + rest;
    }
  }

  /** fgets delivers a line that fits, and finds no newline in one that does not. */
  lemma ReadLineOf(l: string, rest: string)
    requires OneLine(l)
    ensures var r := ReadLine(l + "\n" + rest);
            if |l| + 1 < BUFFER_SIZE then r == Got(l, rest) else r.Broken?
  {
    var s := l + "\n" + rest;
    LineLengthOf(l, rest);
    if |l| + 1 < BUFFER_SIZE {
      var chunk := s[..|l| + 1];
      assert chunk == l + "\n";
      assert chunk[..|l|] == l && s[|l| + 1..] == rest;
    } else {
      assert s[..BUFFER_SIZE - 1][BUFFER_SIZE - 2] == l[BUFFER_SIZE - 2];
    }
  }

  /** How many entries precede the first line that is too long. */
  function ReadablePrefix(es: seq<Entry>): (n: nat)
    ensures n <= |es| && (n < |es| ==> !FitsBuffer(es[n]))
    ensures forall i | 0 <= i < n :: FitsBuffer(es[i])
  {
    if es == [] || !FitsBuffer(es[0]) then 0 else 1 + ReadablePrefix(es[1..])
  }

  /** The next entry of a printed file, or none if its line does not fit the buffer. */
  lemma NextPrinted(e: Entry, rest: string, soft: nat)
    requires WellFormed(e) && soft < ERR_MAX
    ensures var s := Next(Reader(Line(e) + "\n" + rest, false, soft));
            if FitsBuffer(e) then s == Step(Some(e), Reader(rest, false, soft)) else s.entry == None
  {
    LineInverse(e);
    ReadLineOf(Line(e), rest);
  }

  /** Reading back what was printed gives the entries up to the first line that does not fit the buffer, then the
      end. */
  lemma {:induction false} ReadPrinted(es: seq<Entry>, soft: nat)
    requires forall i | 0 <= i < |es| :: WellFormed(es[i])
    requires soft < ERR_MAX
    ensures ReadAll(Reader(PrintAll(es), false, soft)) == es[..ReadablePrefix(es)]
  {
    if es != [] {
      NextPrinted(es[0], PrintAll(es[1..]), soft);
      if FitsBuffer(es[0]) {
        ReadPrinted(es[1..], soft);
        assert es[..ReadablePrefix(es)] == [es[0]] + es[1..][..ReadablePrefix(es[1..])];
      }
    }
  }

  /** The round trip through the file is the identity exactly when every line fits the buffer. */
  lemma RoundTripExactly(es: seq<Entry>)
    requires forall i | 0 <= i < |es| :: WellFormed(es[i])
    ensures ReadAll(Open(PrintAll(es))) == es <==> forall i | 0 <= i < |es| :: FitsBuffer(es[i])
  {
    ReadPrinted(es, 0);
    if ReadablePrefix(es) == |es| {
      assert es[..|es|] == es;
    }
  }

  /** Printing any sequence of representable entries and reading it returns exactly that sequence. */
  lemma RoundTrip(es: seq<Entry>)
    requires forall i | 0 <= i < |es| :: Representable(es[i])
    ensures ReadAll(Open(PrintAll(es))) == es
  {
    RoundTripExactly(es);
  }

  lemma ConcatShift(a: string, b: string, c: string, d: string)
    ensures a + (b + c + d) == (a + b) + c + d
  {
  }

  lemma {:induction false} PrintAppend(es: seq<Entry>, e: Entry)
    ensures PrintAll(es + [e]) == PrintAll(es) + Line(e) + "\n"
  {
    if es == [] {
      assert es + [e] == [e];
      assert [e][1..] == [];
    } else {
      PrintAppend(es[1..], e);
      assert (es + [e])[1..] == es[1..] + [e];
      ConcatShift(Line(es[0]) + "\n", PrintAll(es[1..]), Line(e), "\n");
    }
  }
}
