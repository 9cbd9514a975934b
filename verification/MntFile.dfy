/** The loops of src/mntent.c: moving pointers, fixed buffers and the reader's counters, proved against the codec. */
module MntFile {
  import opened Common
  import opened Strings
  import opened Mntent

  // ----- mangle -----

  lemma {:induction false} MangleSnoc(s: string, c: char)
    ensures Mangle(s + [c]) == Mangle(s) + MangleChar(c)
  {
    if s == [] {
      assert s + [c] == [c];
      assert [c][1..] == [];
    } else {
      MangleSnoc(s[1..], c);
      assert (s + [c])[1..] == s[1..] + [c];
      assert MangleChar(s[0]) + (Mangle(s[1..]) + MangleChar(c)) == (MangleChar(s[0]) + Mangle(s[1..])) + MangleChar(c);
    }
  }

  /** Write one character in escaped form at the output pointer. */
  method PutMangled(buf: array<char>, len: nat, c: char) returns (next: nat)
    requires len + 4 <= buf.Length
    modifies buf
    ensures len < next <= len + 4
    ensures buf[..next] == old(buf[..len]) + MangleChar(c)
  {
    if NeedsEscape(c) {
      var n := c as int;
      buf[len] := '\\';
      buf[len + 1] := Digit((n / 64) % 4);
      buf[len + 2] := Digit((n / 8) % 8);
      buf[len + 3] := Digit(n % 8);
      next := len + 4;
      assert buf[len..next] == Escape(c);
    } else {
      buf[len] := c;
      next := len + 1;
    }
  }

  /** mangle: the buffer of 4n+1 bytes always suffices, NUL included. */
  method MangleText(s: string) returns (buf: array<char>, len: nat)
    requires '\0' !in s
    ensures buf.Length == 4 * |s| + 1 && len < buf.Length
    ensures buf[..len] == Mangle(s) && buf[len] == '\0'
  {
    buf := new char[4 * |s| + 1];
    len := 0;
    for i := 0 to |s|
      invariant len <= 4 * i && buf[..len] == Mangle(s[..i])
    {
      MangleSnoc(s[..i], s[i]);
      assert s[..i + 1] == s[..i] + [s[i]];
      len := PutMangled(buf, len, s[i]);
    }
    assert s[..|s|] == s;
    buf[len] := '\0';
  }

  // ----- pointers into a line -----

  /** *s for a pointer into the line or at its terminating NUL; reading further would be out of bounds. */
  function At(l: string, p: nat): char
    requires p <= |l|
  {
    if p < |l| then l[p] else '\0'
  }

  method SkipSpacesAt(l: string, p: nat) returns (q: nat)
    requires p <= |l|
    ensures p <= q <= |l| && l[q..] == SkipSpaces(l[p..])
  {
    q := p;
    while IsBlank(At(l, q))
      invariant p <= q <= |l| && SkipSpaces(l[q..]) == SkipSpaces(l[p..])
      decreases |l| - q
    {
      assert l[q..][1..] == l[q + 1..];
      q := q + 1;
    }
  }

  method SkipNonspacesAt(l: string, p: nat) returns (q: nat)
    requires p <= |l| && '\0' !in l
    ensures p <= q <= |l| && q - p == |Token(l[p..])| && (q < |l| ==> IsBlank(l[q]))
    ensures l[p..q] == Token(l[p..]) && l[q..] == AfterToken(l[p..])
  {
    q := p;
    while At(l, q) != '\0' && !IsBlank(At(l, q))
      invariant p <= q <= |l| && q - p + |Token(l[q..])| == |Token(l[p..])|
      decreases |l| - q
    {
      assert l[q..][1..] == l[q + 1..];
      q := q + 1;
    }
    assert l[p..][..q - p] == l[p..q];
    assert l[p..][q - p..] == l[q..];
  }

  /** unmangle on arbitrary text: every read stays inside the terminated line, the four-character jump never passes
      the end of the token, the loop stops exactly on it, and the output fits its buffer. */
  method UnmangleAt(l: string, p: nat) returns (buf: array<char>, len: nat)
    requires p <= |l| && '\0' !in l
    ensures buf.Length == |Token(l[p..])| + 1 && len < buf.Length && buf[len] == '\0'
    ensures buf[..len] == Unescape(Token(l[p..]))
  {
    var end := SkipNonspacesAt(l, p);
    buf := new char[end - p + 1];
    len := 0;
    var s := p;
    while s != end
      invariant p <= s <= end && len <= s - p
      invariant buf[..len] + Unescape(l[s..end]) == Unescape(l[p..end])
      decreases end - s
    {
      ghost var done := buf[..len];
      var c, next := DecodeOne(l, s, end);
      buf[len], len, s := c, len + 1, next;
      ConcatOne(done, c, Unescape(l[s..end]));
      assert buf[..len] == done + [c];
    }
    assert l[s..end] == [];
    buf[len] := '\0';
  }

  /** One round of the decoding loop: an escape sequence or a plain character. */
  method DecodeOne(l: string, s: nat, end: nat) returns (c: char, next: nat)
    requires s < end <= |l| && (end < |l| ==> IsBlank(l[end]))
    ensures s < next <= end
    ensures Unescape(l[s..end]) == [c] + Unescape(l[next..end])
  {
    if l[s] == '\\' && IsOctal(At(l, s + 1)) && IsOctal(At(l, s + 2)) && IsOctal(At(l, s + 3)) {
      assert s + 1 < end;  // an octal digit is no blank, so the token goes on
      assert s + 2 < end;
      assert s + 3 < end;
      DecodeEscape(l, s, end);
      c, next := EscapedByte(l[s..s + 4]), s + 4;
    } else {
      DecodePlain(l, s, end);
      c, next := l[s], s + 1;
    }
  }

  lemma DecodeEscape(l: string, s: nat, end: nat)
    requires s + 4 <= end <= |l| && EscapeAt(l[s..s + 4])
    ensures Unescape(l[s..end]) == [EscapedByte(l[s..s + 4])] + Unescape(l[s + 4..end])
  {
    assert l[s..end][4..] == l[s + 4..end];
  }

  lemma DecodePlain(l: string, s: nat, end: nat)
    requires s < end <= |l| && !EscapeAt(l[s..end])
    ensures Unescape(l[s..end]) == [l[s]] + Unescape(l[s + 1..end])
  {
    assert l[s..end][1..] == l[s + 1..end];
  }

  lemma ConcatOne(a: string, x: char, b: string)
    ensures a + ([x] + b) == (a + [x]) + b
  {
  }

  // ----- a line -----

  predicate NulFree(e: Entry) { '\0' !in e.fsname && '\0' !in e.dir && '\0' !in e.kind && '\0' !in e.opts }

  /** One text field: decode it, then move to the next. */
  method Field(l: string, p: nat, fields: seq<string>) returns (more: seq<string>, q: nat)
    requires p <= |l| && '\0' !in l && |fields| < 4
    requires forall i | 0 <= i < |fields| :: '\0' !in fields[i]
    ensures |more| == |fields| + 1 && q <= |l|
    ensures forall i | 0 <= i < |more| :: '\0' !in more[i]
    ensures ParseFields(l[q..], more) == ParseFields(l[p..], fields)
  {
    var buf, len := UnmangleAt(l, p);
    more := fields + [CString(buf[..len])];
    q := SkipNonspacesAt(l, p);
    q := SkipSpacesAt(l, q);
  }

  method SkipDigits(l: string, p: nat) returns (q: nat)
    requires p <= |l|
    ensures p <= q <= |l| && l[q..] == AfterNumber(l[p..])
  {
    q := p;
    while IsDigit(At(l, q))
      invariant p <= q <= |l| && AfterNumber(l[q..]) == AfterNumber(l[p..])
      decreases |l| - q
    {
      assert l[q..][1..] == l[q + 1..];
      q := q + 1;
    }
  }

  method ParseText(l: string) returns (r: Parsed)
    requires '\0' !in l
    ensures r == ParseLine(l) && (r.Good? ==> NulFree(r.e))
  {
    var s := SkipSpacesAt(l, 0);
    assert l[0..] == l;
    if s == |l| || l[s] == '#' { return Skipped; }
    var fields := [];
    fields, s := Field(l, s, fields);
    fields, s := Field(l, s, fields);
    fields, s := Field(l, s, fields);
    fields, s := Field(l, s, fields);
    r := ParseTail(l, s, fields);
  }

  method ParseTail(l: string, p: nat, fields: seq<string>) returns (r: Parsed)
    requires p <= |l| && '\0' !in l && |fields| == 4
    requires forall i | 0 <= i < |fields| :: '\0' !in fields[i]
    ensures r == ParseNumbers(l[p..], fields) && (r.Good? ==> NulFree(r.e))
  {
    var freq := Number(l[p..]);
    var q := SkipDigits(l, p);
    if q < |l| && !IsBlank(l[q]) { return Bad; }
    var s := SkipSpacesAt(l, q);
    var passno := Number(l[s..]);
    var t := SkipDigits(l, s);
    if t < |l| && !IsBlank(l[t]) { return Bad; }
    r := Good(Entry(fields[0], fields[1], fields[2], fields[3], freq, passno));
  }

  // ----- the file -----

  class File {
    var text: string  // all that was printed, the unflushed end included
    var flushed: nat  // how much of it has reached the disk
    var pos: nat
    var errs: bool
    var softErrs: nat

    ghost predicate Valid()
      reads this
    {
      pos <= |text| && flushed <= |text|
    }

    ghost function State(): Reader
      requires Valid()
      reads this
    {
      Reader(text[pos..], errs, softErrs)
    }

    /** my_setmntent on a file that can be opened. */
    constructor (text: string)
      ensures Valid() && this.text == text && flushed == |text| && pos == 0 && State() == Open(text)
    {
      this.text, flushed, pos, errs, softErrs := text, |text|, 0, false, 0;
    }

    /** fgets and the search for the newline. */
    method ReadBuffer() returns (r: Read)
      requires Valid()
      modifies this`pos
      ensures Valid() && r == ReadLine(old(text[pos..]))
      ensures if r.Eof? then pos == old(pos) else pos > old(pos) && text[pos..] == r.rest
    {
      ghost var rest := text[pos..];
      if pos == |text| { return Eof; }
      var n := 0;
      while n < BUFFER_SIZE - 1 && pos + n < |text| && (n == 0 || text[pos + n - 1] != '\n')
        invariant 0 <= n <= |rest| && n < BUFFER_SIZE
        invariant n <= LineLength(rest)
        invariant forall i | 0 <= i < n - 1 :: rest[i] != '\n'
      {
        n := n + 1;
      }
      assert n == if LineLength(rest) < BUFFER_SIZE then LineLength(rest) else BUFFER_SIZE - 1;
      var chunk := text[pos..pos + n];
      assert chunk == rest[..n] && text[pos + n..] == rest[n..];
      pos := pos + n;
      r := if chunk[n - 1] == '\n' && '\0' !in chunk then Got(chunk[..n - 1], text[pos..]) else Broken(text[pos..]);
    }

    /** One line; `done` says that the call returns `r`. */
    method OneLine() returns (done: bool, r: Option<Entry>)
      requires Valid()
      modifies this`pos, this`errs, this`softErrs
      ensures Valid() && (r.Some? ==> done && NulFree(r.value))
      ensures TryLine(old(State())) == if done then Done(r, State()) else Again(State())
    {
      if errs || softErrs >= ERR_MAX { return true, None; }
      var read := ReadBuffer();
      match read {
        case Eof => return true, None;
        case Broken(_) =>
          errs, softErrs := true, softErrs + 1;
          return false, None;
        case Got(line, _) =>
          var parsed := ParseText(line);
          match parsed {
            case Skipped => return false, None;
            case Bad =>
              softErrs := softErrs + 1;
              return false, None;
            case Good(e) => return true, Some(e);
          }
      }
    }

    /** my_getmntent. */
    method GetMntEnt() returns (r: Option<Entry>)
      requires Valid()
      modifies this`pos, this`errs, this`softErrs
      ensures Valid() && (r.Some? ==> NulFree(r.value))
      ensures Step(r, State()) == Next(old(State()))
    {
      var done := false;
      r := None;
      while !done
        invariant Valid() && (r.Some? ==> NulFree(r.value))
        invariant if done then Step(r, State()) == Next(old(State())) else Next(State()) == Next(old(State()))
        decreases !done, |State().rest|
      {
        done, r := OneLine();
      }
    }

    /** my_addmntent: fseek flushes the record before, then the new one goes to the end of the stream. A fault is a
        failing fseek or fprintf, and says how many characters of the record were printed before it. */
    method AddMntEnt(e: Entry, fault: Option<nat>) returns (res: int)
      requires Valid()
      requires NulFree(e)
      modifies this`text, this`flushed
      ensures Valid() && res == if fault.None? then 0 else 1
      ensures fault.None? ==> text == old(text) + Line(e) + "\n" && flushed == old(|text|)
      ensures fault.Some? ==> text == old(text) + Start(Line(e) + "\n", fault.value)
    {
      var m1, n1 := MangleText(e.fsname);
      var m2, n2 := MangleText(e.dir);
      var m3, n3 := MangleText(e.kind);
      var m4, n4 := MangleText(e.opts);
      ghost var w := Words(e);
      var printed := Join([m1[..n1], m2[..n2], m3[..n3], m4[..n4], PrintInt(e.freq), PrintInt(e.passno)]);
      assert w == [m1[..n1], m2[..n2], m3[..n3], m4[..n4], PrintInt(e.freq), PrintInt(e.passno)];
      if fault.Some? {
        text := text + Start(printed + "\n", fault.value);
        return 1;
      }
      flushed := |text|;
      text := text + printed + "\n";
      res := 0;
    }

    /** fclose in my_endmntent: what is on the disk afterwards. A fault says how much of the unflushed end arrived;
        nobody looks at it. */
    method Close(fault: Option<nat>) returns (disk: string)
      requires Valid()
      ensures fault.None? ==> disk == text
      ensures fault.Some? ==> disk == text[..flushed] + Start(text[flushed..], fault.value)
    {
      if fault.None? { return text; }
      disk := text[..flushed] + Start(text[flushed..], fault.value);
    }
  }

  /** At most the first n characters. */
  function Start(s: string, n: nat): string { if n < |s| then s[..n] else s }
}
