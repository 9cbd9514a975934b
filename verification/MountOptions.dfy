/** The mount option compiler of src/mount.c: option text to flags, string options and leftovers, and back. */
module MountOptions {
  import opened Common
  import opened Strings

  /** The flags that options set and clear; the source keeps each as one bit of an int. */
  datatype Flag = RdOnly | NoSuid | NoDev | NoExec | Synchronous | Remount | MandLock | NoAtime | NoDirAtime | Silent
                | Loop | User | NoAuto

  const NOMTAB: set<Flag> := {Remount, NoAuto, User}
  const SECURE: set<Flag> := {NoExec, NoSuid, NoDev}

  /** An entry of opt_map; without a flag its mask is 0. */
  datatype Opt = Opt(name: string, skip: bool, inv: bool, flag: Option<Flag>)

  const OPT_MAP: seq<Opt> := [
    Opt("defaults", false, false, None),
    Opt("ro", true, false, Some(RdOnly)),
    Opt("rw", true, true, Some(RdOnly)),
    Opt("exec", false, true, Some(NoExec)),
    Opt("noexec", false, false, Some(NoExec)),
    Opt("mount_suid", false, true, Some(NoSuid)),
    Opt("nomount_suid", false, false, Some(NoSuid)),
    Opt("dev", false, true, Some(NoDev)),
    Opt("nodev", false, false, Some(NoDev)),
    Opt("sync", false, false, Some(Synchronous)),
    Opt("async", false, true, Some(Synchronous)),
    Opt("remount", false, false, Some(Remount)),
    Opt("auto", false, true, Some(NoAuto)),
    Opt("noauto", false, false, Some(NoAuto)),
    Opt("user", false, false, Some(User)),
    Opt("nouser", false, true, Some(User)),
    Opt("quiet", false, false, Some(Silent)),
    Opt("loud", false, true, Some(Silent)),
    Opt("mand", false, false, Some(MandLock)),
    Opt("nomand", false, true, Some(MandLock)),
    Opt("loop", true, false, Some(Loop)),
    Opt("atime", false, true, Some(NoAtime)),
    Opt("noatime", false, false, Some(NoAtime)),
    Opt("diratime", false, true, Some(NoDirAtime)),
    Opt("nodiratime", false, false, Some(NoDirAtime))
  ]

  /** The option names that a table defines; the first match counts. */
  function Lookup(t: seq<Opt>, name: string, i: nat): Option<Opt>
    decreases |t| - i
  {
    if i >= |t| then None else if t[i].name == name then Some(t[i]) else Lookup(t, name, i + 1)
  }

  /** opt_loopdev, opt_vfstype, opt_offset, opt_encryption. */
  datatype StringOpts =
    StringOpts(loopdev: Option<string>, vfstype: Option<string>, offset: Option<string>, encryption: Option<string>)

  const NO_STRINGS := StringOpts(None, None, None, None)

  /** parse_string_opt: a known tag takes the rest of the token as its value. */
  function ParseString(s: StringOpts, tok: string): Option<StringOpts>
  {
    if StartsWith(tok, "loop=") then Some(s.(loopdev := Some(tok[5..])))
    else if StartsWith(tok, "vfs=") then Some(s.(vfstype := Some(tok[4..])))
    else if StartsWith(tok, "offset=") then Some(s.(offset := Some(tok[7..])))
    else if StartsWith(tok, "encryption=") then Some(s.(encryption := Some(tok[11..])))
    else None
  }

  function Apply(o: Opt, flags: set<Flag>): set<Flag>
  {
    var mask := if o.flag.Some? then {o.flag.value} else {};
    var f := if o.inv then flags - mask else flags + mask;
    if o.flag == Some(User) then f + SECURE else f
  }

  /** Flags, string options and the leftover options in order. */
  datatype Parsed = Parsed(flags: set<Flag>, strings: StringOpts, extra: seq<string>)

  const NOTHING := Parsed({}, NO_STRINGS, [])

  function ParseToken(t: seq<Opt>, p: Parsed, tok: string): Parsed
  {
    match ParseString(p.strings, tok)
    case Some(s) => p.(strings := s)
    case None =>
      match Lookup(t, tok, 0)
      case Some(o) => p.(flags := Apply(o, p.flags))
      case None => p.(extra := p.extra + [tok])
  }

  function ParseTokens(t: seq<Opt>, p: Parsed, toks: seq<string>): Parsed
  {
    if toks == [] then p else ParseToken(t, ParseTokens(t, p, toks[..|toks| - 1]), toks[|toks| - 1])
  }

  /** The -r and -w switches. */
  datatype Overrides = Overrides(readonly: bool, readwrite: bool)

  function Override(o: Overrides, flags: set<Flag>): set<Flag>
  {
    var f := if o.readonly then flags + {RdOnly} else flags;
    if o.readwrite then f - {RdOnly} else f
  }

  function Parse(t: seq<Opt>, opts: string, o: Overrides): Parsed
  {
    var p := ParseTokens(t, NOTHING, Tokens(opts));
    p.(flags := Override(o, p.flags))
  }

  // ----- printing -----

  predicate Printable(o: Opt) { !o.skip && !o.inv && o.flag.Some? }

  /** The names that fix_opts_string appends for the flags, from entry i of the table on. */
  function FlagNames(t: seq<Opt>, flags: set<Flag>, i: nat): seq<string>
    decreases |t| - i
  {
    if i >= |t| then []
    else if Printable(t[i]) && t[i].flag.value in flags then
      [t[i].name] + FlagNames(t, flags - {t[i].flag.value}, i + 1)
    else FlagNames(t, flags, i + 1)
  }

  function Tagged(tag: string, v: Option<string>): seq<string> { if v.Some? then [tag + v.value] else [] }

  /** vfs= is not printed. */
  function StringPieces(s: StringOpts): seq<string>
  {
    Tagged("loop=", s.loopdev) + Tagged("offset=", s.offset) + Tagged("encryption=", s.encryption)
  }

  function Pieces(t: seq<Opt>, p: Parsed): seq<string>
  {
    [if RdOnly in p.flags then "ro" else "rw"] + FlagNames(t, p.flags, 0) + StringPieces(p.strings) + p.extra
  }

  /** fix_opts_string. */
  function Print(t: seq<Opt>, p: Parsed): string { JoinComma(Pieces(t, p)) }

  /** What is printed into the mount table: without remount, noauto and user. */
  function ForMtab(p: Parsed): Parsed { p.(flags := p.flags - NOMTAB) }

  // ----- what the proofs ask of a table -----

  /** Letters with which no tag of a string option starts. */
  predicate PlainStart(name: string)
  {
    name != [] && name[0] != 'l' && name[0] != 'v' && name[0] != 'o' && name[0] != 'e'
  }

  /** The flags that are printed from entry i of the table on. */
  function PrintMask(t: seq<Opt>, i: nat): set<Flag>
    decreases |t| - i
  {
    if i >= |t| then {} else (if Printable(t[i]) then {t[i].flag.value} else {}) + PrintMask(t, i + 1)
  }

  /** A printed entry is found again under its name. */
  predicate EntryOk(t: seq<Opt>, i: nat)
    requires i < |t|
  {
    Printable(t[i]) ==> IsToken(t[i].name) && PlainStart(t[i].name) && Lookup(t, t[i].name, 0) == Some(t[i])
  }

  /** All flags are printed but read-only, which ro and rw stand for, and loop. */
  predicate TableOk(t: seq<Opt>)
  {
    && (forall i | 0 <= i < |t| :: EntryOk(t, i))
    && (forall f: Flag :: f in PrintMask(t, 0) <==> f != RdOnly && f != Loop)
    && Lookup(t, "ro", 0) == Some(Opt("ro", true, false, Some(RdOnly)))
    && Lookup(t, "rw", 0) == Some(Opt("rw", true, true, Some(RdOnly)))
  }

  // ----- what parsing yields -----

  predicate Leftover(t: seq<Opt>, tok: string)
  {
    IsToken(tok) && ParseString(NO_STRINGS, tok).None? && Lookup(t, tok, 0).None?
  }

  predicate PlainValue(v: Option<string>) { v.Some? ==> ',' !in v.value }

  predicate PlainStrings(s: StringOpts) { PlainValue(s.loopdev) && PlainValue(s.offset) && PlainValue(s.encryption) }

  /** Facts about everything that parsing can produce. */
  predicate Parseable(t: seq<Opt>, p: Parsed)
  {
    PlainStrings(p.strings) && forall i | 0 <= i < |p.extra| :: Leftover(t, p.extra[i])
  }

  lemma StringParseable(s: StringOpts, tok: string)
    requires PlainStrings(s) && IsToken(tok)
    ensures ParseString(s, tok).Some? ==> PlainStrings(ParseString(s, tok).value)
    ensures ParseString(s, tok).None? <==> ParseString(NO_STRINGS, tok).None?
  {
  }

  lemma {:induction false} TokensParseable(t: seq<Opt>, p: Parsed, toks: seq<string>)
    requires Parseable(t, p) && forall i | 0 <= i < |toks| :: IsToken(toks[i])
    ensures Parseable(t, ParseTokens(t, p, toks))
  {
    if toks != [] {
      TokensParseable(t, p, toks[..|toks| - 1]);
      StringParseable(ParseTokens(t, p, toks[..|toks| - 1]).strings, toks[|toks| - 1]);
    }
  }

  lemma ParseYields(t: seq<Opt>, opts: string, o: Overrides)
    ensures Parseable(t, Parse(t, opts, o))
  {
    TokensAreTokens(opts);
    TokensParseable(t, NOTHING, Tokens(opts));
  }

  lemma {:induction false} ParseConcat(t: seq<Opt>, p: Parsed, a: seq<string>, b: seq<string>)
    ensures ParseTokens(t, p, a + b) == ParseTokens(t, ParseTokens(t, p, a), b)
  {
    if b == [] {
      assert a + b == a;
    } else {
      ParseConcat(t, p, a, b[..|b| - 1]);
      assert (a + b)[..|a + b| - 1] == a + b[..|b| - 1];
    }
  }

  lemma ParseCons(t: seq<Opt>, p: Parsed, tok: string, toks: seq<string>)
    ensures ParseTokens(t, p, [tok] + toks) == ParseTokens(t, ParseToken(t, p, tok), toks)
  {
    assert [tok][..0] == [];
    ParseConcat(t, p, [tok], toks);
  }

  // ----- reading the printed pieces back -----

  lemma {:induction false} FlagNamesAreTokens(t: seq<Opt>, f: set<Flag>, i: nat)
    requires forall k | 0 <= k < |t| :: EntryOk(t, k)
    ensures forall k | 0 <= k < |FlagNames(t, f, i)| :: IsToken(FlagNames(t, f, i)[k])
    decreases |t| - i
  {
    if i < |t| {
      assert EntryOk(t, i);
      if Printable(t[i]) && t[i].flag.value in f {
        FlagNamesAreTokens(t, f - {t[i].flag.value}, i + 1);
      } else {
        FlagNamesAreTokens(t, f, i + 1);
      }
    }
  }

  /** A printed name sets its flag again. */
  lemma NameReadBack(t: seq<Opt>, p: Parsed, i: nat)
    requires i < |t| && EntryOk(t, i) && Printable(t[i]) && t[i].flag != Some(User)
    ensures ParseToken(t, p, t[i].name) == p.(flags := p.flags + {t[i].flag.value})
  {
  }

  lemma {:induction false} FlagsReadBack(t: seq<Opt>, p: Parsed, f: set<Flag>, i: nat)
    requires User !in f && forall k | 0 <= k < |t| :: EntryOk(t, k)
    ensures ParseTokens(t, p, FlagNames(t, f, i)) == p.(flags := p.flags + f * PrintMask(t, i))
    decreases |t| - i
  {
    if i < |t| {
      assert EntryOk(t, i);
      var rest := PrintMask(t, i + 1);
      if Printable(t[i]) && t[i].flag.value in f {
        var m := t[i].flag.value;
        NameReadBack(t, p, i);
        FlagsReadBack(t, p.(flags := p.flags + {m}), f - {m}, i + 1);
        ParseCons(t, p, t[i].name, FlagNames(t, f - {m}, i + 1));
        assert p.flags + {m} + (f - {m}) * rest == p.flags + f * ({m} + rest);
      } else {
        FlagsReadBack(t, p, f, i + 1);
        assert f * PrintMask(t, i) == f * rest;
      }
    } else {
      assert p.flags + f * {} == p.flags;
    }
  }

  lemma TagReadBack(s: StringOpts, v: string)
    ensures ParseString(s, "loop=" + v) == Some(s.(loopdev := Some(v)))
    ensures ParseString(s, "offset=" + v) == Some(s.(offset := Some(v)))
    ensures ParseString(s, "encryption=" + v) == Some(s.(encryption := Some(v)))
  {
    assert ("loop=" + v)[5..] == v;
    assert ("offset=" + v)[7..] == v && ("offset=" + v)[0] == 'o';
    assert ("encryption=" + v)[11..] == v && ("encryption=" + v)[0] == 'e';
  }

  lemma TaggedReadBack(t: seq<Opt>, p: Parsed, v: Option<string>)
    ensures ParseTokens(t, p, Tagged("loop=", v)) == if v.Some? then p.(strings := p.strings.(loopdev := v)) else p
    ensures ParseTokens(t, p, Tagged("offset=", v)) == if v.Some? then p.(strings := p.strings.(offset := v)) else p
    ensures ParseTokens(t, p, Tagged("encryption=", v)) ==
        if v.Some? then p.(strings := p.strings.(encryption := v)) else p
  {
    if v.Some? {
      TagReadBack(p.strings, v.value);
      ParseCons(t, p, "loop=" + v.value, []);
      ParseCons(t, p, "offset=" + v.value, []);
      ParseCons(t, p, "encryption=" + v.value, []);
      assert forall x: string :: [x] + [] == [x];
    }
  }

  lemma StringsReadBack(t: seq<Opt>, p: Parsed, s: StringOpts)
    requires p.strings == NO_STRINGS
    ensures ParseTokens(t, p, StringPieces(s)) == p.(strings := s.(vfstype := None))
  {
    var a, b, c := Tagged("loop=", s.loopdev), Tagged("offset=", s.offset), Tagged("encryption=", s.encryption);
    var p1 := ParseTokens(t, p, a);
    TaggedReadBack(t, p, s.loopdev);
    var p2 := ParseTokens(t, p1, b);
    TaggedReadBack(t, p1, s.offset);
    TaggedReadBack(t, p2, s.encryption);
    ParseConcat(t, p, a, b);
    ParseConcat(t, p, a + b, c);
  }

  lemma {:induction false} ExtraReadBack(t: seq<Opt>, p: Parsed, extra: seq<string>)
    requires forall i | 0 <= i < |extra| :: Leftover(t, extra[i])
    ensures ParseTokens(t, p, extra) == p.(extra := p.extra + extra)
  {
    if extra == [] {
      assert p.extra + extra == p.extra;
    } else {
      var k := |extra| - 1;
      ExtraReadBack(t, p, extra[..k]);
      assert Leftover(t, extra[k]);
      assert p.extra + extra == p.extra + extra[..k] + [extra[k]];
    }
  }

  lemma PiecesAreTokens(t: seq<Opt>, p: Parsed)
    requires TableOk(t) && Parseable(t, p)
    ensures forall i | 0 <= i < |Pieces(t, p)| :: IsToken(Pieces(t, p)[i])
  {
    FlagNamesAreTokens(t, p.flags, 0);
    forall i | 0 <= i < |p.extra| ensures IsToken(p.extra[i]) { assert Leftover(t, p.extra[i]); }
  }

  lemma ReadOnlyReadBack(t: seq<Opt>, ro: bool)
    requires TableOk(t)
    ensures ParseTokens(t, NOTHING, [if ro then "ro" else "rw"]) == NOTHING.(flags := if ro then {RdOnly} else {})
  {
    ParseCons(t, NOTHING, if ro then "ro" else "rw", []);
    assert forall x: string :: [x] + [] == [x];
  }

  /** Splitting and parsing the pieces gives back everything but the loop flag and the vfs= option. */
  lemma PiecesReadBack(t: seq<Opt>, p: Parsed)
    requires TableOk(t) && Parseable(t, p) && User !in p.flags
    ensures ParseTokens(t, NOTHING, Pieces(t, p))
         == Parsed(p.flags - {Loop}, p.strings.(vfstype := None), p.extra)
  {
    var first := [if RdOnly in p.flags then "ro" else "rw"];
    var names, strings := FlagNames(t, p.flags, 0), StringPieces(p.strings);
    var p1 := ParseTokens(t, NOTHING, first);
    ReadOnlyReadBack(t, RdOnly in p.flags);
    var p2 := ParseTokens(t, p1, names);
    FlagsReadBack(t, p1, p.flags, 0);
    assert p2.flags == p.flags - {Loop};
    StringsReadBack(t, p2, p.strings);
    ExtraReadBack(t, ParseTokens(t, p2, strings), p.extra);
    ParseConcat(t, NOTHING, first, names);
    ParseConcat(t, NOTHING, first + names, strings);
    ParseConcat(t, NOTHING, first + names + strings, p.extra);
  }

  lemma {:induction false} SameNames(t: seq<Opt>, f: set<Flag>, g: set<Flag>, i: nat)
    requires f * PrintMask(t, i) == g * PrintMask(t, i)
    ensures FlagNames(t, f, i) == FlagNames(t, g, i)
    decreases |t| - i
  {
    if i < |t| {
      var rest := PrintMask(t, i + 1);
      if Printable(t[i]) {
        var m := t[i].flag.value;
        assert m in PrintMask(t, i) && (m in f <==> m in f * PrintMask(t, i)) && (m in g <==> m in g * PrintMask(t, i));
        assert (f - {m}) * rest == (f * PrintMask(t, i) - {m}) * rest == (g * PrintMask(t, i) - {m}) * rest
            == (g - {m}) * rest;
        if m in f {
          SameNames(t, f - {m}, g - {m}, i + 1);
        } else {
          assert f - {m} == f && g - {m} == g;
          SameNames(t, f, g, i + 1);
        }
      } else {
        assert f * rest == f * PrintMask(t, i) && g * rest == g * PrintMask(t, i);
        SameNames(t, f, g, i + 1);
      }
    }
  }

  /** For every option string, whatever the -r and -w switches: parsing it, printing the result for the mount table
      and parsing that again gives the same flags minus remount, noauto, user and loop, the same string options minus
      vfs=, and the same leftover options in order; and printing once more gives the identical string. */
  lemma CanonicalRoundTrip(t: seq<Opt>, opts: string, o: Overrides)
    requires TableOk(t)
    ensures var p := Parse(t, opts, o);
            var q := Parse(t, Print(t, ForMtab(p)), o);
            && q == Parsed(p.flags - {Remount, NoAuto, User, Loop}, p.strings.(vfstype := None), p.extra)
            && Print(t, ForMtab(q)) == Print(t, ForMtab(p))
  {
    var p := Parse(t, opts, o);
    var shown := ForMtab(p);
    ParseYields(t, opts, o);
    PiecesAreTokens(t, shown);
    TokensOfJoin(Pieces(t, shown));
    PiecesReadBack(t, shown);
    var q := Parse(t, Print(t, shown), o);
    assert q.flags == p.flags - {Remount, NoAuto, User, Loop};
    PrintsAlike(t, p, q);
  }

  lemma PrintsAlike(t: seq<Opt>, p: Parsed, q: Parsed)
    requires TableOk(t)
    requires q == Parsed(p.flags - {Remount, NoAuto, User, Loop}, p.strings.(vfstype := None), p.extra)
    ensures Print(t, ForMtab(q)) == Print(t, ForMtab(p))
  {
    SameNames(t, ForMtab(q).flags, ForMtab(p).flags, 0);
    assert StringPieces(q.strings) == StringPieces(p.strings);
  }

  // ----- the table of the source -----

  lemma {:induction false} Finds(t: seq<Opt>, i: nat, k: nat)
    requires k <= i < |t| && forall j | k <= j < i :: t[j].name != t[i].name
    ensures Lookup(t, t[i].name, k) == Some(t[i])
    decreases i - k
  {
    if k < i { Finds(t, i, k + 1); }
  }

  // The option names are all different, shown for a few entries at a time.

  lemma NamesDistinct0(i: nat, j: nat)
    requires j < i && 0 <= i < 14
    ensures OPT_MAP[j].name != OPT_MAP[i].name
  {
  }

  lemma NamesDistinct14(i: nat, j: nat)
    requires j < i && 14 <= i < 20
    ensures OPT_MAP[j].name != OPT_MAP[i].name
  {
  }

  lemma NamesDistinct20(i: nat, j: nat)
    requires j < i && 20 <= i < 25
    ensures OPT_MAP[j].name != OPT_MAP[i].name
  {
  }

  lemma NamesDistinct(i: nat, j: nat)
    requires j < i < |OPT_MAP|
    ensures OPT_MAP[j].name != OPT_MAP[i].name
  {
    if i < 14 { NamesDistinct0(i, j); } else if i < 20 { NamesDistinct14(i, j); } else { NamesDistinct20(i, j); }
  }

  lemma NamesPlain(i: nat)
    requires i < |OPT_MAP| && Printable(OPT_MAP[i])
    ensures IsToken(OPT_MAP[i].name) && PlainStart(OPT_MAP[i].name)
  {
  }

  lemma LookupSelf(i: nat)
    requires i < |OPT_MAP|
    ensures Lookup(OPT_MAP, OPT_MAP[i].name, 0) == Some(OPT_MAP[i])
  {
    forall j | 0 <= j < i ensures OPT_MAP[j].name != OPT_MAP[i].name { NamesDistinct(i, j); }
    Finds(OPT_MAP, i, 0);
  }

  lemma {:induction false} PrintMaskIs(t: seq<Opt>, k: nat)
    ensures forall j | k <= j < |t| && Printable(t[j]) :: t[j].flag.value in PrintMask(t, k)
    ensures forall f | f in PrintMask(t, k) :: exists j | k <= j < |t| :: Printable(t[j]) && t[j].flag == Some(f)
    decreases |t| - k
  {
    if k < |t| { PrintMaskIs(t, k + 1); }
  }

  /** Where in the table a flag is printed. */
  function PrintedAt(f: Flag): nat
  {
    match f
    case NoExec => 4
    case NoSuid => 6
    case NoDev => 8
    case Synchronous => 9
    case Remount => 11
    case NoAuto => 13
    case User => 14
    case Silent => 16
    case MandLock => 18
    case NoAtime => 22
    case NoDirAtime => 24
    case RdOnly => 1
    case Loop => 20
  }

  lemma PrintedFlags(f: Flag)
    ensures f != RdOnly && f != Loop ==> Printable(OPT_MAP[PrintedAt(f)]) && OPT_MAP[PrintedAt(f)].flag == Some(f)
  {
  }

  lemma SkippedFlags(j: nat)
    requires j < |OPT_MAP| && Printable(OPT_MAP[j])
    ensures OPT_MAP[j].flag != Some(RdOnly) && OPT_MAP[j].flag != Some(Loop)
  {
  }

  lemma EntryIsOk(i: nat)
    requires i < |OPT_MAP|
    ensures EntryOk(OPT_MAP, i)
  {
    LookupSelf(i);
    if Printable(OPT_MAP[i]) { NamesPlain(i); }
  }

  lemma PrintMaskOfMap(f: Flag)
    ensures f in PrintMask(OPT_MAP, 0) <==> f != RdOnly && f != Loop
  {
    var t := OPT_MAP;
    PrintMaskIs(t, 0);
    if f in PrintMask(t, 0) {
      var j :| 0 <= j < |t| && Printable(t[j]) && t[j].flag == Some(f);
      SkippedFlags(j);
    }
    if f != RdOnly && f != Loop {
      PrintedFlags(f);
      assert t[PrintedAt(f)].flag.value in PrintMask(t, 0);
    }
  }

  /** The table of the source has all that the round trip needs. */
  lemma OptMapOk()
    ensures TableOk(OPT_MAP)
  {
    var t := OPT_MAP;
    forall i | 0 <= i < |t| ensures EntryOk(t, i) { EntryIsOk(i); }
    forall f: Flag ensures f in PrintMask(t, 0) <==> f != RdOnly && f != Loop { PrintMaskOfMap(f); }
    LookupSelf(1);
    LookupSelf(2);
  }

  /** The round trip for the options that mount knows. */
  lemma MountRoundTrip(opts: string, o: Overrides)
    ensures var p := Parse(OPT_MAP, opts, o);
            var q := Parse(OPT_MAP, Print(OPT_MAP, ForMtab(p)), o);
            && q.flags == p.flags - {Remount, NoAuto, User, Loop}
            && q.strings == p.strings.(vfstype := None)
            && q.extra == p.extra
            && Print(OPT_MAP, ForMtab(q)) == Print(OPT_MAP, ForMtab(p))
  {
    OptMapOk();
    CanonicalRoundTrip(OPT_MAP, opts, o);
  }
}
