/** The loops of parse_opts and fix_opts_string in src/mount.c, with the leftover buffer of fixed size. */
module MountParser {
  import opened Common
  import opened Strings
  import opened MountOptions
  import opened FlagWords

  method FindOpt(t: seq<Opt>, name: string) returns (r: Option<Opt>)
    ensures r == Lookup(t, name, 0)
  {
    for i := 0 to |t|
      invariant Lookup(t, name, i) == Lookup(t, name, 0)
    {
      if t[i].name == name { return Some(t[i]); }
    }
    r := None;
  }

  /** strcat into a buffer that has room for the text and the NUL. */
  method StrCat(buf: array<char>, len: nat, s: string) returns (next: nat)
    requires len + |s| < buf.Length
    modifies buf
    ensures next == len + |s| && buf[..next] == old(buf[..len]) + s
  {
    for i := 0 to |s|
      invariant buf[..len + i] == old(buf[..len]) + s[..i]
    {
      buf[len + i] := s[i];
      assert buf[..len + i + 1] == buf[..len + i] + [s[i]];
      assert s[..i + 1] == s[..i] + [s[i]];
    }
    next := len + |s|;
    assert s[..|s|] == s;
    buf[next] := '\0';
  }

  lemma {:induction false} JoinNonEmpty(ts: seq<string>)
    requires forall i | 0 <= i < |ts| :: IsToken(ts[i])
    ensures JoinComma(ts) == [] <==> ts == []
  {
    if |ts| == 1 { assert IsToken(ts[0]); }
  }

  /** Tack an unknown option onto the leftovers. */
  method AddExtra(buf: array<char>, len: nat, tok: string, ghost extra: seq<string>) returns (next: nat)
    requires len + 1 + |tok| < buf.Length || (len == 0 && |tok| < buf.Length)
    requires IsToken(tok) && forall i | 0 <= i < |extra| :: IsToken(extra[i])
    requires len <= buf.Length && buf[..len] == JoinComma(extra)
    modifies buf
    ensures len < next <= len + 1 + |tok| && (len == 0 ==> next == |tok|) && next < buf.Length
    ensures buf[..next] == JoinComma(extra + [tok])
  {
    JoinNonEmpty(extra);
    assert (extra + [tok])[..|extra|] == extra;
    next := len;
    if len > 0 { next := StrCat(buf, next, ","); }
    next := StrCat(buf, next, tok);
  }

  method SkipCommas(opts: string, pos: nat) returns (s: nat)
    requires pos <= |opts|
    ensures pos <= s <= |opts| && (s < |opts| ==> opts[s] != ',')
    ensures pos < |opts| && opts[pos] == ',' ==> s > pos
    ensures Tokens(opts[s..]) == Tokens(opts[pos..])
  {
    s := pos;
    while s < |opts| && opts[s] == ','
      invariant pos <= s <= |opts| && Tokens(opts[s..]) == Tokens(opts[pos..])
    {
      assert opts[s..][1..] == opts[s + 1..];
      s := s + 1;
    }
  }

  method TokenEnd(opts: string, s: nat) returns (e: nat)
    requires s <= |opts|
    ensures s <= e <= |opts| && (e < |opts| ==> opts[e] == ',') && opts[s..e] == Head(opts[s..])
  {
    e := s;
    while e < |opts| && opts[e] != ','
      invariant s <= e <= |opts| && e - s + |Head(opts[e..])| == |Head(opts[s..])|
    {
      assert opts[e..][1..] == opts[e + 1..];
      e := e + 1;
    }
    assert opts[s..][..e - s] == opts[s..e];
  }

  /** strtok: the next token and the position behind it. */
  method NextToken(opts: string, pos: nat) returns (tok: string, e: nat)
    requires pos <= |opts|
    ensures pos <= e <= |opts|
    ensures if Tokens(opts[pos..]) == [] then tok == []
            else && IsToken(tok) && |tok| <= e - pos && Tokens(opts[pos..]) == [tok] + Tokens(opts[e..])
                 && (e < |opts| ==> opts[e] == ',') && (pos < |opts| && opts[pos] == ',' ==> |tok| < e - pos)
  {
    var s := SkipCommas(opts, pos);
    e := TokenEnd(opts, s);
    tok := opts[s..e];
    assert opts[s..][e - s..] == opts[e..];
  }

  /** What parse_opts has made of the tokens so far: the values, and the leftovers in the buffer. */
  ghost predicate Made(t: seq<Opt>, done: seq<string>, flags: Word, strings: StringOpts, extra: string)
  {
    var p := ParseTokens(t, NOTHING, done);
    flags == Bits(p.flags) && strings == p.strings && extra == JoinComma(p.extra)
  }

  /** One token: a string option, a known option, or a leftover that goes to the buffer. */
  method TakeToken(t: seq<Opt>, tok: string, flags: Word, strings: StringOpts, buf: array<char>, len: nat,
      ghost done: seq<string>)
    returns (flags': Word, strings': StringOpts, len': nat)
    requires IsToken(tok) && forall i | 0 <= i < |done| :: IsToken(done[i])
    requires len + 1 + |tok| < buf.Length || (len == 0 && |tok| < buf.Length)
    requires len <= buf.Length && Made(t, done, flags, strings, buf[..len])
    modifies buf
    ensures len <= len' <= len + 1 + |tok| && (len == 0 ==> len' <= |tok|) && len' < buf.Length
    ensures Made(t, done + [tok], flags', strings', buf[..len'])
  {
    flags', strings', len' := flags, strings, len;
    assert (done + [tok])[..|done|] == done;
    ghost var p := ParseTokens(t, NOTHING, done);
    var s := ParseString(strings, tok);
    if s.Some? {
      strings' := s.value;
    } else {
      var o := FindOpt(t, tok);
      if o.Some? {
        ApplyBits(o.value, p.flags);
        flags' := ApplyWord(o.value, flags);
      } else {
        TokensParseable(t, NOTHING, done);
        forall i | 0 <= i < |p.extra| ensures IsToken(p.extra[i]) { assert Leftover(t, p.extra[i]); }
        len' := AddExtra(buf, len, tok, p.extra);
      }
    }
  }

  /** parse_opts on a non-null string: the buffer of strlen(opts) + 1 bytes always suffices for the leftovers. */
  method ParseOpts(t: seq<Opt>, opts: string, o: Overrides)
    returns (flags: Word, strings: StringOpts, extra: array<char>, len: nat)
    ensures extra.Length == |opts| + 1 && len <= |opts| && extra[len] == '\0'
    ensures var p := Parse(t, opts, o);
            flags == Bits(p.flags) && strings == p.strings && extra[..len] == JoinComma(p.extra)
  {
    flags, strings, extra, len := Bits({}), NO_STRINGS, new char[|opts| + 1], 0;
    ghost var done := [];
    var tok, pos := NextToken(opts, 0);
    assert opts[0..] == opts;
    while tok != []
      invariant pos <= |opts| && len <= |opts| && fresh(extra) && extra.Length == |opts| + 1
      invariant forall i | 0 <= i < |done| :: IsToken(done[i])
      invariant Made(t, done, flags, strings, extra[..len])
      invariant if tok == [] then done == Tokens(opts)
                else IsToken(tok) && done + [tok] + Tokens(opts[pos..]) == Tokens(opts)
      invariant tok != [] ==> ((len == 0 && |tok| <= pos) || len + 1 + |tok| <= pos)
      invariant tok != [] && pos < |opts| ==> opts[pos] == ','
      decreases |opts| - pos, |tok|
    {
      flags, strings, len := TakeToken(t, tok, flags, strings, extra, len, done);
      done := done + [tok];
      tok, pos := NextToken(opts, pos);
    }
    OverrideBits(o, ParseTokens(t, NOTHING, done).flags);
    flags := OverrideWord(o, flags);
    extra[len] := '\0';
  }

  /** Should fix_opts_string print this option for what is left of the flags? */
  predicate Prints(o: Opt, left: Word) { !o.skip && !o.inv && Mask(o) != Bits({}) && And(left, Mask(o)) == Mask(o) }

  lemma PrintsExactly(o: Opt, left: set<Flag>)
    ensures Prints(o, Bits(left)) <==> Printable(o) && o.flag.value in left
    ensures And(Bits(left), Not(Mask(o))) == Bits(left - Masked(o))
  {
    TestBits(left, Masked(o));
    ClearBits(left, Masked(o));
    SameBits(Masked(o), {});
    assert o.flag.Some? ==> o.flag.value in Masked(o);
  }

  /** fix_opts_string: the loop over opt_map, which clears each flag that it prints. */
  method AppendFlags(t: seq<Opt>, flags: Word, first: string, ghost all: set<Flag>)
    returns (s: string, ghost done: seq<string>)
    requires flags == Bits(all)
    ensures done == [first] + FlagNames(t, all, 0) && s == JoinComma(done)
  {
    var left := flags;
    ghost var rest := all;
    s, done := first, [first];
    for i := 0 to |t|
      invariant done != [] && s == JoinComma(done) && left == Bits(rest)
      invariant done + FlagNames(t, rest, i) == [first] + FlagNames(t, all, 0)
    {
      PrintsExactly(t[i], rest);
      if Prints(t[i], left) {
        assert (done + [t[i].name])[..|done|] == done;
        s := s + "," + t[i].name;
        done := done + [t[i].name];
        left := And(left, Not(Mask(t[i])));
        rest := rest - Masked(t[i]);
      }
    }
  }

  /** The loop over string_opt_map, which skips vfs=. */
  method AppendStrings(s: string, v: StringOpts, ghost done: seq<string>) returns (s': string, ghost done': seq<string>)
    requires done != [] && s == JoinComma(done)
    ensures done' == done + StringPieces(v) && s' == JoinComma(done')
  {
    s', done' := AppendTagged(s, "loop=", v.loopdev, done);
    s', done' := AppendTagged(s', "offset=", v.offset, done');
    s', done' := AppendTagged(s', "encryption=", v.encryption, done');
  }

  /** fix_opts_string. */
  method FixOptsString(t: seq<Opt>, flags: Word, strings: StringOpts, extra: string, ghost p: Parsed)
    returns (s: string)
    requires flags == Bits(p.flags) && strings == p.strings && extra == JoinComma(p.extra)
    requires forall i | 0 <= i < |p.extra| :: IsToken(p.extra[i])
    ensures s == Print(t, p)
  {
    ghost var done;
    var first := "rw";
    AndBits(p.flags, {RdOnly});
    SameBits(p.flags * {RdOnly}, {});
    assert RdOnly in p.flags <==> RdOnly in p.flags * {RdOnly};
    if And(flags, Bits({RdOnly})) != Bits({}) { first := "ro"; }
    s, done := AppendFlags(t, flags, first, p.flags);
    s, done := AppendStrings(s, strings, done);
    JoinNonEmpty(p.extra);
    JoinJoin(done, p.extra);
    if extra != [] { s := s + "," + extra; }
    assert done + p.extra == Pieces(t, p);
  }

  /** The options string that goes into the mount table: parse_opts, then fix_opts_string(flags & ~MS_NOMTAB,
      extra_opts). */
  method MtabOptions(opts: string, o: Overrides) returns (s: string)
    ensures s == Print(OPT_MAP, ForMtab(Parse(OPT_MAP, opts, o)))
  {
    var flags, strings, extra, len := ParseOpts(OPT_MAP, opts, o);
    ghost var p := Parse(OPT_MAP, opts, o);
    ClearBits(p.flags, NOMTAB);
    ParseYields(OPT_MAP, opts, o);
    forall i | 0 <= i < |p.extra| ensures IsToken(p.extra[i]) { assert Leftover(OPT_MAP, p.extra[i]); }
    s := FixOptsString(OPT_MAP, And(flags, Not(Bits(NOMTAB))), strings, extra[..len], ForMtab(p));
  }

  method AppendTagged(s: string, tag: string, v: Option<string>, ghost done: seq<string>)
    returns (s': string, ghost done': seq<string>)
    requires done != [] && s == JoinComma(done)
    ensures done' == done + Tagged(tag, v) && s' == JoinComma(done')
  {
    s', done' := s, done;
    if v.Some? {
      assert (done + [tag + v.value])[..|done|] == done;
      s' := s + "," + (tag + v.value);
      done' := done + [tag + v.value];
    }
  }

  lemma {:induction false} JoinJoin(a: seq<string>, b: seq<string>)
    requires a != []
    ensures JoinComma(a + b) == if b == [] then JoinComma(a) else JoinComma(a) + "," + JoinComma(b)
  {
    if b == [] {
      assert a + b == a;
    } else {
      var k := |b| - 1;
      assert (a + b)[..|a + b| - 1] == a + b[..k];
      JoinJoin(a, b[..k]);
      if k > 0 {
        var x, y, z := JoinComma(a), JoinComma(b[..k]), b[k];
        assert x + "," + y + "," + z == x + "," + (y + "," + z);
      } else {
        assert a + b[..k] == a;
      }
    }
  }
}
