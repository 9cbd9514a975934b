/** Mount options from the text's side: what each option name does in src/mount.c, and the canonical string spelled
    out. */
module MountText {
  import opened Common
  import opened Strings
  import opened MountOptions

  // ----- what the names mean -----

  /** The flags that an option sets. */
  function SetBy(name: string): set<Flag>
  {
    match name
    case "ro" => {RdOnly}
    case "noexec" => {NoExec}
    case "nomount_suid" => {NoSuid}
    case "nodev" => {NoDev}
    case "sync" => {Synchronous}
    case "remount" => {Remount}
    case "noauto" => {NoAuto}
    case "user" => {User, NoExec, NoSuid, NoDev}
    case "nouser" => {NoExec, NoSuid, NoDev}
    case "quiet" => {Silent}
    case "mand" => {MandLock}
    case "loop" => {Loop}
    case "noatime" => {NoAtime}
    case "nodiratime" => {NoDirAtime}
    case _ => {}
  }

  /** The flags that an option clears. */
  function ClearedBy(name: string): set<Flag>
  {
    match name
    case "rw" => {RdOnly}
    case "exec" => {NoExec}
    case "mount_suid" => {NoSuid}
    case "dev" => {NoDev}
    case "async" => {Synchronous}
    case "auto" => {NoAuto}
    case "nouser" => {User}
    case "loud" => {Silent}
    case "nomand" => {MandLock}
    case "atime" => {NoAtime}
    case "diratime" => {NoDirAtime}
    case _ => {}
  }

  predicate IsOption(name: string) { name == "defaults" || SetBy(name) != {} || ClearedBy(name) != {} }

  /** An entry does what the text says about its name. */
  predicate EffectAt(o: Opt)
  {
    var mask := if o.flag.Some? then {o.flag.value} else {};
    var more := if o.flag == Some(User) then SECURE else {};
    && SetBy(o.name) == (if o.inv then more else mask + more)
    && ClearedBy(o.name) == (if o.inv then mask else {})
    && (o.name == "defaults" || o.flag.Some?)
  }

  lemma EffectIs(i: nat)
    requires i < |OPT_MAP|
    ensures EffectAt(OPT_MAP[i])
  {
    if i < 8 { EffectIs0(i); } else if i < 16 { EffectIs8(i); } else if i < 21 { EffectIs16(i); }
        else { EffectIs21(i); }
  }

  lemma EffectIs0(i: nat)
    requires i < 8
    ensures EffectAt(OPT_MAP[i])
  {
  }

  lemma EffectIs8(i: nat)
    requires 8 <= i < 16
    ensures EffectAt(OPT_MAP[i])
  {
  }

  lemma EffectIs16(i: nat)
    requires 16 <= i < 21
    ensures EffectAt(OPT_MAP[i])
  {
  }

  lemma EffectIs21(i: nat)
    requires 21 <= i < |OPT_MAP|
    ensures EffectAt(OPT_MAP[i])
  {
  }

  lemma ApplyIs(o: Opt, flags: set<Flag>)
    requires EffectAt(o)
    ensures Apply(o, flags) == flags - ClearedBy(o.name) + SetBy(o.name) && IsOption(o.name)
  {
    if o.flag.Some? { assert o.flag.value in SetBy(o.name) || o.flag.value in ClearedBy(o.name); }
    var mask := if o.flag.Some? then {o.flag.value} else {};
    var more := if o.flag == Some(User) then SECURE else {};
    assert Apply(o, flags) == (if o.inv then flags - mask else flags + mask) + more;
  }

  lemma {:induction false} LookupFinds(t: seq<Opt>, name: string, i: nat)
    ensures Lookup(t, name, i).Some? ==>
              exists k | i <= k < |t| :: t[k].name == name && Lookup(t, name, i) == Some(t[k])
    ensures Lookup(t, name, i).None? ==> forall k | i <= k < |t| :: t[k].name != name
    decreases |t| - i
  {
    if i < |t| && t[i].name != name { LookupFinds(t, name, i + 1); }
  }

  lemma NoOption(name: string)
    requires forall k | 0 <= k < |OPT_MAP| :: OPT_MAP[k].name != name
    ensures !IsOption(name)
  {
    NoSetting(name);
    NoClearing(name);
    assert OPT_MAP[0].name == "defaults";
  }

  lemma NoSetting(name: string)
    requires forall k | 0 <= k < |OPT_MAP| :: OPT_MAP[k].name != name
    ensures SetBy(name) == {}
  {
    NotSetting1(name);
    NotSetting2(name);
    NotSetting3(name);
  }

  lemma NoClearing(name: string)
    requires forall k | 0 <= k < |OPT_MAP| :: OPT_MAP[k].name != name
    ensures ClearedBy(name) == {}
  {
    NotClearing1(name);
    NotClearing2(name);
  }

  lemma NotSetting1(name: string)
    requires forall k | 0 <= k < |OPT_MAP| :: OPT_MAP[k].name != name
    ensures name != "ro" && name != "noexec" && name != "nomount_suid" && name != "nodev"
  {
    assert OPT_MAP[1].name == "ro" && OPT_MAP[4].name == "noexec" && OPT_MAP[6].name == "nomount_suid"
        && OPT_MAP[8].name == "nodev";
  }

  lemma NotSetting2(name: string)
    requires forall k | 0 <= k < |OPT_MAP| :: OPT_MAP[k].name != name
    ensures name != "sync" && name != "remount" && name != "noauto" && name != "user" && name != "nouser"
        && name != "quiet"
  {
    assert OPT_MAP[9].name == "sync" && OPT_MAP[11].name == "remount" && OPT_MAP[13].name == "noauto"
        && OPT_MAP[14].name == "user" && OPT_MAP[15].name == "nouser" && OPT_MAP[16].name == "quiet";
  }

  lemma NotSetting3(name: string)
    requires forall k | 0 <= k < |OPT_MAP| :: OPT_MAP[k].name != name
    ensures name != "mand" && name != "loop" && name != "noatime" && name != "nodiratime"
  {
    assert OPT_MAP[18].name == "mand" && OPT_MAP[20].name == "loop" && OPT_MAP[22].name == "noatime"
        && OPT_MAP[24].name == "nodiratime";
  }

  lemma NotClearing1(name: string)
    requires forall k | 0 <= k < |OPT_MAP| :: OPT_MAP[k].name != name
    ensures name != "rw" && name != "exec" && name != "mount_suid" && name != "dev" && name != "async" && name != "auto"
  {
    assert OPT_MAP[2].name == "rw" && OPT_MAP[3].name == "exec" && OPT_MAP[5].name == "mount_suid"
        && OPT_MAP[7].name == "dev" && OPT_MAP[10].name == "async" && OPT_MAP[12].name == "auto";
  }

  lemma NotClearing2(name: string)
    requires forall k | 0 <= k < |OPT_MAP| :: OPT_MAP[k].name != name
    ensures name != "nouser" && name != "loud" && name != "nomand" && name != "atime" && name != "diratime"
  {
    assert OPT_MAP[15].name == "nouser" && OPT_MAP[17].name == "loud" && OPT_MAP[19].name == "nomand"
        && OPT_MAP[21].name == "atime" && OPT_MAP[23].name == "diratime";
  }

  // ----- what an option string means -----

  /** A token with a value: one of the four tags and what follows it. */
  predicate IsTagged(tok: string)
  {
    "loop=" <= tok || "vfs=" <= tok || "offset=" <= tok || "encryption=" <= tok
  }

  /** An option name is not a token with a value. */
  lemma OptionNotTagged(tok: string, i: nat)
    requires i < |tok| && tok[i] == '=' && i in {3, 4, 6, 10}
    ensures !IsOption(tok)
  {
  }

  lemma TaggedHasEquals(tok: string) returns (i: nat)
    requires IsTagged(tok)
    ensures i < |tok| && tok[i] == '=' && i in {3, 4, 6, 10}
  {
    if "loop=" <= tok {
      i := 4;
    } else if "vfs=" <= tok {
      i := 3;
    } else if "offset=" <= tok {
      i := 6;
    } else {
      i := 10;
    }
  }

  lemma TaggedIs(s: StringOpts, tok: string)
    ensures ParseString(s, tok).Some? <==> IsTagged(tok)
  {
  }

  /** What one token does to the flags and the leftovers. */
  lemma TokenEffect(p: Parsed, tok: string)
    ensures ParseToken(OPT_MAP, p, tok).flags == p.flags - ClearedBy(tok) + SetBy(tok)
    ensures ParseToken(OPT_MAP, p, tok).extra == if IsTagged(tok) || IsOption(tok) then p.extra else p.extra + [tok]
  {
    TaggedIs(p.strings, tok);
    if IsTagged(tok) {
      var i := TaggedHasEquals(tok);
      OptionNotTagged(tok, i);
      NoEffect(tok, p.flags);
    } else {
      LookupFinds(OPT_MAP, tok, 0);
      if Lookup(OPT_MAP, tok, 0) == None {
        NoOption(tok);
        NoEffect(tok, p.flags);
      } else {
        var k :| 0 <= k < |OPT_MAP| && OPT_MAP[k].name == tok && Lookup(OPT_MAP, tok, 0) == Some(OPT_MAP[k]);
        EffectIs(k);
        ApplyIs(OPT_MAP[k], p.flags);
      }
    }
  }

  lemma NoEffect(name: string, flags: set<Flag>)
    requires !IsOption(name)
    ensures flags - ClearedBy(name) + SetBy(name) == flags
  {
  }

  /** The last token about the flag sets it. */
  predicate Decided(toks: seq<string>, f: Flag) { LastSets(toks, SetBy, ClearedBy, f) }

  predicate LastSets(toks: seq<string>, sets: string -> set<Flag>, clears: string -> set<Flag>, f: Flag)
  {
    exists i | 0 <= i < |toks| :: SetsAt(toks, sets, clears, f, i)
  }

  predicate SetsAt(toks: seq<string>, sets: string -> set<Flag>, clears: string -> set<Flag>, f: Flag, i: nat)
    requires i < |toks|
  {
    f in sets(toks[i]) && forall j | i < j < |toks| :: f !in clears(toks[j])
  }

  /** v is what follows the tag in the last token that starts with it. */
  predicate LastValue(toks: seq<string>, tag: string, v: Option<string>)
  {
    if v.None? then forall i | 0 <= i < |toks| :: !(tag <= toks[i])
    else exists i | 0 <= i < |toks| :: LastAt(toks, tag, i) && toks[i] == tag + v.value
  }

  predicate LastAt(toks: seq<string>, tag: string, i: nat)
    requires i < |toks|
  {
    tag <= toks[i] && forall j | i < j < |toks| :: !(tag <= toks[j])
  }

  /** The tokens that are neither options nor tagged, in order. */
  function Unknown(toks: seq<string>): seq<string>
  {
    if toks == [] then []
    else
      var k := |toks| - 1;
      Unknown(toks[..k]) + if IsTagged(toks[k]) || IsOption(toks[k]) then [] else [toks[k]]
  }

  lemma SetsSnoc(toks: seq<string>, sets: string -> set<Flag>, clears: string -> set<Flag>, f: Flag, k: nat)
    requires |toks| == k + 1
    ensures LastSets(toks, sets, clears, f) <==>
              f in sets(toks[k]) || (LastSets(toks[..k], sets, clears, f) && f !in clears(toks[k]))
  {
    var init := toks[..k];
    if LastSets(toks, sets, clears, f) {
      var i :| 0 <= i < |toks| && SetsAt(toks, sets, clears, f, i);
      if i < k { assert SetsAt(init, sets, clears, f, i); }
    }
    if f in sets(toks[k]) { assert SetsAt(toks, sets, clears, f, k); }
    if LastSets(init, sets, clears, f) && f !in clears(toks[k]) {
      var i :| 0 <= i < |init| && SetsAt(init, sets, clears, f, i);
      assert SetsAt(toks, sets, clears, f, i);
    }
  }

  lemma {:induction false} TokensFlags(toks: seq<string>, f: Flag)
    ensures var p := ParseTokens(OPT_MAP, NOTHING, toks);
            f in p.flags <==> Decided(toks, f)
  {
    if toks != [] {
      var k := |toks| - 1;
      TokensFlags(toks[..k], f);
      TokenEffect(ParseTokens(OPT_MAP, NOTHING, toks[..k]), toks[k]);
      SetsSnoc(toks, SetBy, ClearedBy, f, k);
    }
  }

  lemma {:induction false} TokensExtra(toks: seq<string>)
    ensures ParseTokens(OPT_MAP, NOTHING, toks).extra == Unknown(toks)
  {
    if toks != [] {
      var k := |toks| - 1;
      TokensExtra(toks[..k]);
      TokenEffect(ParseTokens(OPT_MAP, NOTHING, toks[..k]), toks[k]);
    }
  }

  lemma LastValueSnoc(toks: seq<string>, tag: string, v: Option<string>, k: nat)
    requires |toks| == k + 1 && LastValue(toks[..k], tag, v)
    ensures LastValue(toks, tag, if tag <= toks[k] then Some(toks[k][|tag|..]) else v)
  {
    if tag <= toks[k] {
      assert LastAt(toks, tag, k) && toks[k] == tag + toks[k][|tag|..];
    } else if v.Some? {
      var i :| 0 <= i < k && LastAt(toks[..k], tag, i) && toks[..k][i] == tag + v.value;
      assert LastAt(toks, tag, i) && toks[i] == tag + v.value;
    }
  }

  /** The four string options are what the last tokens with their tags say. */
  predicate StringsSaid(toks: seq<string>, s: StringOpts)
  {
    && LastValue(toks, "loop=", s.loopdev) && LastValue(toks, "vfs=", s.vfstype)
    && LastValue(toks, "offset=", s.offset) && LastValue(toks, "encryption=", s.encryption)
  }

  /** One token sets the option whose tag it starts with. */
  predicate OneSaid(s: StringOpts, tok: string, s': StringOpts)
  {
    && s'.loopdev == (if "loop=" <= tok then Some(tok[5..]) else s.loopdev)
    && s'.vfstype == (if "vfs=" <= tok then Some(tok[4..]) else s.vfstype)
    && s'.offset == (if "offset=" <= tok then Some(tok[7..]) else s.offset)
    && s'.encryption == (if "encryption=" <= tok then Some(tok[11..]) else s.encryption)
  }

  lemma StringEffect(p: Parsed, tok: string)
    ensures OneSaid(p.strings, tok, ParseToken(OPT_MAP, p, tok).strings)
  {
    assert "loop=" <= tok ==> tok[0] == 'l';
    assert "vfs=" <= tok ==> tok[0] == 'v';
    assert "offset=" <= tok ==> tok[0] == 'o';
    assert "encryption=" <= tok ==> tok[0] == 'e';
  }

  lemma SaidSnoc(toks: seq<string>, s: StringOpts, s': StringOpts, k: nat)
    requires |toks| == k + 1 && StringsSaid(toks[..k], s) && OneSaid(s, toks[k], s')
    ensures StringsSaid(toks, s')
  {
    LastValueSnoc(toks, "loop=", s.loopdev, k);
    LastValueSnoc(toks, "vfs=", s.vfstype, k);
    LastValueSnoc(toks, "offset=", s.offset, k);
    LastValueSnoc(toks, "encryption=", s.encryption, k);
  }

  lemma {:induction false} TokensStrings(toks: seq<string>)
    ensures StringsSaid(toks, ParseTokens(OPT_MAP, NOTHING, toks).strings)
  {
    if toks != [] {
      var k := |toks| - 1;
      var p := ParseTokens(OPT_MAP, NOTHING, toks[..k]);
      TokensStrings(toks[..k]);
      StringEffect(p, toks[k]);
      SaidSnoc(toks, p.strings, ParseToken(OPT_MAP, p, toks[k]).strings, k);
    }
  }

  /** What parse_opts makes of an option string: a flag is set exactly when the last option about it sets it, and
      read-only also depends on the switches, of which -w is the stronger; a string option has the value of the last
      token with its tag; what is left over are the unknown tokens in order. */
  lemma ParseExactly(opts: string, o: Overrides, f: Flag)
    ensures var p, toks := Parse(OPT_MAP, opts, o), Tokens(opts);
            && (f != RdOnly ==> (f in p.flags <==> Decided(toks, f)))
            && (RdOnly in p.flags <==> !o.readwrite && (o.readonly || Decided(toks, RdOnly)))
            && StringsSaid(toks, p.strings)
            && p.extra == Unknown(toks)
  {
    var toks := Tokens(opts);
    TokensFlags(toks, f);
    TokensFlags(toks, RdOnly);
    TokensExtra(toks);
    TokensStrings(toks);
  }

  // ----- the canonical string -----

  /** The names of flags in the order of printing. */
  const PRINTED: seq<(string, Flag)> := [
    ("noexec", NoExec), ("nomount_suid", NoSuid), ("nodev", NoDev), ("sync", Synchronous), ("remount", Remount),
    ("noauto", NoAuto), ("user", User), ("quiet", Silent), ("mand", MandLock), ("noatime", NoAtime),
    ("nodiratime", NoDirAtime)
  ]

  /** The names of the flags that are set, in the order given. */
  function Chosen(order: seq<(string, Flag)>, flags: set<Flag>): seq<string>
  {
    if order == [] then [] else (if order[0].1 in flags then [order[0].0] else []) + Chosen(order[1..], flags)
  }

  lemma {:induction false} ChosenWithout(order: seq<(string, Flag)>, flags: set<Flag>, f: Flag)
    requires forall i | 0 <= i < |order| :: order[i].1 != f
    ensures Chosen(order, flags - {f}) == Chosen(order, flags)
  {
    if order != [] { ChosenWithout(order[1..], flags, f); }
  }

  /** How many of the printed names come before entry i of the table. */
  function Before(i: nat): (n: nat)
    ensures n <= 11
  {
    if i <= 4 then 0 else if i <= 6 then 1 else if i <= 8 then 2 else if i <= 9 then 3 else if i <= 11 then 4
    else if i <= 13 then 5 else if i <= 14 then 6 else if i <= 16 then 7 else if i <= 18 then 8
    else if i <= 22 then 9 else if i <= 24 then 10 else 11
  }

  lemma PrintedAtIs(i: nat)
    requires i < |OPT_MAP|
    ensures if Printable(OPT_MAP[i])
            then Before(i + 1) == Before(i) + 1
                 && PRINTED[Before(i)] == (OPT_MAP[i].name, OPT_MAP[i].flag.value)
            else Before(i + 1) == Before(i)
  {
  }

  lemma FlagsApart(i: nat, j: nat)
    requires i < j < |PRINTED|
    ensures PRINTED[i].1 != PRINTED[j].1
  {
  }

  /** Entry i of a table is the next printed name, or is not printed. */
  predicate Placed(t: seq<Opt>, order: seq<(string, Flag)>, before: nat -> nat, i: nat)
    requires i < |t|
  {
    if Printable(t[i])
    then before(i) < |order| && before(i + 1) == before(i) + 1 && order[before(i)] == (t[i].name, t[i].flag.value)
    else before(i + 1) == before(i)
  }

  lemma {:induction false} NamesFrom(
    t: seq<Opt>, order: seq<(string, Flag)>, before: nat -> nat, flags: set<Flag>, i: nat
  )
    requires i <= |t| && (forall k | 0 <= k < |t| :: Placed(t, order, before, k))
    requires forall j, k | 0 <= j < k < |order| :: order[j].1 != order[k].1
    requires before(i) <= |order| && before(|t|) == |order|
    ensures FlagNames(t, flags, i) == Chosen(order[before(i)..], flags)
    decreases |t| - i
  {
    if i < |t| {
      var n := before(i);
      assert Placed(t, order, before, i);
      if Printable(t[i]) {
        var f := t[i].flag.value;
        ChosenWithout(order[n + 1..], flags, f);
        assert order[n..][1..] == order[n + 1..];
        NamesFrom(t, order, before, if f in flags then flags - {f} else flags, i + 1);
      } else {
        NamesFrom(t, order, before, flags, i + 1);
      }
    }
  }

  lemma NamesOfMap(flags: set<Flag>, i: nat)
    requires i == 0
    ensures FlagNames(OPT_MAP, flags, i) == Chosen(PRINTED, flags)
  {
    forall k | 0 <= k < |OPT_MAP| ensures Placed(OPT_MAP, PRINTED, Before, k) { PrintedAtIs(k); }
    forall j, k | 0 <= j < k < |PRINTED| ensures PRINTED[j].1 != PRINTED[k].1 { FlagsApart(j, k); }
    NamesFrom(OPT_MAP, PRINTED, Before, flags, i);
    assert PRINTED[i..] == PRINTED;
  }

  /** The canonical string: ro or rw, the names of the flags that are set, loop=, offset= and encryption= if given, and
      the leftovers, with a comma between each two. */
  lemma PrintExactly(p: Parsed)
    ensures Print(OPT_MAP, p) == JoinComma(
              [if RdOnly in p.flags then "ro" else "rw"]
              + Chosen(PRINTED, p.flags)
              + ((if p.strings.loopdev.Some? then ["loop=" + p.strings.loopdev.value] else [])
                 + (if p.strings.offset.Some? then ["offset=" + p.strings.offset.value] else [])
                 + (if p.strings.encryption.Some? then ["encryption=" + p.strings.encryption.value] else []))
              + p.extra)
  {
    NamesOfMap(p.flags, 0);
  }

  /** What goes into the mount table has the same options but remount, noauto and user. */
  lemma ShownExactly(p: Parsed, f: Flag)
    ensures f in ForMtab(p).flags <==> f in p.flags && f != Remount && f != NoAuto && f != User
    ensures ForMtab(p).strings == p.strings && ForMtab(p).extra == p.extra
  {
  }
}
