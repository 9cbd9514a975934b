/** The flags of src/mount.c as the bits of an int: what the source's bit operations do to the set of flags. */
module FlagWords {
  import opened Common
  import opened MountOptions

  const WIDTH: nat := 32

  /** A 32-bit int as its bits, the lowest first. */
  type Word = w: seq<bool> | |w| == WIDTH witness seq(WIDTH, _ => false)

  function Or(v: Word, w: Word): (r: Word)
    ensures forall i | 0 <= i < WIDTH :: r[i] == (v[i] || w[i])
  {
    seq(WIDTH, i requires 0 <= i < WIDTH => v[i] || w[i])
  }

  function And(v: Word, w: Word): (r: Word)
    ensures forall i | 0 <= i < WIDTH :: r[i] == (v[i] && w[i])
  {
    seq(WIDTH, i requires 0 <= i < WIDTH => v[i] && w[i])
  }

  function Not(w: Word): (r: Word)
    ensures forall i | 0 <= i < WIDTH :: r[i] == !w[i]
  {
    seq(WIDTH, i requires 0 <= i < WIDTH => !w[i])
  }

  /** Position of the bit of a flag. */
  function Position(f: Flag): (k: nat)
    ensures k < WIDTH
  {
    match f
    case RdOnly => 0
    case NoSuid => 1
    case NoDev => 2
    case NoExec => 3
    case Synchronous => 4
    case Remount => 5
    case MandLock => 6
    case NoAtime => 10
    case NoDirAtime => 11
    case Silent => 15
    case Loop => 16
    case User => 30
    case NoAuto => 31
  }

  lemma PositionsDiffer(f: Flag, g: Flag)
    requires Position(f) == Position(g)
    ensures f == g
  {
  }

  predicate Occupied(flags: set<Flag>, i: int) { exists f | f in flags :: Position(f) == i }

  /** The int with the bits of these flags. */
  function Bits(flags: set<Flag>): (w: Word)
    ensures forall i | 0 <= i < WIDTH :: w[i] == Occupied(flags, i)
  {
    seq(WIDTH, i => Occupied(flags, i))
  }

  lemma BitOf(flags: set<Flag>, f: Flag)
    ensures Bits(flags)[Position(f)] <==> f in flags
  {
    if Occupied(flags, Position(f)) {
      var g :| g in flags && Position(g) == Position(f);
      PositionsDiffer(f, g);
    }
  }

  // ----- the operators of C on words and the operations on sets -----

  /** a | b */
  lemma OrBits(a: set<Flag>, b: set<Flag>)
    ensures Or(Bits(a), Bits(b)) == Bits(a + b)
  {
  }

  /** a & ~b */
  lemma ClearBits(a: set<Flag>, b: set<Flag>)
    ensures And(Bits(a), Not(Bits(b))) == Bits(a - b)
  {
    forall i | 0 <= i < WIDTH ensures Occupied(a, i) && !Occupied(b, i) <==> Occupied(a - b, i) {
      if f :| f in a - b && Position(f) == i {
        BitOf(b, f);
      }
      if Occupied(a, i) && !Occupied(b, i) {
        var f :| f in a && Position(f) == i;
        assert f in a - b;
      }
    }
  }

  /** a & b */
  lemma AndBits(a: set<Flag>, b: set<Flag>)
    ensures And(Bits(a), Bits(b)) == Bits(a * b)
  {
    forall i | 0 <= i < WIDTH && Occupied(a, i) && Occupied(b, i) ensures Occupied(a * b, i) {
      var f :| f in a && Position(f) == i;
      BitOf(b, f);
      assert f in a * b;
    }
  }

  /** (a & b) == b */
  lemma TestBits(a: set<Flag>, b: set<Flag>)
    ensures And(Bits(a), Bits(b)) == Bits(b) <==> b <= a
  {
    AndBits(a, b);
    SameBits(a * b, b);
    assert b <= a ==> a * b == b;
  }

  /** a == b */
  lemma SameBits(a: set<Flag>, b: set<Flag>)
    ensures Bits(a) == Bits(b) <==> a == b
  {
    if Bits(a) == Bits(b) {
      forall f: Flag ensures f in a <==> f in b {
        BitOf(a, f);
        BitOf(b, f);
      }
    }
  }

  // ----- the steps of parse_opt and parse_opts -----

  function Masked(o: Opt): set<Flag> { if o.flag.Some? then {o.flag.value} else {} }

  /** The mask of an option. */
  function Mask(o: Opt): Word { Bits(Masked(o)) }

  /** What parse_opt does to the int for an option that it knows. */
  function ApplyWord(o: Opt, w: Word): Word
  {
    var v := if o.inv then And(w, Not(Mask(o))) else Or(w, Mask(o));
    if Mask(o) == Bits({User}) then Or(v, Bits(SECURE)) else v
  }

  lemma ApplyBits(o: Opt, flags: set<Flag>)
    ensures ApplyWord(o, Bits(flags)) == Bits(Apply(o, flags))
  {
    OrBits(flags, Masked(o));
    ClearBits(flags, Masked(o));
    OrBits(if o.inv then flags - Masked(o) else flags + Masked(o), SECURE);
    SameBits(Masked(o), {User});
    assert Masked(o) == {User} <==> o.flag == Some(User) by { assert o.flag.Some? ==> o.flag.value in Masked(o); }
  }

  /** The -r and -w switches on the int. */
  function OverrideWord(o: Overrides, w: Word): Word
  {
    var v := if o.readonly then Or(w, Bits({RdOnly})) else w;
    if o.readwrite then And(v, Not(Bits({RdOnly}))) else v
  }

  lemma OverrideBits(o: Overrides, flags: set<Flag>)
    ensures OverrideWord(o, Bits(flags)) == Bits(Override(o, flags))
  {
    OrBits(flags, {RdOnly});
    ClearBits(if o.readonly then flags + {RdOnly} else flags, {RdOnly});
  }

  /** The round trip on ints: parsing, printing with ~MS_NOMTAB and parsing again clears exactly the bits of remount,
      noauto, user and loop. */
  lemma WordRoundTrip(opts: string, o: Overrides)
    ensures var p := Parse(OPT_MAP, opts, o);
            var q := Parse(OPT_MAP, Print(OPT_MAP, ForMtab(p)), o);
            && Bits(ForMtab(p).flags) == And(Bits(p.flags), Not(Bits(NOMTAB)))
            && Bits(q.flags) == And(Bits(p.flags), Not(Bits({Remount, NoAuto, User, Loop})))
  {
    var p := Parse(OPT_MAP, opts, o);
    MountRoundTrip(opts, o);
    ClearBits(p.flags, NOMTAB);
    ClearBits(p.flags, {Remount, NoAuto, User, Loop});
  }

  // ----- the constants of the headers -----

  function Pow2(k: nat): nat { if k == 0 then 1 else 2 * Pow2(k - 1) }

  lemma {:induction false} Pow2Sum(a: nat, b: nat)
    ensures Pow2(a + b) == Pow2(a) * Pow2(b)
  {
    if b > 0 { Pow2Sum(a, b - 1); }
  }

  function Value(w: seq<bool>): nat { if w == [] then 0 else (if w[0] then 1 else 0) + 2 * Value(w[1..]) }

  lemma {:induction false} ValueOfBit(w: seq<bool>, k: int)
    requires k < |w| && forall i | 0 <= i < |w| :: w[i] <==> i == k
    ensures Value(w) == if k < 0 then 0 else Pow2(k)
  {
    if w != [] { ValueOfBit(w[1..], if k <= 0 then -1 else k - 1); }
  }

  lemma FlagValue(f: Flag)
    ensures Value(Bits({f})) == Pow2(Position(f))
  {
    forall i | 0 <= i < WIDTH ensures Occupied({f}, i) <==> i == Position(f) {
      if i == Position(f) { assert f in {f}; }
    }
    ValueOfBit(Bits({f}), Position(f));
  }

  /** MS_RDONLY and so on, from include/mount_constants.h, the kernel's headers and src/mount.c. */
  function Constant(f: Flag): nat
  {
    match f
    case RdOnly => 1
    case NoSuid => 2
    case NoDev => 4
    case NoExec => 8
    case Synchronous => 16
    case Remount => 32
    case MandLock => 64
    case NoAtime => 1024
    case NoDirAtime => 2048
    case Silent => 32768
    case Loop => 0x1_0000
    case User => 0x4000_0000
    case NoAuto => 0x8000_0000
  }

  lemma SmallPowers()
    ensures Pow2(0) == 1 && Pow2(1) == 2 && Pow2(2) == 4 && Pow2(3) == 8
    ensures Pow2(4) == 16 && Pow2(5) == 32 && Pow2(6) == 64
  {
  }

  lemma LargePowers()
    ensures Pow2(10) == 1024 && Pow2(11) == 2048 && Pow2(15) == 32768 && Pow2(16) == 0x1_0000
    ensures Pow2(30) == 0x4000_0000 && Pow2(31) == 0x8000_0000
  {
    SmallPowers();
    Pow2Sum(5, 5);
    Pow2Sum(10, 1);
    Pow2Sum(10, 5);
    Pow2Sum(15, 1);
    Pow2Sum(15, 15);
    Pow2Sum(30, 1);
  }

  /** The bit positions are those of the source's constants. */
  lemma MaskConstant(f: Flag)
    ensures Value(Bits({f})) == Constant(f)
  {
    FlagValue(f);
    SmallPowers();
    LargePowers();
  }
}
