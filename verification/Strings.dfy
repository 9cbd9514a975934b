/** C strings: their end, lines and numbers in them, and splitting at commas as strtok(s, ",") does. */
module Strings {

  /** The C string at the start of a buffer: everything before the first NUL. */
  function CString(s: string): (r: string)
    ensures r <= s && '\0' !in r && ('\0' !in s ==> r == s)
  {
    if s == [] || s[0] == '\0' then [] else [s[0]] + CString(s[1..])
  }

  /** Characters up to and including the first newline. */
  function LineLength(s: string): (n: nat)
    ensures n <= |s| && (n == 0 <==> s == [])
    ensures forall i | 0 <= i < n - 1 :: s[i] != '\n'
    ensures n < |s| ==> s[n - 1] == '\n'
  {
    if s == [] then 0 else if s[0] == '\n' then 1 else 1 + LineLength(s[1..])
  }

  // ----- numbers -----

  predicate IsDigit(c: char) { '0' <= c <= '9' }

  function Digits(s: string): (d: string)
    ensures d <= s && forall i | 0 <= i < |d| :: IsDigit(d[i])
    ensures |d| < |s| ==> !IsDigit(s[|d|])
  {
    if s == [] || !IsDigit(s[0]) then [] else [s[0]] + Digits(s[1..])
  }

  function Value(d: string): nat
    requires forall i | 0 <= i < |d| :: IsDigit(d[i])
  {
    if d == [] then 0 else assert IsDigit(d[|d| - 1]); 10 * Value(d[..|d| - 1]) + (d[|d| - 1] as int - '0' as int)
  }

  const LONG_MAX := 0x7fff_ffff_ffff_ffff

  // ----- pieces between commas -----

  /** The text before the first comma. */
  function Head(s: string): (h: string)
    ensures h <= s && ',' !in h && (|h| < |s| ==> s[|h|] == ',')
  {
    if s == [] || s[0] == ',' then [] else [s[0]] + Head(s[1..])
  }

  /** The non-empty pieces between commas, in order. */
  function Tokens(s: string): seq<string>
    decreases |s|
  {
    if s == [] then []
    else if s[0] == ',' then Tokens(s[1..])
    else
      var h := Head(s);
      [h] + Tokens(s[|h|..])
  }

  predicate StartsWith(s: string, tag: string) { tag <= s }

  /** Text that strtok can return. */
  predicate IsToken(t: string) { t != [] && ',' !in t }

  /** The pieces with a comma before each but the first. */
  function JoinComma(ts: seq<string>): string
  {
    if ts == [] then [] else if |ts| == 1 then ts[0] else JoinComma(ts[..|ts| - 1]) + "," + ts[|ts| - 1]
  }

  lemma {:induction false} TokensAreTokens(s: string)
    ensures forall t <- Tokens(s) :: IsToken(t)
    decreases |s|
  {
    if s != [] {
      if s[0] == ',' { TokensAreTokens(s[1..]); } else { TokensAreTokens(s[|Head(s)|..]); }
    }
  }

  lemma {:induction false} HeadOf(t: string, rest: string)
    requires ',' !in t && (rest != [] ==> rest[0] == ',')
    ensures Head(t + rest) == t
  {
    if t == [] {
      assert t + rest == rest;
    } else {
      HeadOf(t[1..], rest);
      assert (t + rest)[1..] == t[1..] + rest;
    }
  }

  /** A comma separates: the pieces of both sides, in order. */
  lemma {:induction false} TokensConcat(a: string, b: string)
    ensures Tokens(a + "," + b) == Tokens(a) + Tokens(b)
    decreases |a|
  {
    var all := a + "," + b;
    if a == [] {
      assert all[1..] == b && [] + Tokens(b) == Tokens(b);
    } else if a[0] == ',' {
      TokensConcat(a[1..], b);
      assert all[1..] == a[1..] + "," + b;
    } else {
      var h := Head(a);
      var rest := a[|h|..];
      assert a == h + rest;
      CommaBehind(h, rest, b);
      TokensConcat(rest, b);
      PiecesAssoc(h, Tokens(rest), Tokens(b));
    }
  }

  lemma CommaBehind(h: string, rest: string, b: string)
    requires ',' !in h && (rest != [] ==> rest[0] == ',') && h != []
    ensures Tokens(h + rest + "," + b) == [h] + Tokens(rest + "," + b)
  {
    var all, tail := h + rest + "," + b, rest + "," + b;
    assert all == h + tail;
    HeadOf(h, tail);
    assert all[|h|..] == tail && all[0] == h[0] && h[0] in h;
  }

  lemma PiecesAssoc(h: string, a: seq<string>, b: seq<string>)
    ensures [h] + (a + b) == ([h] + a) + b
  {
  }

  lemma TokenAlone(t: string)
    requires IsToken(t)
    ensures Tokens(t) == [t]
  {
    HeadOf(t, []);
    assert t + [] == t && t[|t|..] == [];
  }

  /** How texts are joined. */
  lemma JoinExactly(ts: seq<string>, t: string)
    ensures JoinComma([]) == ""
    ensures JoinComma(ts + [t]) == if ts == [] then t else JoinComma(ts) + "," + t
  {
    assert (ts + [t])[..|ts|] == ts;
  }

  /** Splitting what was joined gives the pieces back. */
  lemma {:induction false} TokensOfJoin(ts: seq<string>)
    requires forall i | 0 <= i < |ts| :: IsToken(ts[i])
    ensures Tokens(JoinComma(ts)) == ts
  {
    if |ts| == 1 {
      TokenAlone(ts[0]);
    } else if |ts| > 1 {
      var k := |ts| - 1;
      TokensOfJoin(ts[..k]);
      TokensConcat(JoinComma(ts[..k]), ts[k]);
      TokenAlone(ts[k]);
    }
  }
}
