/** The ordering of file names that puts "page 9" before "page 10"
    (`backend/internal/localsource/scan.go`). */
module NaturalSort {
  import opened Text

  /** What the comparison sees of a name: whole numbers, cut off at the largest `int64`, and bytes. */
  datatype Token = Num(value: nat) | Byte(c: char)

  function Tokens(s: string): seq<Token>
    decreases |s|
  {
    if s == "" then [] else [First(s)] + Tokens(s[Length(s)..])
  }

  function First(s: string): Token
    requires s != ""
  {
    if IsDigit(s[0]) then Num(Saturated(s[..Run(s)])) else Byte(s[0])
  }

  /** How many bytes the first token takes. */
  function Length(s: string): (n: nat)
    requires s != ""
    ensures 0 < n <= |s|
  {
    if IsDigit(s[0]) then Run(s) else 1
  }

  /** How many digits s starts with. */
  function Run(s: string): (n: nat)
    ensures n <= |s| && AllDigits(s[..n]) && (n < |s| ==> !IsDigit(s[n]))
    ensures s != "" && IsDigit(s[0]) ==> n > 0
  {
    if s == "" || !IsDigit(s[0]) then 0 else
      var n := 1 + Run(s[1..]);
      assert s[..n] == [s[0]] + s[1..][..n - 1];
      n
  }

  /** `strconv.ParseInt` with its range error ignored. */
  function Saturated(digits: string): nat
    requires AllDigits(digits)
  {
    if Number(digits) > MAX_INT64 then MAX_INT64 else Number(digits)
  }

  /** Numbers come where the digit bytes do among the other bytes. */
  function Rank(t: Token): int {
    match t
    case Byte(c) => if c < '0' then c as int - 0x100_0000 else MAX_INT64 + 1 + c as int
    case Num(v) => v
  }

  ghost predicate LexLess(x: seq<Token>, y: seq<Token>) {
    y != [] && (x == [] || Rank(x[0]) < Rank(y[0]) || (x[0] == y[0] && LexLess(x[1..], y[1..])))
  }

  ghost predicate Below(a: string, b: string) { LexLess(Tokens(a), Tokens(b)) }

  // ---------------------------------------------------------------- the code

  method LeadingDigits(s: string) returns (v: int, rest: string)
    ensures v == Saturated(s[..Run(s)]) && rest == s[Run(s)..]
  {
    var i := 0;
    while i < |s| && '0' <= s[i] <= '9'
      invariant 0 <= i <= |s| && Run(s) == i + Run(s[i..])
    {
      i := i + 1;
    }
    v := ParseInt(s[..i]);
    rest := s[i..];
  }

  method ParseInt(digits: string) returns (v: int)
    requires AllDigits(digits)
    ensures v == Saturated(digits)
  {
    v := if Number(digits) > MAX_INT64 then MAX_INT64 else Number(digits);
  }

  method Less(n: seq<string>, i: nat, j: nat) returns (less: bool)
    requires i < |n| && j < |n|
    ensures less <==> Below(n[i], n[j])
  {
    var a, b := n[i], n[j];
    while |a| > 0 && |b| > 0
      invariant Below(a, b) <==> Below(n[i], n[j])
      decreases |a|
    {
      var ad, bd := '0' <= a[0] <= '9', '0' <= b[0] <= '9';
      if ad && bd {
        var ai, an := LeadingDigits(a);
        var bi, bn := LeadingDigits(b);
        if ai != bi { return ai < bi; }
        a, b := an, bn;
        continue;
      }
      if a[0] != b[0] { return a[0] < b[0]; }
      a, b := a[1..], b[1..];
    }
    return |a| < |b|;
  }

  // ---------------------------------------------------------------- a strict weak order

  /** Tokens of names: bytes that are not digits, and numbers in range. */
  ghost predicate Real(t: Token) {
    match t
    case Num(v) => v <= MAX_INT64
    case Byte(c) => !IsDigit(c)
  }

  lemma TokensReal(s: string)
    ensures forall i | 0 <= i < |Tokens(s)| :: Real(Tokens(s)[i])
    decreases |s|
  {
    if s == "" {
    } else {
      TokensReal(s[Length(s)..]);
    }
  }

  lemma RankInjective(t: Token, u: Token)
    requires Real(t) && Real(u) && Rank(t) == Rank(u)
    ensures t == u
  {
  }

  lemma {:induction false} LexTotal(x: seq<Token>, y: seq<Token>)
    requires forall i | 0 <= i < |x| :: Real(x[i])
    requires forall i | 0 <= i < |y| :: Real(y[i])
    ensures !LexLess(x, x)
    ensures LexLess(x, y) ==> !LexLess(y, x)
    ensures LexLess(x, y) || LexLess(y, x) || x == y
    decreases |x|
  {
    if x == [] {
    } else {
      LexTotal(x[1..], if y != [] then y[1..] else []);
      if y != [] && Rank(x[0]) == Rank(y[0]) {
        RankInjective(x[0], y[0]);
        assert x == [x[0]] + x[1..] && y == [y[0]] + y[1..];
      }
    }
  }

  lemma {:induction false} LexTransitive(x: seq<Token>, y: seq<Token>, z: seq<Token>)
    requires LexLess(x, y) && LexLess(y, z)
    ensures LexLess(x, z)
    decreases |x|
  {
    if x != [] && x[0] == y[0] && y[0] == z[0] && LexLess(x[1..], y[1..]) && LexLess(y[1..], z[1..]) {
      LexTransitive(x[1..], y[1..], z[1..]);
    }
  }

  /** Two names are tied exactly when their tokens agree. */
  lemma TiedExactly(a: string, b: string)
    ensures !Below(a, b) && !Below(b, a) <==> Tokens(a) == Tokens(b)
  {
    TokensReal(a);
    TokensReal(b);
    LexTotal(Tokens(a), Tokens(b));
  }

  /** The order is strict and weak: irreflexive, transitive, and being tied is transitive too. */
  lemma StrictWeak(a: string, b: string, c: string)
    ensures !Below(a, a)
    ensures Below(a, b) && Below(b, c) ==> Below(a, c)
    ensures !Below(a, b) && !Below(b, a) && !Below(b, c) && !Below(c, b) ==> !Below(a, c) && !Below(c, a)
  {
    TiedExactly(a, a);
    TiedExactly(a, b);
    TiedExactly(b, c);
    TiedExactly(a, c);
    if Below(a, b) && Below(b, c) { LexTransitive(Tokens(a), Tokens(b), Tokens(c)); }
  }

  // ---------------------------------------------------------------- numbers in names

  /** No number runs across the end of p. */
  ghost predicate Splits(p: string, s: string) {
    p == "" || s == "" || !IsDigit(p[|p| - 1]) || !IsDigit(s[0])
  }

  lemma FirstConcat(p: string, s: string)
    requires p != "" && Splits(p, s)
    ensures First(p + s) == First(p) && Length(p + s) == Length(p)
  {
    if IsDigit(p[0]) { RunConcat(p, s); }
    hide Run;
    var n := Length(p);
    assert (p + s)[..n] == p[..n];
  }

  lemma {:induction false} TokensConcat(p: string, s: string)
    requires Splits(p, s)
    ensures Tokens(p + s) == Tokens(p) + Tokens(s)
    decreases |p|
  {
    if p == "" {
      assert p + s == s;
    } else {
      FirstConcat(p, s);
      hide First, Length;
      var n := Length(p);
      assert (p + s)[n..] == p[n..] + s;
      TokensConcat(p[n..], s);
    }
  }

  lemma RunConcat(p: string, s: string)
    requires p != "" && Splits(p, s)
    ensures Run(p + s) == Run(p)
    decreases |p|
  {
    assert (p + s)[1..] == p[1..] + s;
    if |p| > 1 { RunConcat(p[1..], s); } else { assert p[1..] + s == s; }
  }

  lemma {:induction false} LexCommon(p: seq<Token>, x: seq<Token>, y: seq<Token>)
    ensures LexLess(p + x, p + y) <==> LexLess(x, y)
    decreases |p|
  {
    if p == [] {
      assert p + x == x && p + y == y;
    } else {
      assert (p + x)[1..] == p[1..] + x && (p + y)[1..] == p[1..] + y;
      LexCommon(p[1..], x, y);
    }
  }

  /** Names that differ first in a number are ordered by it, however it is written and whatever follows;
      numbers beyond the largest int64 count as that one. */
  lemma NumbersInOrder(p: string, x: string, y: string, q: string, r: string)
    requires x != "" && y != "" && AllDigits(x) && AllDigits(y) && Number(x) < Number(y) && Number(x) < MAX_INT64
    requires p == "" || !IsDigit(p[|p| - 1])
    requires (q == "" || !IsDigit(q[0])) && (r == "" || !IsDigit(r[0]))
    ensures Below(p + x + q, p + y + r)
  {
    hide Tokens, Number;
    NumberToken(x, q);
    NumberToken(y, r);
    TokensConcat(p, x + q);
    TokensConcat(p, y + r);
    assert p + x + q == p + (x + q);
    assert p + y + r == p + (y + r);
    LexCommon(Tokens(p), [Num(Saturated(x))] + Tokens(q), [Num(Saturated(y))] + Tokens(r));
  }

  lemma NumberToken(x: string, q: string)
    requires x != "" && AllDigits(x) && (q == "" || !IsDigit(q[0]))
    ensures Tokens(x + q) == [Num(Saturated(x))] + Tokens(q)
  {
    hide Tokens, Number;
    DigitsToken(x);
    TokensConcat(x, q);
  }

  lemma DigitsToken(x: string)
    requires x != "" && AllDigits(x)
    ensures Tokens(x) == [Num(Saturated(x))]
  {
    hide Number;
    assert IsDigit(x[0]);
    RunAll(x);
    assert x[..|x|] == x && x[|x|..] == "";
  }

  /** Names that differ in how a number is written, or in how far it is beyond the largest int64, are tied. */
  lemma NumbersTied(p: string, x: string, y: string, q: string)
    requires x != "" && y != "" && AllDigits(x) && AllDigits(y)
    requires Number(x) == Number(y) || (Number(x) >= MAX_INT64 && Number(y) >= MAX_INT64)
    requires (p == "" || !IsDigit(p[|p| - 1])) && (q == "" || !IsDigit(q[0]))
    ensures !Below(p + x + q, p + y + q) && !Below(p + y + q, p + x + q)
  {
    hide Tokens, Number, LexLess;
    NumberToken(x, q);
    NumberToken(y, q);
    TokensConcat(p, x + q);
    TokensConcat(p, y + q);
    assert p + x + q == p + (x + q);
    assert p + y + q == p + (y + q);
    TiedExactly(p + x + q, p + y + q);
  }

  /** Names that differ first in a byte, with no number running across that place, are ordered by it. */
  lemma BytesInOrder(p: string, x: char, q: string, y: char, r: string)
    requires x < y && !(IsDigit(x) && IsDigit(y))
    requires p == "" || !IsDigit(p[|p| - 1]) || (!IsDigit(x) && !IsDigit(y))
    ensures Below(p + [x] + q, p + [y] + r)
  {
    hide Tokens, LexLess;
    assert p + [x] + q == p + ([x] + q) && p + [y] + r == p + ([y] + r);
    TokensConcat(p, [x] + q);
    TokensConcat(p, [y] + r);
    LexCommon(Tokens(p), Tokens([x] + q), Tokens([y] + r));
    FirstToken(x, q);
    FirstToken(y, r);
    FirstDecides(Tokens([x] + q), Tokens([y] + r));
  }

  lemma FirstToken(x: char, q: string)
    ensures Tokens([x] + q) != []
    ensures var t := Tokens([x] + q)[0]; if IsDigit(x) then t.Num? && t.value <= MAX_INT64 else t == Byte(x)
  {
    hide Number;
  }

  lemma FirstDecides(x: seq<Token>, y: seq<Token>)
    requires x != [] && y != [] && Rank(x[0]) < Rank(y[0])
    ensures LexLess(x, y)
  {
  }

  /** A name comes before every longer one that goes on after it. */
  lemma PrefixFirst(p: string, q: string)
    requires q != "" && Splits(p, q)
    ensures Below(p, p + q)
  {
    TokensConcat(p, q);
    LexCommon(Tokens(p), [], Tokens(q));
    assert Tokens(p) + [] == Tokens(p);
  }

  lemma RunAll(d: string)
    requires AllDigits(d)
    ensures Run(d) == |d|
  {
  }
}
