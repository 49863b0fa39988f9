/** Go strings as the repository's code sees them: sequences of bytes. A byte is a `char` below
    256, so literals stay readable; a character outside ASCII is its UTF-8 bytes. */
module Text {

  datatype Option<+T> = None | Some(value: T)

  predicate IsByte(c: char) { c as int < 256 }

  predicate IsBytes(s: string) { forall i | 0 <= i < |s| :: IsByte(s[i]) }

  // ---------------------------------------------------------------- white space

  /** The first byte-length of a white-space code point at the start of `s`, as `unicode.IsSpace`
      classifies it (0 when there is none). */
  function LeadingSpace(s: string): (n: nat)
    ensures n <= |s|
  {
    if |s| >= 1 && IsSpace1(s[0]) then 1
    else if |s| >= 2 && IsSpace2(s[0], s[1]) then 2
    else if |s| >= 3 && IsSpace3(s[0], s[1], s[2]) then 3
    else 0
  }

  function TrailingSpace(s: string): (n: nat)
    ensures n <= |s|
  {
    var m := |s|;
    if m >= 1 && IsSpace1(s[m - 1]) then 1
    else if m >= 2 && IsSpace2(s[m - 2], s[m - 1]) then 2
    else if m >= 3 && IsSpace3(s[m - 3], s[m - 2], s[m - 1]) then 3
    else 0
  }

  predicate IsSpace1(a: char) {
    a == ' ' || ('\t' <= a <= '\r')
  }

  // U+0085 and U+00A0
  predicate IsSpace2(a: char, b: char) {
    a == '\U{C2}' && (b == '\U{85}' || b == '\U{A0}')
  }

  // U+1680, U+2000..U+200A, U+2028, U+2029, U+202F, U+205F and U+3000
  predicate IsSpace3(a: char, b: char, c: char) {
    || (a == '\U{E1}' && b == '\U{9A}' && c == '\U{80}')
    || (a == '\U{E2}' && b == '\U{80}' && ('\U{80}' <= c <= '\U{8A}' || c in "\U{A8}\U{A9}\U{AF}"))
    || (a == '\U{E2}' && b == '\U{81}' && c == '\U{9F}')
    || (a == '\U{E3}' && b == '\U{80}' && c == '\U{80}')
  }

  function TrimLeft(s: string): string
    decreases |s|
  {
    var n := LeadingSpace(s);
    if n == 0 then s else TrimLeft(s[n..])
  }

  function TrimRight(s: string): string
    decreases |s|
  {
    var n := TrailingSpace(s);
    if n == 0 then s else TrimRight(s[..|s| - n])
  }

  function TrimSpace(s: string): string { TrimRight(TrimLeft(s)) }

  predicate Trimmed(s: string) { LeadingSpace(s) == 0 && TrailingSpace(s) == 0 }

  lemma {:induction false} TrimLeftClean(s: string)
    ensures LeadingSpace(TrimLeft(s)) == 0
    decreases |s|
  {
    var n := LeadingSpace(s);
    if n == 0 {
    } else {
      TrimLeftClean(s[n..]);
    }
  }

  lemma {:induction false} TrimRightClean(s: string)
    ensures TrailingSpace(TrimRight(s)) == 0
    ensures TrimRight(s) <= s
    decreases |s|
  {
    var n := TrailingSpace(s);
    if n == 0 {
    } else {
      TrimRightClean(s[..|s| - n]);
    }
  }

  /** Trimming leaves nothing to trim, and is the identity exactly on trimmed strings. */
  lemma TrimSpaceIdempotent(s: string)
    ensures Trimmed(TrimSpace(s))
    ensures TrimSpace(s) == s <==> Trimmed(s)
    ensures TrimSpace(TrimSpace(s)) == TrimSpace(s)
  {
    var t := TrimLeft(s);
    TrimLeftClean(s);
    TrimRightClean(t);
    var r := TrimRight(t);
    assert r == t[..|r|];
  }

  lemma EndsPlain(s: string)
    requires s == "" || ('!' <= s[0] <= '~' && '!' <= s[|s| - 1] <= '~')
    ensures Trimmed(s)
  {
    if s != "" { assert !IsSpace1(s[0]); }
  }

  /** Unicode's white space, by code point. */
  type Space = c: int |
    || 0x9 <= c <= 0xD || c == 0x20 || c == 0x85 || c == 0xA0 || c == 0x1680 || 0x2000 <= c <= 0x200A
    || c == 0x2028 || c == 0x2029 || c == 0x202F || c == 0x205F || c == 0x3000
    witness 0x20

  /** Its bytes. */
  function Utf8(c: Space): (w: string)
    ensures w != ""
  {
    if c < 0x80 then [c as char]
    else if c < 0x800 then [(0xC0 + c / 64) as char, (0x80 + c % 64) as char]
    else [(0xE0 + c / 4096) as char, (0x80 + c / 64 % 64) as char, (0x80 + c % 64) as char]
  }

  lemma OneSpace(w: string) returns (c: Space)
    requires |w| > 0 && (LeadingSpace(w) == |w| || TrailingSpace(w) == |w|)
    ensures Utf8(c) == w
  {
    if |w| == 1 {
      c := w[0] as int;
    } else if |w| == 2 {
      c := (w[0] as int - 0xC0) * 64 + (w[1] as int - 0x80);
    } else {
      c := LongSpace(w[0], w[1], w[2]);
    }
  }

  lemma LongSpace(a: char, b: char, c: char) returns (s: Space)
    requires IsSpace3(a, b, c)
    ensures Utf8(s) == [a, b, c]
  {
    s := (a as int - 0xE0) * 4096 + (b as int - 0x80) * 64 + (c as int - 0x80);
  }

  lemma SpaceIs(c: Space)
    ensures var w := Utf8(c);
            || (|w| == 1 && IsSpace1(w[0])) || (|w| == 2 && IsSpace2(w[0], w[1]))
            || (|w| == 3 && IsSpace3(w[0], w[1], w[2]))
  {
  }

  lemma SpaceFound(c: Space, s: string)
    ensures Utf8(c) <= s ==> LeadingSpace(s) > 0
    ensures |Utf8(c)| <= |s| && s[|s| - |Utf8(c)|..] == Utf8(c) ==> TrailingSpace(s) > 0
  {
    SpaceIs(c);
    hide Utf8, IsSpace1, IsSpace2, IsSpace3;
    var w, n := Utf8(c), |s| - |Utf8(c)|;
    if w <= s { assert forall i | 0 <= i < |w| :: s[i] == w[i]; }
    if n >= 0 && s[n..] == w { assert forall i | 0 <= i < |w| :: s[n + i] == w[i]; }
  }

  ghost function Spaces(cs: seq<Space>): string {
    if cs == [] then "" else Utf8(cs[0]) + Spaces(cs[1..])
  }

  lemma {:induction false} SpacesMore(cs: seq<Space>, c: Space)
    ensures Spaces(cs + [c]) == Spaces(cs) + Utf8(c)
  {
    hide Utf8;
    if cs == [] {
      assert Spaces([c][1..]) == "" && cs + [c] == [c];
    } else {
      assert (cs + [c])[1..] == cs[1..] + [c];
      SpacesMore(cs[1..], c);
    }
  }

  lemma FirstSpace(s: string) returns (c: Space)
    requires LeadingSpace(s) > 0
    ensures Utf8(c) == s[..LeadingSpace(s)]
  {
    c := OneSpace(s[..LeadingSpace(s)]);
  }

  lemma LastSpace(s: string) returns (c: Space)
    requires TrailingSpace(s) > 0
    ensures Utf8(c) == s[|s| - TrailingSpace(s)..]
  {
    c := OneSpace(s[|s| - TrailingSpace(s)..]);
  }

  lemma {:induction false} TrimLeftCuts(s: string) returns (cs: seq<Space>)
    ensures s == Spaces(cs) + TrimLeft(s)
    decreases |s|
  {
    hide Utf8, LeadingSpace, Spaces;
    var n := LeadingSpace(s);
    if n == 0 {
      cs := [];
      NoSpaces();
    } else {
      var c := FirstSpace(s);
      var rest := TrimLeftCuts(s[n..]);
      cs := [c] + rest;
      SpacesFirst(c, rest);
      assert s == s[..n] + s[n..];
      assert Utf8(c) + Spaces(rest) + TrimLeft(s[n..]) == Utf8(c) + (Spaces(rest) + TrimLeft(s[n..]));
    }
  }

  lemma NoSpaces()
    ensures Spaces([]) == ""
  {
  }

  lemma SpacesFirst(c: Space, cs: seq<Space>)
    ensures Spaces([c] + cs) == Utf8(c) + Spaces(cs)
  {
    assert ([c] + cs)[1..] == cs;
  }

  lemma {:induction false} TrimRightCuts(s: string) returns (cs: seq<Space>)
    ensures s == TrimRight(s) + Spaces(cs)
    decreases |s|
  {
    hide Utf8, TrailingSpace, Spaces;
    var n := TrailingSpace(s);
    if n == 0 {
      cs := [];
      NoSpaces();
    } else {
      var m := |s| - n;
      var c := LastSpace(s);
      var rest := TrimRightCuts(s[..m]);
      cs := rest + [c];
      SpacesMore(rest, c);
      assert s == s[..m] + s[m..];
      assert TrimRight(s[..m]) + (Spaces(rest) + Utf8(c)) == TrimRight(s[..m]) + Spaces(rest) + Utf8(c);
    }
  }

  /** Trimming cuts white space off both ends, nothing else, and all of it. */
  lemma TrimSpaceCuts(s: string) returns (a: seq<Space>, b: seq<Space>)
    ensures s == Spaces(a) + TrimSpace(s) + Spaces(b)
    ensures forall c: Space :: var t, w := TrimSpace(s), Utf8(c);
              !(w <= t) && !(|w| <= |t| && t[|t| - |w|..] == w)
  {
    hide Utf8, Spaces, TrimLeft, TrimRight, LeadingSpace, TrailingSpace;
    a := TrimLeftCuts(s);
    b := TrimRightCuts(TrimLeft(s));
    assert s == Spaces(a) + (TrimSpace(s) + Spaces(b));
    TrimSpaceIdempotent(s);
    forall c: Space
      ensures var t, w := TrimSpace(s), Utf8(c); !(w <= t) && !(|w| <= |t| && t[|t| - |w|..] == w)
    {
      SpaceFound(c, TrimSpace(s));
    }
  }

  predicate Printable(s: string) { forall i | 0 <= i < |s| :: '!' <= s[i] <= '~' }

  lemma TrimPlain(s: string)
    requires Printable(s)
    ensures Trimmed(s) && TrimSpace(s) == s
  {
    TrimSpaceIdempotent(s);
  }

  // ---------------------------------------------------------------- searching

  predicate HasPrefix(s: string, p: string) { |p| <= |s| && s[..|p|] == p }

  function CutPrefix(s: string, p: string): Option<string> {
    if HasPrefix(s, p) then Some(s[|p|..]) else None
  }

  /** The first index at or after `i` where `p` starts, or -1. */
  function IndexFrom(s: string, p: string, i: nat): (r: int)
    requires i <= |s|
    ensures r == -1 || (i <= r <= |s| - |p| && HasPrefix(s[r..], p))
    decreases |s| - i
  {
    if HasPrefix(s[i..], p) then i
    else if i == |s| then -1
    else IndexFrom(s, p, i + 1)
  }

  predicate Contains(s: string, p: string) { IndexFrom(s, p, 0) != -1 }

  /** p stands in s at i. */
  predicate OccursAt(s: string, p: string, i: nat) { i + |p| <= |s| && s[i..i + |p|] == p }

  ghost predicate Occurs(s: string, p: string) { exists i :: OccursAt(s, p, i) }

  lemma NotHere(s: string, p: string, i: nat)
    requires i <= |s|
    ensures HasPrefix(s[i..], p) <==> OccursAt(s, p, i)
  {
    if i + |p| <= |s| { assert s[i..][..|p|] == s[i..i + |p|]; }
  }

  /** The index found is the first one there is. */
  lemma {:induction false} IndexFromFirst(s: string, p: string, i: nat)
    requires i <= |s|
    ensures var r := IndexFrom(s, p, i);
            && (forall k: nat | i <= k && OccursAt(s, p, k) :: 0 <= r <= k)
            && (r >= 0 ==> OccursAt(s, p, r))
    decreases |s| - i
  {
    if HasPrefix(s[i..], p) {
      assert s[i..][..|p|] == s[i..i + |p|];
    } else {
      if i < |s| { IndexFromFirst(s, p, i + 1); }
      NotHere(s, p, i);
    }
  }

  lemma ContainsExactly(s: string, p: string)
    ensures Contains(s, p) <==> Occurs(s, p)
  {
    IndexFromFirst(s, p, 0);
  }

  function LastIndexOf(s: string, c: char): (r: int)
    ensures -1 <= r < |s|
    ensures r >= 0 ==> s[r] == c
    ensures forall i | r < i < |s| :: s[i] != c
  {
    if s == "" then -1
    else if s[|s| - 1] == c then |s| - 1
    else LastIndexOf(s[..|s| - 1], c)
  }

  lemma {:induction false} LastIndexSplit(a: string, c: char, b: string)
    requires c !in b
    ensures LastIndexOf(a + [c] + b, c) == |a|
  {
    var s := a + [c] + b;
    assert s[|a|] == c;
    assert forall i | |a| < i < |s| :: s[i] == b[i - |a| - 1];
  }

  /** `strings.ToLower`, as far as comparing with ASCII text can tell: the Kelvin sign and the dotted
      capital I are the only code points outside ASCII whose lower case is ASCII. */
  function Lower(s: string): string
    decreases |s|
  {
    if s == "" then ""
    else if HasPrefix(s, "\U{E2}\U{84}\U{AA}") then "k" + Lower(s[3..])
    else if HasPrefix(s, "\U{C4}\U{B0}") then "i" + Lower(s[2..])
    else [LowerChar(s[0])] + Lower(s[1..])
  }

  function LowerChar(c: char): char {
    if 'A' <= c <= 'Z' then ((c as int) + 32) as char else c
  }

  lemma LowerAscii(s: string)
    requires forall i | 0 <= i < |s| :: s[i] < '\U{80}'
    ensures |Lower(s)| == |s| && forall i | 0 <= i < |s| :: Lower(s)[i] == LowerChar(s[i])
  {
    if s == "" {
    } else {
      LowerAscii(s[1..]);
    }
  }

  predicate Lowercase(s: string) { forall i | 0 <= i < |s| :: 'a' <= s[i] <= 'z' }

  lemma {:induction false} LowerLowercase(s: string)
    requires Lowercase(s)
    ensures Lower(s) == s
  {
    LowerAscii(s);
    hide Lower;
  }

  // ---------------------------------------------------------------- decimal integers

  const MAX_INT64: int := 0x7fff_ffff_ffff_ffff
  const MIN_INT64: int := -0x8000_0000_0000_0000

  /** An int64 result: the value modulo 2^64, in [-2^63, 2^63). */
  function Wrap64(x: int): int { (x + 0x8000_0000_0000_0000) % 0x1_0000_0000_0000_0000 - 0x8000_0000_0000_0000 }

  /** An int32 result: the value modulo 2^32, in [-2^31, 2^31). */
  function Wrap32(x: int): int { (x + 0x8000_0000) % 0x1_0000_0000 - 0x8000_0000 }

  predicate IsDigit(c: char) { '0' <= c <= '9' }

  predicate AllDigits(s: string) { forall i | 0 <= i < |s| :: IsDigit(s[i]) }

  function DigitValue(c: char): nat
    requires IsDigit(c)
  {
    c as int - '0' as int
  }

  /** The number a string of decimal digits denotes. */
  function Number(s: string): nat
    requires AllDigits(s)
  {
    if s == "" then 0 else 10 * Number(s[..|s| - 1]) + DigitValue(s[|s| - 1])
  }

  function Digits(n: nat): (s: string)
    ensures s != "" && AllDigits(s)
  {
    var d := [('0' as int + n % 10) as char];
    if n < 10 then d else Digits(n / 10) + d
  }

  /** `strconv.Itoa`. */
  function Itoa(n: int): string {
    if n < 0 then "-" + Digits(-n) else Digits(n)
  }

  /** `strconv.Atoi` on a 64-bit machine: an optional sign, then digits only, in range. */
  function Atoi(s: string): Option<int> {
    var neg := HasPrefix(s, "-");
    var d := if neg || HasPrefix(s, "+") then s[1..] else s;
    if d == "" || !AllDigits(d) then None
    else
      var m: int := Number(d);
      var n := if neg then -m else m;
      if MIN_INT64 <= n <= MAX_INT64 then Some(n) else None
  }

  lemma {:induction false} NumberDigits(n: nat)
    ensures Number(Digits(n)) == n
  {
    var d := ('0' as int + n % 10) as char;
    if n < 10 {
    } else {
      NumberDigits(n / 10);
      var s := Digits(n / 10);
      assert (s + [d])[..|s|] == s;
    }
  }

  lemma AtoiItoa(n: int)
    requires MIN_INT64 <= n <= MAX_INT64
    ensures Atoi(Itoa(n)) == Some(n)
    ensures Trimmed(Itoa(n))
  {
    var m := if n < 0 then -n else n;
    NumberDigits(m);
    hide Digits, Number, Atoi, TrimSpace, Trimmed;
    if n < 0 { AtoiNegative(Digits(m)); } else { AtoiDigits(Digits(m)); }
    TrimPlain(Itoa(n));
  }

  lemma AtoiDigits(d: string)
    requires d != "" && AllDigits(d) && Number(d) <= MAX_INT64
    ensures Atoi(d) == Some(Number(d))
  {
    hide Number;
    assert IsDigit(d[0]);
    assert !HasPrefix(d, "-") && !HasPrefix(d, "+") by { assert |d| >= 1 ==> d[..1][0] == d[0]; }
    hide HasPrefix;
  }

  lemma AtoiNegative(d: string)
    requires d != "" && AllDigits(d) && Number(d) <= -MIN_INT64
    ensures Atoi("-" + d) == Some(-(Number(d) as int))
  {
    hide Number;
    var s := "-" + d;
    assert s[..1] == "-" && s[1..] == d;
    assert HasPrefix(s, "-");
    hide HasPrefix;
  }

  const MAX_UINT64: int := 0xffff_ffff_ffff_ffff

  /** The digits of s read on from n: None at a byte that is no digit, and the largest uint64 as soon
      as the number exceeds it, whatever follows. */
  function ParseUint(s: string, n: nat): (r: Option<nat>)
    ensures n <= MAX_UINT64 && r.Some? ==> r.value <= MAX_UINT64
  {
    if s == "" then Some(n)
    else if !IsDigit(s[0]) then None
    else
      var m := 10 * n + DigitValue(s[0]);
      if m > MAX_UINT64 then Some(MAX_UINT64) else ParseUint(s[1..], m)
  }

  /** `strconv.ParseInt(s, 10, 64)` without its error: 0 for no number, the nearest int64 for one out
      of range. */
  function ParseInt(s: string): (n: int)
    ensures MIN_INT64 <= n <= MAX_INT64
  {
    var neg := HasPrefix(s, "-");
    var d := if neg || HasPrefix(s, "+") then s[1..] else s;
    match if d == "" then None else ParseUint(d, 0)
    case None => 0
    case Some(m) => if neg then (if m > -MIN_INT64 then MIN_INT64 else -m) else if m > MAX_INT64 then MAX_INT64 else m
  }

  lemma {:induction false} ParseUintMore(s: string, n: nat, m: nat, c: char)
    requires ParseUint(s, n) == Some(m) && IsDigit(c) && 10 * m + DigitValue(c) <= MAX_UINT64
    ensures ParseUint(s + [c], n) == Some(10 * m + DigitValue(c))
    decreases |s|
  {
    if s == "" {
      assert ParseUint([c][1..], 10 * m + DigitValue(c)) == Some(10 * m + DigitValue(c));
      assert s + [c] == [c];
    } else {
      ParseUintMore(s[1..], 10 * n + DigitValue(s[0]), m, c);
      assert (s + [c])[1..] == s[1..] + [c];
    }
  }

  lemma {:induction false} ParseDigits(n: nat)
    requires n <= MAX_UINT64
    ensures ParseUint(Digits(n), 0) == Some(n)
  {
    var c := ('0' as int + n % 10) as char;
    if n < 10 {
      assert [c][1..] == "";
    } else {
      ParseDigits(n / 10);
      ParseUintMore(Digits(n / 10), 0, n / 10, c);
    }
  }

  lemma ParseItoa(n: int)
    requires MIN_INT64 <= n <= MAX_INT64
    ensures ParseInt(Itoa(n)) == n
  {
    var m := if n < 0 then -n else n;
    var d := Digits(m);
    ParseDigits(m);
    assert IsDigit(d[0]);
    hide Digits, ParseUint;
    assert ("-" + d)[1..] == d;
  }

  /** s is how some int64 is written. */
  ghost predicate Decimal(s: string) { exists n | MIN_INT64 <= n <= MAX_INT64 :: s == Itoa(n) }

  lemma DecimalExactly(s: string)
    ensures Itoa(ParseInt(s)) == s <==> Decimal(s)
  {
    if Decimal(s) {
      var n :| MIN_INT64 <= n <= MAX_INT64 && s == Itoa(n);
      ParseItoa(n);
    }
  }

  lemma ItoaInjective(a: nat, b: nat)
    requires Itoa(a) == Itoa(b)
    ensures a == b
  {
    NumberDigits(a);
    NumberDigits(b);
  }
}
