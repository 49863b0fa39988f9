/** Unpadded URL-safe base 64 (section 5 of RFC 4648), and reading it back out of a query string. */
module Base64Url {
  import opened Text

  function Sextet(v: nat): char {
    var x := v % 64;
    if x < 26 then ('A' as int + x) as char
    else if x < 52 then ('a' as int + x - 26) as char
    else if x < 62 then ('0' as int + x - 52) as char
    else if x == 62 then '-' else '_'
  }

  function Value(c: char): Option<nat> {
    if 'A' <= c <= 'Z' then Some(c as int - 'A' as int)
    else if 'a' <= c <= 'z' then Some(c as int - 'a' as int + 26)
    else if '0' <= c <= '9' then Some(c as int - '0' as int + 52)
    else if c == '-' then Some(62)
    else if c == '_' then Some(63)
    else None
  }

  predicate Alphabet(s: string) { forall i | 0 <= i < |s| :: Value(s[i]).Some? }

  predicate Below(v: seq<nat>, n: nat) { forall i | 0 <= i < |v| :: v[i] < n }

  /** Bytes regrouped six bits at a time. */
  function Sixes(b: seq<nat>): (v: seq<nat>)
    ensures b != [] ==> v != []
  {
    if b == [] then []
    else if |b| == 1 then [High(b[0]), Middle(b[0], 0)]
    else if |b| == 2 then [High(b[0]), Middle(b[0], b[1]), Low(b[1], 0)]
    else [High(b[0]), Middle(b[0], b[1]), Low(b[1], b[2]), b[2] % 64] + Sixes(b[3..])
  }

  function High(x: nat): nat { x / 4 }
  function Middle(x: nat, y: nat): nat { x % 4 * 16 + y / 16 }
  function Low(y: nat, z: nat): nat { y % 16 * 4 + z / 64 }

  function Eights(v: seq<nat>): Option<seq<nat>> {
    if v == [] then Some([])
    else if |v| == 1 then None
    else if |v| == 2 then Some([First(v[0], v[1])])
    else if |v| == 3 then Some([First(v[0], v[1]), Second(v[1], v[2])])
    else match Eights(v[4..])
      case None => None
      case Some(rest) =>
        Some([First(v[0], v[1]), Second(v[1], v[2]), Third(v[2], v[3])] + rest)
  }

  function First(p: nat, q: nat): nat { p * 4 + q / 16 }
  function Second(q: nat, r: nat): nat { q % 16 * 16 + r / 4 }
  function Third(r: nat, s: nat): nat { r % 4 * 64 + s }

  function Codes(s: string): seq<nat> {
    seq(|s|, i requires 0 <= i < |s| => s[i] as int)
  }

  function Encode(b: string): (s: string)
    ensures Alphabet(s)
    ensures b != "" ==> s != ""
  {
    var v := Sixes(Codes(b));
    seq(|v|, i requires 0 <= i < |v| => Sextet(v[i]))
  }

  /** `DecodeString`: line breaks are skipped, a lone last sextet or a foreign byte is an error, and
      the unused low bits of a short last group are ignored. */
  function Decode(s: string): Option<string> {
    var t := SkipBreaks(s);
    if !Alphabet(t) then None
    else match Eights(seq(|t|, i requires 0 <= i < |t| => Value(t[i]).value))
      case None => None
      case Some(b) => Some(seq(|b|, i requires 0 <= i < |b| => (b[i] % 256) as char))
  }

  function SkipBreaks(s: string): string {
    if s == "" then ""
    else (if s[0] == '\r' || s[0] == '\n' then "" else [s[0]]) + SkipBreaks(s[1..])
  }

  lemma {:induction false} SkipNothing(s: string)
    requires Alphabet(s)
    ensures SkipBreaks(s) == s
  {
    if s == "" {
    } else {
      assert Value(s[0]).Some?;
      SkipNothing(s[1..]);
    }
  }

  lemma Regroup(x: nat, y: nat, z: nat)
    requires x < 256 && y < 256 && z < 256
    ensures First(High(x), Middle(x, y)) == x
    ensures Second(Middle(x, y), Low(y, z)) == y
    ensures Third(Low(y, z), z % 64) == z
    ensures High(x) < 64 && Middle(x, y) < 64 && Low(y, z) < 64
  {
  }

  /** One full group in front of what reads back. */
  lemma GroupBack(p: nat, q: nat, r: nat, t: nat, v: seq<nat>, rest: seq<nat>)
    requires Eights(v) == Some(rest)
    ensures Eights([p, q, r, t] + v) == Some([First(p, q), Second(q, r), Third(r, t)] + rest)
  {
    hide First, Second, Third;
    assert ([p, q, r, t] + v)[4..] == v;
  }

  lemma {:induction false} EightsOfSixes(b: seq<nat>)
    requires Below(b, 256)
    ensures Below(Sixes(b), 64) && Eights(Sixes(b)) == Some(b)
    decreases |b|
  {
    hide High, Middle, Low, First, Second, Third;
    if b == [] {
    } else if |b| == 1 {
      Regroup(b[0], 0, 0);
      assert b == [b[0]];
    } else if |b| == 2 {
      Regroup(b[0], b[1], 0);
      assert b == [b[0], b[1]];
    } else {
      Regroup(b[0], b[1], b[2]);
      EightsOfSixes(b[3..]);
      GroupBack(High(b[0]), Middle(b[0], b[1]), Low(b[1], b[2]), b[2] % 64, Sixes(b[3..]), b[3..]);
      assert b == [b[0], b[1], b[2]] + b[3..];
    }
  }

  lemma SextetValue(v: nat)
    requires v < 64
    ensures Value(Sextet(v)) == Some(v)
  {
  }

  lemma Letters(v: seq<nat>, s: string)
    requires Below(v, 64) && |s| == |v| && forall i | 0 <= i < |v| :: s[i] == Sextet(v[i])
    ensures Alphabet(s)
    ensures v == seq(|s|, i requires 0 <= i < |s| => Value(s[i]).value)
  {
    forall i | 0 <= i < |v| ensures Value(s[i]) == Some(v[i]) { SextetValue(v[i]); }
  }

  lemma CodesBack(b: string)
    requires IsBytes(b)
    ensures var c := Codes(b);
            Below(c, 256) && b == seq(|c|, i requires 0 <= i < |c| => (c[i] % 256) as char)
  {
    forall i | 0 <= i < |b| ensures b[i] as int < 256 { assert IsByte(b[i]); }
  }

  /** Decoding inverts encoding on every byte string. */
  lemma RoundTrip(b: string)
    requires IsBytes(b)
    ensures Decode(Encode(b)) == Some(b)
  {
    CodesBack(b);
    EightsOfSixes(Codes(b));
    SkipNothing(Encode(b));
    Letters(Sixes(Codes(b)), Encode(b));
  }

  lemma {:induction false} EightsExactly(v: seq<nat>)
    ensures Eights(v).Some? <==> |v| % 4 != 1
    decreases |v|
  {
    hide Eights;
    if |v| < 4 {
      EightsShort(v);
    } else {
      EightsLong(v);
      EightsExactly(v[4..]);
    }
  }

  lemma EightsShort(v: seq<nat>)
    requires |v| < 4
    ensures Eights(v).Some? <==> |v| != 1
  {
  }

  lemma EightsLong(v: seq<nat>)
    requires |v| >= 4
    ensures Eights(v).Some? <==> Eights(v[4..]).Some?
  {
    hide First, Second, Third;
  }

  /** Text over the alphabet is refused exactly when a lone sextet is left over; any foreign byte but a line
      break is refused. */
  lemma DecodesExactly(s: string)
    ensures Decode(s).Some? <==> Alphabet(SkipBreaks(s)) && |SkipBreaks(s)| % 4 != 1
    ensures Alphabet(s) ==> SkipBreaks(s) == s
    ensures (exists i :: 0 <= i < |s| && Value(s[i]).None? && s[i] != '\r' && s[i] != '\n') ==> Decode(s) == None
  {
    var t := SkipBreaks(s);
    if Alphabet(t) { EightsExactly(seq(|t|, i requires 0 <= i < |t| => Value(t[i]).value)); }
    if Alphabet(s) { SkipNothing(s); }
    if i :| 0 <= i < |s| && Value(s[i]).None? && s[i] != '\r' && s[i] != '\n' { Left(s, i); }
  }

  lemma {:induction false} Left(s: string, i: nat)
    requires i < |s| && s[i] != '\r' && s[i] != '\n'
    ensures s[i] in SkipBreaks(s)
  {
    if i == 0 {
      assert SkipBreaks(s)[0] == s[0];
    } else {
      Left(s[1..], i - 1);
    }
  }

  /** A line break makes no difference, wherever it stands. */
  lemma {:induction false} BreaksSkipped(a: string, c: char, b: string)
    requires c == '\r' || c == '\n'
    ensures SkipBreaks(a + [c] + b) == SkipBreaks(a + b)
    ensures Decode(a + [c] + b) == Decode(a + b)
  {
    var s := a + [c] + b;
    if a == "" {
      assert s[1..] == b && a + b == b;
    } else {
      assert s[1..] == a[1..] + [c] + b && (a + b)[1..] == a[1..] + b;
      BreaksSkipped(a[1..], c, b);
    }
  }

  /** The alphabet of table 2 of RFC 4648: the letters, large and small, the digits, '-' and '_'. */
  lemma AlphabetIs(v: nat)
    requires v < 63
    ensures Sextet(0) == 'A' && Sextet(25) == 'Z' && Sextet(26) == 'a' && Sextet(51) == 'z'
    ensures Sextet(52) == '0' && Sextet(61) == '9' && Sextet(62) == '-' && Sextet(63) == '_'
    ensures v != 25 && v != 51 && v < 61 ==> Sextet(v + 1) as int == Sextet(v) as int + 1
    ensures Value(Sextet(v)) == Some(v)
  {
    SextetValue(v);
  }

  /** Three bytes and the four sextets they become are one 24-bit number. */
  lemma GroupNumber(x: nat, y: nat, z: nat)
    requires x < 256 && y < 256 && z < 256
    ensures High(x) * 0x4_0000 + Middle(x, y) * 0x1000 + Low(y, z) * 0x40 + z % 64 == x * 0x1_0000 + y * 0x100 + z
  {
    assert x == x / 4 * 4 + x % 4 && y == y / 16 * 16 + y % 16 && z == z / 64 * 64 + z % 64;
  }

  // ---------------------------------------------------------------- query strings

  /** Everything before the first `c`, and everything after it. */
  function Cut(s: string, c: char): (r: (string, string))
    ensures |r.1| <= |s| && (s != "" ==> |r.1| < |s|)
  {
    if s == "" then ("", "")
    else if s[0] == c then ("", s[1..])
    else var r := Cut(s[1..], c); ([s[0]] + r.0, r.1)
  }

  function HexValue(c: char): Option<nat> {
    if '0' <= c <= '9' then Some(c as int - '0' as int)
    else if 'a' <= c <= 'f' then Some(c as int - 'a' as int + 10)
    else if 'A' <= c <= 'F' then Some(c as int - 'A' as int + 10)
    else None
  }

  /** `url.QueryUnescape`. */
  function Unescape(s: string): Option<string> {
    if s == "" then Some("")
    else if s[0] == '%' then
      if |s| < 3 || HexValue(s[1]).None? || HexValue(s[2]).None? then None
      else match Unescape(s[3..])
        case None => None
        case Some(rest) =>
          Some([(HexValue(s[1]).value * 16 + HexValue(s[2]).value) as char] + rest)
    else match Unescape(s[1..])
      case None => None
      case Some(rest) => Some([if s[0] == '+' then ' ' else s[0]] + rest)
  }

  /** `url.ParseQuery(query).Get(name)`: the first well-formed pair of that name, or "". */
  function Param(query: string, name: string): string
    decreases |query|
  {
    if query == "" then ""
    else
      var (pair, rest) := Cut(query, '&');
      var (k, v) := Cut(pair, '=');
      if pair != "" && ';' !in pair && Unescape(k) == Some(name) && Unescape(v).Some?
      then Unescape(v).value
      else Param(rest, name)
  }

  lemma {:induction false} CutAt(a: string, c: char, b: string)
    requires c !in a
    ensures Cut(a + [c] + b, c) == (a, b)
  {
    var s := a + [c] + b;
    if a == "" {
      assert s[1..] == b;
    } else {
      assert s[1..] == a[1..] + [c] + b;
      CutAt(a[1..], c, b);
      assert a == [a[0]] + a[1..];
    }
  }

  lemma {:induction false} CutNone(a: string, c: char)
    requires c !in a
    ensures Cut(a, c) == (a, "")
  {
    if a == "" {
    } else {
      CutNone(a[1..], c);
      assert a == [a[0]] + a[1..];
    }
  }

  lemma {:induction false} UnescapePlain(s: string)
    requires Alphabet(s)
    ensures Unescape(s) == Some(s)
  {
    if s == "" {
    } else {
      assert Value(s[0]).Some?;
      UnescapePlain(s[1..]);
      assert s == [s[0]] + s[1..];
    }
  }

  /** The value of the first parameter reads back unchanged when it is encoded text. */
  lemma FirstParam(name: char, value: string, rest: string)
    requires Value(name).Some? && Alphabet(value)
    requires rest == "" || rest[0] == '&'
    ensures Param([name, '='] + value + rest, [name]) == value
  {
    var pair := [name, '='] + value;
    forall i | 0 <= i < |value| ensures value[i] != '&' && value[i] != ';' && value[i] != '=' {
      assert Value(value[i]).Some?;
    }
    if rest == "" {
      assert pair + rest == pair;
      CutNone(pair, '&');
    } else {
      assert pair + rest == pair + ['&'] + rest[1..];
      CutAt(pair, '&', rest[1..]);
    }
    assert pair == [name] + ['='] + value;
    CutAt([name], '=', value);
    UnescapePlain([name]);
    UnescapePlain(value);
  }
}
