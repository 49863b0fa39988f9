/** Lines, and a filter over them that decides about a line by looking ahead. */
module LineFilter {

  /** `strings.Split(body, "\n")`. */
  function SplitLines(s: string): (lines: seq<string>)
    ensures lines != []
  {
    if s == "" then [""]
    else
      var rest := SplitLines(s[1..]);
      if s[0] == '\n' then [""] + rest else [[s[0]] + rest[0]] + rest[1..]
  }

  function JoinLines(lines: seq<string>): string {
    if lines == [] then "" else JoinLines(lines[..|lines| - 1]) + lines[|lines| - 1] + "\n"
  }

  lemma JoinNone()
    ensures JoinLines([]) == ""
  {
  }

  lemma JoinOne(a: seq<string>, l: string)
    ensures JoinLines(a + [l]) == JoinLines(a) + l + "\n"
  {
    assert (a + [l])[..|a|] == a;
  }

  lemma {:induction false} JoinConcat(a: seq<string>, b: seq<string>)
    ensures JoinLines(a + b) == JoinLines(a) + JoinLines(b)
    decreases |b|
  {
    if b == [] {
      assert a + b == a;
    } else {
      var s := a + b;
      assert s[..|s| - 1] == a + b[..|b| - 1];
      JoinConcat(a, b[..|b| - 1]);
    }
  }

  lemma JoinFirst(lines: seq<string>)
    requires lines != []
    ensures JoinLines(lines) == lines[0] + "\n" + JoinLines(lines[1..])
  {
    JoinConcat([lines[0]], lines[1..]);
    JoinOne([], lines[0]);
    assert [] + [lines[0]] == [lines[0]] && lines == [lines[0]] + lines[1..];
  }

  predicate OneLine(l: string) { forall i | 0 <= i < |l| :: l[i] != '\n' }

  /** Splitting gives lines without breaks, and splitting what was joined gives back the lines, with
      an empty one after the last break. */
  lemma {:induction false} SplitOneLines(s: string)
    ensures forall i | 0 <= i < |SplitLines(s)| :: OneLine(SplitLines(s)[i])
  {
    if s == "" {
    } else {
      SplitOneLines(s[1..]);
    }
  }

  lemma {:induction false} SplitFirst(l: string, rest: string)
    requires OneLine(l)
    ensures SplitLines(l + "\n" + rest) == [l] + SplitLines(rest)
  {
    var s := l + "\n" + rest;
    if l == "" {
      assert s[1..] == rest;
    } else {
      assert s[1..] == l[1..] + "\n" + rest;
      SplitFirst(l[1..], rest);
      assert l == [l[0]] + l[1..];
    }
  }

  lemma {:induction false} SplitJoined(lines: seq<string>)
    requires forall i | 0 <= i < |lines| :: OneLine(lines[i])
    ensures SplitLines(JoinLines(lines)) == lines + [""]
  {
    if lines == [] {
    } else {
      hide SplitLines, JoinLines;
      JoinFirst(lines);
      SplitFirst(lines[0], JoinLines(lines[1..]));
      SplitJoined(lines[1..]);
      assert [lines[0]] + (lines[1..] + [""]) == lines + [""];
    }
  }

  lemma {:induction false} JoinSplit(s: string)
    ensures JoinLines(SplitLines(s)) == s + "\n"
  {
    hide JoinLines;
    var lines := SplitLines(s);
    JoinFirst(lines);
    if s == "" {
      assert lines[1..] == [];
      JoinNone();
    } else {
      var rest := SplitLines(s[1..]);
      assert lines == if s[0] == '\n' then [""] + rest else [[s[0]] + rest[0]] + rest[1..];
      hide SplitLines;
      JoinSplit(s[1..]);
      if s[0] == '\n' {
        assert lines[1..] == rest;
      } else {
        JoinFirst(rest);
        assert lines[1..] == rest[1..];
        Glue(s[0], rest[0], JoinLines(rest[1..]), s[1..]);
      }
      assert s == [s[0]] + s[1..];
    }
  }

  lemma Glue(c: char, a: string, b: string, t: string)
    requires a + "\n" + b == t + "\n"
    ensures ([c] + a) + "\n" + b == [c] + t + "\n"
  {
    assert ([c] + a) + "\n" + b == [c] + (a + "\n" + b);
  }

  // ---------------------------------------------------------------- the filter

  /** What a line does: it is dropped, it shares the fate of the line after it, or it stays. */
  datatype Role = Dropped | Held | Kept

  /** A line vanishes when a dropped line follows it with nothing but held lines up to there. */
  ghost predicate Vanishes(roles: seq<Role>, i: nat) {
    exists j :: i <= j < |roles| && roles[j] == Dropped && AllHeld(roles, i, j)
  }

  ghost predicate AllHeld(roles: seq<Role>, lo: nat, hi: nat)
    requires hi <= |roles|
  {
    forall k | lo <= k < hi :: roles[k] == Held
  }

  /** The lines that do not vanish, among the first n, each once and in order. */
  ghost function Survivors<T>(roles: seq<Role>, lines: seq<T>, n: nat): seq<T>
    requires n <= |roles| == |lines|
  {
    if n == 0 then []
    else if Vanishes(roles, n - 1) then Survivors(roles, lines, n - 1)
    else Survivors(roles, lines, n - 1) + [lines[n - 1]]
  }

  /** A run of held lines stays before a kept line, and at the end. */
  lemma {:induction false} RunSurvives<T>(roles: seq<Role>, lines: seq<T>, lo: nat, hi: nat, n: nat)
    requires lo <= n <= hi <= |roles| == |lines| && AllHeld(roles, lo, hi)
    requires hi < |roles| ==> roles[hi] == Kept
    ensures Survivors(roles, lines, n) == Survivors(roles, lines, lo) + lines[lo..n]
    decreases n
  {
    if lo >= n {
    } else {
      RunSurvives(roles, lines, lo, hi, n - 1);
      assert forall j | n - 1 <= j < |roles| && roles[j] == Dropped :: roles[hi] != Held && hi < j;
      assert !Vanishes(roles, n - 1);
      assert lines[lo..n] == lines[lo..n - 1] + [lines[n - 1]];
    }
  }

  /** A run of held lines goes with the dropped line after it. */
  lemma {:induction false} RunVanishes<T>(roles: seq<Role>, lines: seq<T>, lo: nat, hi: nat, n: nat)
    requires lo <= n <= hi + 1 && hi < |roles| == |lines| && AllHeld(roles, lo, hi)
    requires roles[hi] == Dropped
    ensures Survivors(roles, lines, n) == Survivors(roles, lines, lo)
    decreases n
  {
    if lo >= n {
    } else {
      RunVanishes(roles, lines, lo, hi, n - 1);
      assert AllHeld(roles, n - 1, hi);
      assert Vanishes(roles, n - 1);
    }
  }

  /** A one-pass filter after i lines: the lines it has written, and the held ones it keeps back. */
  ghost predicate Streaming(roles: seq<Role>, lines: seq<string>, i: nat,
                            pending: seq<string>, written: seq<string>)
    requires |roles| == |lines|
  {
    && |pending| <= i <= |lines|
    && pending == lines[i - |pending|..i]
    && AllHeld(roles, i - |pending|, i)
    && written == Survivors(roles, lines, i - |pending|)
  }

  lemma Start(roles: seq<Role>, lines: seq<string>)
    requires |roles| == |lines|
    ensures Streaming(roles, lines, 0, [], [])
  {
  }

  lemma Keep(roles: seq<Role>, lines: seq<string>, i: nat, pending: seq<string>, written: seq<string>)
    requires |roles| == |lines| && i < |lines| && Streaming(roles, lines, i, pending, written)
    requires roles[i] == Kept
    ensures Streaming(roles, lines, i + 1, [], written + pending + [lines[i]])
  {
    RunSurvives(roles, lines, i - |pending|, i, i);
    assert !Vanishes(roles, i);
  }

  lemma Drop(roles: seq<Role>, lines: seq<string>, i: nat, pending: seq<string>, written: seq<string>)
    requires |roles| == |lines| && i < |lines| && Streaming(roles, lines, i, pending, written)
    requires roles[i] == Dropped
    ensures Streaming(roles, lines, i + 1, [], written)
  {
    RunVanishes(roles, lines, i - |pending|, i, i + 1);
  }

  lemma Hold(roles: seq<Role>, lines: seq<string>, i: nat, pending: seq<string>, written: seq<string>)
    requires |roles| == |lines| && i < |lines| && Streaming(roles, lines, i, pending, written)
    requires roles[i] == Held
    ensures Streaming(roles, lines, i + 1, pending + [lines[i]], written)
  {
  }

  lemma Finish(roles: seq<Role>, lines: seq<string>, pending: seq<string>, written: seq<string>)
    requires |roles| == |lines| && Streaming(roles, lines, |lines|, pending, written)
    ensures written + pending == Survivors(roles, lines, |lines|)
  {
    hide Survivors;
    RunSurvives(roles, lines, |lines| - |pending|, |lines|, |lines|);
  }

  /** `flush`: the held lines go out, each with its line break. */
  method Flush(out: string, pending: seq<string>, ghost written: seq<string>) returns (r: string)
    requires out == JoinLines(written)
    ensures r == JoinLines(written + pending)
  {
    r := out;
    assert written + pending[..0] == written;
    for i := 0 to |pending|
      invariant r == JoinLines(written + pending[..i])
    {
      JoinOne(written + pending[..i], pending[i]);
      assert written + pending[..i + 1] == written + pending[..i] + [pending[i]];
      r := r + pending[i] + "\n";
    }
    assert pending[..|pending|] == pending;
  }

  /** A kept line: `flush`, then the line itself. */
  method Release(ghost roles: seq<Role>, ghost lines: seq<string>, ghost i: nat, line: string,
                 pending: seq<string>, out: string, ghost written: seq<string>)
    returns (r: string)
    requires |roles| == |lines| && i < |lines| && roles[i] == Kept && line == lines[i]
    requires Streaming(roles, lines, i, pending, written) && out == JoinLines(written)
    ensures Streaming(roles, lines, i + 1, [], Survivors(roles, lines, i + 1))
    ensures r == JoinLines(Survivors(roles, lines, i + 1))
  {
    Keep(roles, lines, i, pending, written);
    r := Flush(out, pending, written);
    JoinOne(written + pending, line);
    r := r + line + "\n";
  }
}
