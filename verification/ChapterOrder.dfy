/** Bringing a source's chapter list into oldest-first order (`backend/internal/sync/sync.go`). */
module ChapterOrder {
  /** Chapter numbers are reals here; a number that is not positive means "none". */
  datatype Summary = Summary(id: string, name: string, number: real, uploaded: int)

  function Reversed<T>(s: seq<T>): (r: seq<T>)
    ensures |r| == |s|
  {
    seq(|s|, k requires 0 <= k < |s| => s[|s| - 1 - k])
  }

  /** The numbers that count, in list order. */
  function Numbers(s: seq<Summary>): seq<real> {
    if s == [] then [] else (if s[0].number > 0.0 then [s[0].number] else []) + Numbers(s[1..])
  }

  /** Steps up, and steps down, between neighbours. */
  function Ups(ns: seq<real>): nat {
    if |ns| < 2 then 0 else (if ns[0] < ns[1] then 1 else 0) + Ups(ns[1..])
  }

  function Downs(ns: seq<real>): nat {
    if |ns| < 2 then 0 else (if ns[0] > ns[1] then 1 else 0) + Downs(ns[1..])
  }

  predicate TimesDiffer(s: seq<Summary>)
    requires s != []
  {
    s[0].uploaded > 0 && s[|s| - 1].uploaded > 0 && s[0].uploaded != s[|s| - 1].uploaded
  }

  predicate NewestFirst(s: seq<Summary>) {
    |s| >= 2 &&
    var ns := Numbers(s);
    if Ups(ns) != Downs(ns) then Downs(ns) > Ups(ns)
    else TimesDiffer(s) ==> s[0].uploaded > s[|s| - 1].uploaded
  }

  /** Step counts or the two end times say which way the list runs. */
  predicate Decided(s: seq<Summary>) {
    |s| >= 2 && (Ups(Numbers(s)) != Downs(Numbers(s)) || TimesDiffer(s))
  }

  function Normalised(s: seq<Summary>): seq<Summary> { if NewestFirst(s) then Reversed(s) else s }

  // ---------------------------------------------------------------- the code

  lemma CountsAppend(ns: seq<real>, x: real)
    ensures Ups(ns + [x]) == Ups(ns) + if ns != [] && ns[|ns| - 1] < x then 1 else 0
    ensures Downs(ns + [x]) == Downs(ns) + if ns != [] && ns[|ns| - 1] > x then 1 else 0
  {
    if |ns| >= 2 {
      assert (ns + [x])[1..] == ns[1..] + [x];
      CountsAppend(ns[1..], x);
    } else if |ns| == 1 {
      assert (ns + [x])[1..] == [x];
    }
  }

  lemma {:induction false} NumbersAppend(s: seq<Summary>, c: Summary)
    ensures Numbers(s + [c]) == if c.number > 0.0 then Numbers(s) + [c.number] else Numbers(s)
  {
    if s == [] {
      assert [c][1..] == [] && s + [c] == [c];
    } else {
      assert (s + [c])[1..] == s[1..] + [c];
      NumbersAppend(s[1..], c);
      if s[0].number > 0.0 && c.number > 0.0 {
        assert [s[0].number] + (Numbers(s[1..]) + [c.number]) == ([s[0].number] + Numbers(s[1..])) + [c.number];
      }
    }
  }

  lemma NothingCounted()
    ensures Numbers([]) == [] && Ups([]) == Downs([]) == 0
  {
  }

  method ChaptersAreNewestFirst(s: seq<Summary>) returns (newest: bool)
    ensures newest <==> NewestFirst(s)
  {
    hide Ups, Downs, Numbers;
    if |s| < 2 { return false; }
    NothingCounted();
    var asc, desc := 0, 0;
    var prev, havePrev := 0.0, false;
    for i := 0 to |s|
      invariant var ns := Numbers(s[..i]);
                asc == Ups(ns) && desc == Downs(ns) && havePrev == (ns != []) && (havePrev ==> prev == ns[|ns| - 1])
    {
      var c := s[i];
      assert s[..i + 1] == s[..i] + [c];
      NumbersAppend(s[..i], c);
      if c.number <= 0.0 { continue; }
      CountsAppend(Numbers(s[..i]), c.number);
      if havePrev {
        if c.number > prev {
          asc := asc + 1;
        } else if c.number < prev {
          desc := desc + 1;
        }
      }
      prev, havePrev := c.number, true;
    }
    assert s[..|s|] == s;
    if asc != desc { return desc > asc; }
    var a, b := s[0].uploaded, s[|s| - 1].uploaded;
    if a > 0 && b > 0 && a != b { return a > b; }
    return true;
  }

  lemma ReversedCons<T>(s: seq<T>)
    requires s != []
    ensures Reversed(s) == Reversed(s[1..]) + [s[0]]
  {
  }

  /** The end of `fetchChapterSummaries`: the list is turned round in place when it runs newest first. */
  method Normalise(a: array<Summary>)
    modifies a
    ensures a[..] == Normalised(old(a[..]))
  {
    var newest := ChaptersAreNewestFirst(a[..]);
    if newest {
      ghost var was := a[..];
      var i, j := 0, a.Length - 1;
      while i < j
        invariant 0 <= i && j == a.Length - 1 - i && i <= j + 1
        invariant forall k | 0 <= k < i || j < k < a.Length :: a[k] == was[|was| - 1 - k]
        invariant forall k | i <= k <= j :: a[k] == was[k]
      {
        a[i], a[j] := a[j], a[i];
        i, j := i + 1, j - 1;
      }
      assert a[..] == Reversed(was);
    }
  }

  // ---------------------------------------------------------------- reversing a list

  lemma ReversedTwice<T>(s: seq<T>)
    ensures Reversed(Reversed(s)) == s
  {
  }

  lemma NumbersReversed(s: seq<Summary>)
    ensures Numbers(Reversed(s)) == Reversed(Numbers(s))
  {
    if s == [] {
    } else {
      ReversedCons(s);
      NumbersAppend(Reversed(s[1..]), s[0]);
      NumbersReversed(s[1..]);
      if s[0].number > 0.0 {
        ReversedCons(Numbers(s));
        assert Numbers(s)[1..] == Numbers(s[1..]);
      } else {
        assert Numbers(s) == Numbers(s[1..]);
      }
    }
  }

  lemma {:induction false} CountsReversed(ns: seq<real>)
    ensures Ups(Reversed(ns)) == Downs(ns) && Downs(Reversed(ns)) == Ups(ns)
  {
    if |ns| < 2 {
    } else {
      ReversedCons(ns);
      CountsReversed(ns[1..]);
      CountsAppend(Reversed(ns[1..]), ns[0]);
    }
  }

  /** Turning a list round swaps its steps up with its steps down, and its end times. */
  lemma StepsSwap(s: seq<Summary>)
    ensures Ups(Numbers(Reversed(s))) == Downs(Numbers(s))
    ensures Downs(Numbers(Reversed(s))) == Ups(Numbers(s))
    ensures s != [] ==> Reversed(s)[0] == s[|s| - 1] && Reversed(s)[|s| - 1] == s[0]
    ensures Decided(Reversed(s)) == Decided(s)
    ensures Decided(s) ==> NewestFirst(Reversed(s)) == !NewestFirst(s)
  {
    NumbersReversed(s);
    CountsReversed(Numbers(s));
  }

  /** The normal form never steps down more often than up. */
  lemma NeverMoreDowns(s: seq<Summary>)
    ensures Downs(Numbers(Normalised(s))) <= Ups(Numbers(Normalised(s)))
  {
    StepsSwap(s);
  }

  /** When the steps tie and the end times differ, the earlier end is in front. */
  lemma EarlierFirst(s: seq<Summary>)
    requires |s| >= 2 && Ups(Numbers(s)) == Downs(Numbers(s))
    requires s[0].uploaded > 0 && s[|s| - 1].uploaded > 0 && s[0].uploaded != s[|s| - 1].uploaded
    ensures var r := Normalised(s); |r| == |s| && r[0].uploaded < r[|r| - 1].uploaded
  {
    hide Ups, Downs, Numbers;
    StepsSwap(s);
  }

  predicate StepsUp(ns: seq<real>, i: nat) { 0 < i < |ns| && ns[i - 1] < ns[i] }

  predicate StepsDown(ns: seq<real>, i: nat) { 0 < i < |ns| && ns[i - 1] > ns[i] }

  /** The places where a number is followed by a larger one, and by a smaller one. */
  ghost function UpSteps(ns: seq<real>): set<nat> { set i: nat | i < |ns| && StepsUp(ns, i) }

  ghost function DownSteps(ns: seq<real>): set<nat> { set i: nat | i < |ns| && StepsDown(ns, i) }

  lemma UpStepsMore(ns: seq<real>, x: real)
    ensures |ns| !in UpSteps(ns) && |ns| !in DownSteps(ns)
    ensures UpSteps(ns + [x]) == UpSteps(ns) + if ns != [] && ns[|ns| - 1] < x then {|ns|} else {}
  {
    var more := ns + [x];
    forall i: nat | i < |ns| ensures StepsUp(more, i) <==> StepsUp(ns, i) {}
  }

  lemma DownStepsMore(ns: seq<real>, x: real)
    ensures DownSteps(ns + [x]) == DownSteps(ns) + if ns != [] && ns[|ns| - 1] > x then {|ns|} else {}
  {
    var more := ns + [x];
    forall i: nat | i < |ns| ensures StepsDown(more, i) <==> StepsDown(ns, i) {}
  }

  /** The counts are the numbers of these places. */
  lemma {:induction false} StepsCounted(ns: seq<real>)
    ensures Ups(ns) == |UpSteps(ns)| && Downs(ns) == |DownSteps(ns)|
    decreases |ns|
  {
    if ns == [] {
    } else {
      hide Ups, Downs, UpSteps, DownSteps;
      var n := |ns| - 1;
      StepsCounted(ns[..n]);
      CountsAppend(ns[..n], ns[n]);
      UpStepsMore(ns[..n], ns[n]);
      DownStepsMore(ns[..n], ns[n]);
      assert ns[..n] + [ns[n]] == ns;
    }
  }

  lemma {:induction false} AllNumbers(s: seq<Summary>)
    requires forall i | 0 <= i < |s| :: s[i].number > 0.0
    ensures |Numbers(s)| == |s| && forall i | 0 <= i < |s| :: Numbers(s)[i] == s[i].number
  {
    if s == [] {
    } else {
      AllNumbers(s[1..]);
    }
  }

  /** A numbered list that rises stays as it is, and one that falls is turned round. */
  lemma RisingStays(s: seq<Summary>)
    requires |s| >= 2 && forall i | 0 <= i < |s| :: s[i].number > 0.0
    ensures (forall i, j | 0 <= i < j < |s| :: s[i].number < s[j].number) ==> Normalised(s) == s
    ensures (forall i, j | 0 <= i < j < |s| :: s[i].number > s[j].number) ==> Normalised(s) == Reversed(s)
  {
    hide Ups, Downs, Numbers;
    AllNumbers(s);
    var ns := Numbers(s);
    StepsCounted(ns);
    if forall i, j | 0 <= i < j < |s| :: s[i].number < s[j].number {
      Rises(ns);
    } else if forall i, j | 0 <= i < j < |s| :: s[i].number > s[j].number {
      Falls(ns);
    }
  }

  lemma Rises(ns: seq<real>)
    requires |ns| >= 2 && forall i, j | 0 <= i < j < |ns| :: ns[i] < ns[j]
    ensures |DownSteps(ns)| == 0 < |UpSteps(ns)|
  {
    assert StepsUp(ns, 1) && 1 in UpSteps(ns);
    assert DownSteps(ns) == {};
  }

  lemma Falls(ns: seq<real>)
    requires |ns| >= 2 && forall i, j | 0 <= i < j < |ns| :: ns[i] > ns[j]
    ensures |UpSteps(ns)| == 0 < |DownSteps(ns)|
  {
    assert StepsDown(ns, 1) && 1 in DownSteps(ns);
    assert UpSteps(ns) == {};
  }

  /** A list and its reverse get one normal form exactly when something decides their direction (or
      there is only one direction). */
  lemma SameEitherWay(s: seq<Summary>)
    ensures Normalised(s) == Normalised(Reversed(s)) <==> Decided(s) || s == Reversed(s)
  {
    StepsSwap(s);
    ReversedTwice(s);
    if |s| < 2 { assert s == Reversed(s); }
  }

  /** Syncing an already normal list again changes nothing, under exactly the same condition. */
  lemma NormalisedTwice(s: seq<Summary>)
    ensures Normalised(Normalised(s)) == Normalised(s) <==> Decided(s) || s == Reversed(s)
  {
    StepsSwap(s);
    ReversedTwice(s);
    if |s| < 2 { assert s == Reversed(s); }
  }

  /** Two chapters without numbers and upload times are turned round whichever way they come. */
  lemma UndecidedPair(a: Summary, b: Summary)
    requires a != b && a.number <= 0.0 && b.number <= 0.0 && a.uploaded <= 0
    ensures Normalised([a, b]) == [b, a] && Normalised([b, a]) == [a, b]
  {
    assert Numbers([a]) == [] && Numbers([b]) == [];
    assert [a, b][1..] == [b] && [b, a][1..] == [a];
    assert Numbers([a, b]) == [] && Numbers([b, a]) == [];
    assert Reversed([a, b]) == [b, a] && Reversed([b, a]) == [a, b];
  }
}
