/** What reconciliation passes do to progress: exactly when nothing fails, and at least when things do. */
module TrackerProgress {
  import opened Text
  import opened TrackerSync

  function Clean(n: nat): seq<Faults> { seq(n, i => NONE) }

  /** The greatest progress among the local maximum and the linked trackers up to and including n - 1. */
  function PrefixMax(st: State, l: real, n: nat): real
    requires n <= |st.links| == |st.remote|
  {
    if n == 0 then l
    else if st.links[n - 1].sync then Max(PrefixMax(st, l, n - 1), st.remote[n - 1].progress)
    else PrefixMax(st, l, n - 1)
  }

  // ---------------------------------------------------------------- marking chapters

  lemma MarkTwice(c: Chapters, done: seq<bool>, a: real, b: real)
    requires |c| == |done| && a <= b
    ensures Mark(c, Mark(c, done, a), b) == Mark(c, done, b)
  {
  }

  lemma LocalMaxNonNegative(c: Chapters, done: seq<bool>)
    requires |c| == |done|
    ensures LocalMax(c, done) >= 0.0
  {
    FallbackNonNegative(c, done, |c|);
  }

  /** Marking up to u raises the local maximum to at most u ... */
  lemma MarkBound(c: Chapters, done: seq<bool>, u: real)
    requires |c| == |done|
    ensures LocalMax(c, Mark(c, done, u)) <= Max(LocalMax(c, done), u)
  {
    var done' := Mark(c, done, u);
    MaxNumberIsMax(c, done, |c|);
    MaxNumberIsMax(c, done', |c|);
    if Positive(MaxNumber(c, done', |c|)) {
      var i :| 0 <= i < |c| && done'[i] && c[i].number == MaxNumber(c, done', |c|);
    } else {
      NothingMarked(c, done, u);
    }
  }

  lemma NewlyMarked(c: Chapters, done: seq<bool>, u: real, i: nat)
    requires |c| == |done| && i < |c| && !done[i] && Mark(c, done, u)[i]
    ensures Positive(MaxNumber(c, Mark(c, done, u), |c|))
  {
    MaxNumberIsMax(c, Mark(c, done, u), |c|);
    assert Positive(c[i].number);
  }

  lemma NothingMarked(c: Chapters, done: seq<bool>, u: real)
    requires |c| == |done| && !Positive(MaxNumber(c, Mark(c, done, u), |c|))
    ensures Mark(c, done, u) == done
  {
    hide MaxNumber;
    var done' := Mark(c, done, u);
    forall i | 0 <= i < |c| && !done[i] ensures !done'[i] {
      if done'[i] { NewlyMarked(c, done, u, i); }
    }
  }

  predicate HasNumber(c: Chapters, x: real) {
    exists i :: 0 <= i < |c| && c[i].number == Some(x)
  }

  /** ... and, from below u, to u exactly when some chapter is numbered u. */
  lemma MarkReaches(c: Chapters, done: seq<bool>, u: real)
    requires |c| == |done| && u > LocalMax(c, done)
    ensures LocalMax(c, Mark(c, done, u)) == u <==> HasNumber(c, u)
  {
    var done' := Mark(c, done, u);
    LocalMaxNonNegative(c, done);
    MarkBound(c, done, u);
    MaxNumberIsMax(c, done', |c|);
    if HasNumber(c, u) {
      var i :| 0 <= i < |c| && c[i].number == Some(u);
      assert done'[i];
    } else if Positive(MaxNumber(c, done', |c|)) {
      var i :| 0 <= i < |c| && done'[i] && c[i].number == MaxNumber(c, done', |c|);
    } else {
      NothingMarked(c, done, u);
    }
  }

  // ---------------------------------------------------------------- a pass without errors

  lemma {:induction false} CarriedIsPrefixMax(st: State, l: real, n: nat)
    requires n <= |st.links| == |st.remote|
    ensures CarriedAfter(st, Clean(|st.links|), l, n) == PrefixMax(st, l, n)
    ensures PrefixMax(st, l, n) >= l
  {
    if n == 0 {
    } else {
      CarriedIsPrefixMax(st, l, n - 1);
    }
  }

  /** What the first n links hold after their turns. */
  ghost predicate Merged(c: Chapters, st: State, l: real, n: nat, r: State)
    requires n <= |st.links| == |st.remote| && |c| == |st.done|
    requires |r.links| == |st.links| && |r.remote| == |st.remote|
  {
    && (forall i | 0 <= i < n && st.links[i].sync ::
          r.remote[i].progress == PrefixMax(st, l, i + 1) && r.links[i].stored == r.remote[i])
    && (forall i | 0 <= i < n && !st.links[i].sync ::
          r.remote[i] == st.remote[i] && r.links[i] == st.links[i])
    && r.done == if PrefixMax(st, l, n) > l then Mark(c, st.done, PrefixMax(st, l, n)) else st.done
  }

  /** The state after the first n links of a pass without errors. */
  function CleanAfter(c: Chapters, st: State, l: real, n: nat): (r: State)
    requires Valid(c, st) && n <= |st.links| && l >= 0.0
    ensures Valid(c, r) && |r.links| == |st.links|
    ensures forall i | n <= i < |st.links| :: r.links[i] == st.links[i] && r.remote[i] == st.remote[i]
  {
    AfterLinks(c, st, Clean(|st.links|), l, n)
  }

  lemma CleanStart(c: Chapters, st: State, l: real)
    requires Valid(c, st) && l >= 0.0
    ensures CleanAfter(c, st, l, 0) == st
  {
  }

  lemma CleanAfterStep(c: Chapters, st: State, l: real, i: nat)
    requires Valid(c, st) && i < |st.links| && l >= 0.0
    ensures CleanAfter(c, st, l, i + 1)
            == AfterLink(c, CleanAfter(c, st, l, i), i, NONE, PrefixMax(st, l, i))
  {
    CarriedIsPrefixMax(st, l, i);
  }

  lemma {:induction false} CleanLinks(c: Chapters, st: State, l: real, n: nat)
    requires Valid(c, st) && n <= |st.links| && l >= 0.0
    ensures Merged(c, st, l, n, CleanAfter(c, st, l, n))
  {
    hide Merged, AfterLink, Mark, CleanAfter, PrefixMax;
    if n == 0 {
      MergedStart(c, st, l);
      CleanStart(c, st, l);
    } else {
      CleanLinks(c, st, l, n - 1);
      CarriedIsPrefixMax(st, l, n - 1);
      CleanAfterStep(c, st, l, n - 1);
      MergedStep(c, st, l, n - 1, CleanAfter(c, st, l, n - 1), CleanAfter(c, st, l, n));
    }
  }

  lemma MergedStart(c: Chapters, st: State, l: real)
    requires Valid(c, st)
    ensures Merged(c, st, l, 0, st)
  {
  }

  lemma MergedStep(c: Chapters, st: State, l: real, i: nat, r: State, r': State)
    requires Valid(c, st) && Valid(c, r) && i < |st.links| == |r.links| && PrefixMax(st, l, i) >= l
    requires Merged(c, st, l, i, r) && r.links[i] == st.links[i] && r.remote[i] == st.remote[i]
    requires r' == AfterLink(c, r, i, NONE, PrefixMax(st, l, i))
    ensures Merged(c, st, l, i + 1, r')
  {
    var m, t := PrefixMax(st, l, i), st.remote[i].progress;
    assert forall j | 0 <= j < i :: r'.links[j] == r.links[j] && r'.remote[j] == r.remote[j];
    if st.links[i].sync && t > m && m > l { MarkTwice(c, st.done, m, t); }
  }

  /** A pass without errors leaves link i at the greatest of the local maximum and the trackers up to
      i, stored as the tracker has it, and completes exactly the old chapters and those numbered
      above 0 up to the overall maximum, when that exceeds the local one. */
  lemma CleanPass(c: Chapters, st: State)
    requires Valid(c, st)
    ensures Merged(c, st, LocalMax(c, st.done), |st.links|, Pass(c, st, Clean(|st.links|), false))
    ensures forall k | 0 <= k < |c| ::
              Pass(c, st, Clean(|st.links|), false).done[k] <==>
              st.done[k] || (TopOf(c, st) > LocalMax(c, st.done)
                             && c[k].number.Some? && 0.0 < c[k].number.value <= TopOf(c, st))
  {
    LocalMaxNonNegative(c, st.done);
    CleanLinks(c, st, LocalMax(c, st.done), |st.links|);
  }

  // ---------------------------------------------------------------- two passes

  function TopOf(c: Chapters, st: State): real
    requires |c| == |st.done| && |st.links| == |st.remote|
  {
    PrefixMax(st, LocalMax(c, st.done), |st.links|)
  }

  /** Every linked tracker, its row, and the local chapters say the same progress. */
  ghost predicate Agree(c: Chapters, st: State)
    requires |c| == |st.done| && |st.links| == |st.remote|
  {
    forall i | 0 <= i < |st.links| && st.links[i].sync ::
      st.remote[i].progress == LocalMax(c, st.done) && st.links[i].stored == st.remote[i]
  }

  lemma {:induction false} PrefixMaxBound(st: State, l: real, n: nat)
    requires n <= |st.links| == |st.remote|
    ensures forall i | 0 <= i < n && st.links[i].sync :: st.remote[i].progress <= PrefixMax(st, l, n)
    ensures forall i | 0 <= i <= n :: PrefixMax(st, l, i) <= PrefixMax(st, l, n)
  {
    if n == 0 {
    } else {
      PrefixMaxBound(st, l, n - 1);
    }
  }

  lemma {:induction false} PrefixMaxLeast(st: State, l: real, n: nat, b: real)
    requires n <= |st.links| == |st.remote| && l <= b
    requires forall i | 0 <= i < n && st.links[i].sync :: st.remote[i].progress <= b
    ensures PrefixMax(st, l, n) <= b
  {
    if n == 0 {
    } else {
      PrefixMaxLeast(st, l, n - 1, b);
    }
  }

  /** The overall maximum is the last linked tracker's after a pass, and passes never raise it. */
  lemma {:induction false} LastHoldsTop(st: State, l: real, n: nat) returns (i: nat)
    requires n <= |st.links| == |st.remote|
    requires exists j :: 0 <= j < n && st.links[j].sync
    ensures i < n && st.links[i].sync && PrefixMax(st, l, i + 1) == PrefixMax(st, l, n)
  {
    if st.links[n - 1].sync {
      i := n - 1;
    } else {
      i := LastHoldsTop(st, l, n - 1);
    }
  }

  lemma TopAfterPass(c: Chapters, st: State)
    requires Valid(c, st) && exists j :: 0 <= j < |st.links| && st.links[j].sync
    ensures var st' := Pass(c, st, Clean(|st.links|), false);
            && TopOf(c, st') == TopOf(c, st)
            && (LocalMax(c, st'.done) == TopOf(c, st) <==>
                  TopOf(c, st) == LocalMax(c, st.done) || HasNumber(c, TopOf(c, st)))
  {
    var l, n := LocalMax(c, st.done), |st.links|;
    var st' := Pass(c, st, Clean(n), false);
    var l' := LocalMax(c, st'.done);
    var top := TopOf(c, st);
    CleanPass(c, st);
    CarriedIsPrefixMax(st, l, n);
    if top > l {
      MarkBound(c, st.done, top);
      MarkReaches(c, st.done, top);
    }
    PrefixMaxBound(st, l, n);
    PrefixMaxLeast(st', l', n, top);
    PrefixMaxBound(st', l', n);
    var i := LastHoldsTop(st, l, n);
    assert st'.remote[i].progress == top;
  }

  /** Two passes without errors bring every tracker, row and the local maximum together exactly when
      the overall maximum was already read locally or is the number of a local chapter. */
  lemma TwoPassesAgree(c: Chapters, st: State)
    requires Valid(c, st) && exists j :: 0 <= j < |st.links| && st.links[j].sync
    ensures var n := |st.links|;
            var st2 := Pass(c, Pass(c, st, Clean(n), false), Clean(n), false);
            Agree(c, st2) <==>
            TopOf(c, st) == LocalMax(c, st.done) || HasNumber(c, TopOf(c, st))
  {
    var n := |st.links|;
    var st1 := Pass(c, st, Clean(n), false);
    var st2 := Pass(c, st1, Clean(n), false);
    var j :| 0 <= j < n && st.links[j].sync;
    assert st1.links[j].sync;
    TopAfterPass(c, st);
    TopAfterPass(c, st1);
    CleanPass(c, st1);
    var l1, top := LocalMax(c, st1.done), TopOf(c, st);
    CarriedIsPrefixMax(st1, l1, n);
    if l1 == top {
      forall i | 0 <= i < n && st1.links[i].sync ensures PrefixMax(st1, l1, i + 1) == top {
        PrefixMaxBound(st1, l1, n);
        CarriedIsPrefixMax(st1, l1, i + 1);
      }
    } else {
      var i := LastHoldsTop(st1, l1, n);
      assert st2.remote[i].progress == top;
    }
  }

  /** And once they agree, a pass changes nothing at all. */
  lemma AgreedIsFixed(c: Chapters, st: State)
    requires Valid(c, st) && Agree(c, st)
    ensures Pass(c, st, Clean(|st.links|), false) == st
  {
    LocalMaxNonNegative(c, st.done);
    AgreedLinks(c, st, |st.links|);
  }

  lemma {:induction false} AgreedLinks(c: Chapters, st: State, n: nat)
    requires Valid(c, st) && Agree(c, st) && n <= |st.links| && LocalMax(c, st.done) >= 0.0
    ensures AfterLinks(c, st, Clean(|st.links|), LocalMax(c, st.done), n) == st
    ensures CarriedAfter(st, Clean(|st.links|), LocalMax(c, st.done), n) == LocalMax(c, st.done)
  {
    if n == 0 {
    } else {
      AgreedLinks(c, st, n - 1);
    }
  }

  // ---------------------------------------------------------------- passes with any failures

  /** No tracker lost progress, none changed its status without need, no chapter was un-read, and
      nothing exceeds the bound b. */
  ghost predicate Grew(c: Chapters, st: State, r: State, b: real) {
    && |st.done| == |r.done| == |c| && |st.remote| == |r.remote| == |st.links| == |r.links|
    && (forall i | 0 <= i < |c| && st.done[i] :: r.done[i])
    && (forall i | 0 <= i < |st.remote| :: st.remote[i].progress <= r.remote[i].progress <= b)
    && (forall i | 0 <= i < |st.remote| :: StatusKept(st.remote[i], r.remote[i]))
    && LocalMax(c, r.done) <= b
  }

  /** With progress a status that is planned or none becomes reading; no other changes, and none without. */
  ghost predicate StatusKept(t: Track, t': Track) {
    t'.status == if t'.progress > t.progress && (t.status == 0 || t.status == PLAN_TO_READ) then READING else t.status
  }

  lemma LinkGrows(c: Chapters, st: State, i: nat, f: Faults, m: real, b: real)
    requires Valid(c, st) && i < |st.links| && 0.0 <= m <= b && Grew(c, st, st, b)
    ensures Grew(c, st, AfterLink(c, st, i, f, m), b)
    ensures 0.0 <= Carried(st, i, f, m) <= b
  {
    MarkBound(c, st.done, st.remote[i].progress);
  }

  lemma {:induction false} LinksGrow(c: Chapters, st: State, fs: seq<Faults>, m: real, n: nat, b: real)
    requires Valid(c, st) && n <= |st.links| == |fs| && 0.0 <= m <= b && Grew(c, st, st, b)
    ensures Grew(c, st, AfterLinks(c, st, fs, m, n), b)
    ensures 0.0 <= CarriedAfter(st, fs, m, n) <= b
  {
    hide AfterLink, Carried, Grew;
    if n == 0 {
    } else {
      LinksGrow(c, st, fs, m, n - 1, b);
      TurnComes(c, st, fs, m, n - 1);
      var r := AfterLinks(c, st, fs, m, n - 1);
      GrewStays(c, st, r, b);
      LinkGrows(c, r, n - 1, fs[n - 1], CarriedAfter(st, fs, m, n - 1), b);
      GrewTwice(c, st, r, AfterLinks(c, st, fs, m, n), b);
    }
  }

  /** One pass of a run: which of its outside steps fail. */
  datatype PassFaults = PassFaults(links: seq<Faults>, max: bool)

  ghost predicate Fits(ps: seq<PassFaults>, n: nat) {
    forall i | 0 <= i < |ps| :: |ps[i].links| == n
  }

  function Passes(c: Chapters, st: State, ps: seq<PassFaults>): (r: State)
    requires Valid(c, st) && Fits(ps, |st.links|)
    ensures Valid(c, r) && |r.links| == |st.links|
  {
    if ps == [] then st
    else
      var last := ps[|ps| - 1];
      Pass(c, Passes(c, st, ps[..|ps| - 1]), last.links, last.max)
  }

  lemma GrewStays(c: Chapters, st: State, r: State, b: real)
    requires Grew(c, st, r, b)
    ensures Grew(c, r, r, b)
  {
  }

  lemma GrewTwice(c: Chapters, st: State, r: State, r': State, b: real)
    requires Grew(c, st, r, b) && Grew(c, r, r', b)
    ensures Grew(c, st, r', b)
  {
    forall i | 0 <= i < |st.remote| ensures StatusKept(st.remote[i], r'.remote[i]) {
      assert StatusKept(st.remote[i], r.remote[i]) && StatusKept(r.remote[i], r'.remote[i]);
    }
  }

  /** Over any run of passes, whatever fails and whenever, no tracker's progress decreases, no chapter
      is un-read, and no progress appears that neither a tracker nor the local chapters had. */
  lemma {:induction false} PassesGrow(c: Chapters, st: State, ps: seq<PassFaults>, b: real)
    requires Valid(c, st) && Fits(ps, |st.links|)
    requires LocalMax(c, st.done) <= b && forall i | 0 <= i < |st.remote| :: st.remote[i].progress <= b
    ensures Grew(c, st, Passes(c, st, ps), b)
    decreases |ps|
  {
    if ps == [] {
    } else {
      PassesGrow(c, st, ps[..|ps| - 1], b);
      var r := Passes(c, st, ps[..|ps| - 1]);
      var last := ps[|ps| - 1];
      LocalMaxNonNegative(c, r.done);
      GrewStays(c, st, r, b);
      LinksGrow(c, r, last.links, StartMax(c, r, last.max), |r.links|, b);
      hide AfterLinks, LocalMax;
      GrewTwice(c, st, r, Passes(c, st, ps), b);
    }
  }

  // ---------------------------------------------------------------- binding a tracker

  /** `pushLocalProgress` for link i, and the `persist` after it. */
  function Bind(c: Chapters, st: State, i: nat, maxFails: bool, f: Faults): State
    requires |st.done| == |c| && i < |st.links| == |st.remote|
  {
    var t, m := st.remote[i], StartMax(c, st, maxFails);
    var t' := if m <= 0.0 || m <= t.progress then t else Pushed(t, m);
    st.(remote := if f.push then st.remote else st.remote[i := t'],
        links := if f.persist then st.links else st.links[i := st.links[i].(stored := t')])
  }

  /** Binding keeps progress, too. A failed push still stores the progress that was not pushed, so the
      stored row is ahead of its tracker exactly then; the next pass without errors settles it. */
  lemma BindRow(c: Chapters, st: State, i: nat, maxFails: bool, f: Faults)
    requires Valid(c, st) && i < |st.links|
    ensures var r := Bind(c, st, i, maxFails, f);
            && Valid(c, r) && r.done == st.done
            && r.remote[i].progress >= st.remote[i].progress && StatusKept(st.remote[i], r.remote[i])
            && (!f.push && !maxFails ==>
                  r.remote[i].progress == Max(st.remote[i].progress, LocalMax(c, st.done)))
            && (forall j | 0 <= j < |st.links| && j != i ::
                  r.remote[j] == st.remote[j] && r.links[j] == st.links[j])
            && (f.persist ==> r.links == st.links)
            && (!f.persist ==>
                  (r.links[i].stored != r.remote[i] <==>
                     f.push && !maxFails && LocalMax(c, st.done) > st.remote[i].progress))
            && (st.links[i].sync ==>
                  var r' := Pass(c, r, Clean(|r.links|), false); r'.links[i].stored == r'.remote[i])
  {
    LocalMaxNonNegative(c, st.done);
    CleanPass(c, Bind(c, st, i, maxFails, f));
  }

  // ---------------------------------------------------------------- the local maximum itself

  /** Marking up to u keeps the local maximum exactly when a completed chapter has a number already,
      nothing is newly marked, or a chapter numbered at least the maximum is among those up to u.
      Otherwise the maximum came from titles, and numbers now take over. */
  lemma MarkKeeps(c: Chapters, done: seq<bool>, u: real)
    requires |c| == |done|
    ensures LocalMax(c, Mark(c, done, u)) >= LocalMax(c, done) <==> KeepsMax(c, done, u)
  {
    var done' := Mark(c, done, u);
    MaxNumberIsMax(c, done, |c|);
    MaxNumberIsMax(c, done', |c|);
    if Positive(MaxNumber(c, done, |c|)) {
      MarkedMax(c, done, done');
    } else if done' != done {
      var j :| 0 <= j < |c| && done'[j] != done[j];
      assert done'[j] && Positive(c[j].number);
      var k :| 0 <= k < |c| && done'[k] && c[k].number == MaxNumber(c, done', |c|);
      assert c[k].number.value <= u;
    }
  }

  ghost predicate KeepsMax(c: Chapters, done: seq<bool>, u: real)
    requires |c| == |done|
  {
    || Positive(MaxNumber(c, done, |c|))
    || Mark(c, done, u) == done
    || exists i :: 0 <= i < |c| && Positive(c[i].number) && LocalMax(c, done) <= c[i].number.value <= u
  }

  /** While some completed chapter has a number, more completed chapters mean no smaller maximum. */
  lemma MarkedMax(c: Chapters, done: seq<bool>, done': seq<bool>)
    requires |c| == |done| == |done'| && (forall i | 0 <= i < |c| && done[i] :: done'[i])
    requires Positive(MaxNumber(c, done, |c|))
    ensures Positive(MaxNumber(c, done', |c|)) && LocalMax(c, done') >= LocalMax(c, done)
  {
    MaxNumberIsMax(c, done, |c|);
    MaxNumberIsMax(c, done', |c|);
    var i :| 0 <= i < |c| && done[i] && c[i].number == MaxNumber(c, done, |c|);
    assert done'[i];
  }

  /** A pass without errors keeps the local maximum exactly when its marking does. */
  lemma PassKeepsMax(c: Chapters, st: State)
    requires Valid(c, st)
    ensures LocalMax(c, Pass(c, st, Clean(|st.links|), false).done) >= LocalMax(c, st.done)
            <==> TopOf(c, st) == LocalMax(c, st.done) || KeepsMax(c, st.done, TopOf(c, st))
  {
    hide Pass, LocalMax, KeepsMax, Mark;
    CleanPass(c, st);
    CarriedIsPrefixMax(st, LocalMax(c, st.done), |st.links|);
    if TopOf(c, st) > LocalMax(c, st.done) { MarkKeeps(c, st.done, TopOf(c, st)); }
  }

  /** And whatever fails, a run never lowers it once some completed chapter has a number. */
  lemma RunKeepsMax(c: Chapters, st: State, ps: seq<PassFaults>)
    requires Valid(c, st) && Fits(ps, |st.links|) && Positive(MaxNumber(c, st.done, |c|))
    ensures LocalMax(c, Passes(c, st, ps).done) >= LocalMax(c, st.done)
  {
    var b := AtMost(st.remote, LocalMax(c, st.done));
    PassesGrow(c, st, ps, b);
    MarkedMax(c, st.done, Passes(c, st, ps).done);
  }

  lemma AtMost(remote: seq<Track>, l: real) returns (b: real)
    ensures l <= b && forall i | 0 <= i < |remote| :: remote[i].progress <= b
  {
    if remote == [] {
      b := l;
    } else {
      b := AtMost(remote[1..], Max(l, remote[0].progress));
    }
  }

  /** A maximum read out of a title can fall: here from 50 to 10. */
  lemma TitleMaxFalls()
    ensures var c := [Chapter(None, 50.0), Chapter(Some(10.0), 0.0)];
            var st := State([true, false], [Track(60.0, READING)], [Link(true, Track(60.0, READING))]);
            && Valid(c, st) && LocalMax(c, st.done) == 50.0
            && LocalMax(c, Pass(c, st, Clean(1), false).done) == 10.0
  {
    var c := [Chapter(None, 50.0), Chapter(Some(10.0), 0.0)];
    var st := State([true, false], [Track(60.0, READING)], [Link(true, Track(60.0, READING))]);
    MaxNumberIsMax(c, st.done, 2);
    assert Fallback(c, st.done, 1) == 50.0 && Fallback(c, st.done, 2) == 50.0;
    CleanPass(c, st);
    assert PrefixMax(st, 50.0, 1) == 60.0;
    var done := Mark(c, st.done, 60.0);
    assert done == [true, true] && c[1].number == Some(10.0) && c[0].number == None;
    MaxNumberIsMax(c, done, 2);
  }

  // ---------------------------------------------------------------- what does not hold

  /** A tracker between chapters: with one chapter, 12, and a tracker at 12.5, two passes do not bring
      the two together. */
  lemma BetweenChapters(status: int)
    ensures var c := [Chapter(Some(12.0), 0.0)];
            var st := State([false], [Track(12.5, status)], [Link(true, Track(12.5, status))]);
            Valid(c, st) && !Agree(c, Pass(c, Pass(c, st, Clean(1), false), Clean(1), false))
  {
    var c := [Chapter(Some(12.0), 0.0)];
    var st := State([false], [Track(12.5, status)], [Link(true, Track(12.5, status))]);
    assert st.links[0].sync;
    MaxNumberIsMax(c, st.done, 1);
    assert Fallback(c, st.done, 1) == 0.0 && LocalMax(c, st.done) == 0.0;
    assert PrefixMax(st, 0.0, 1) == 12.5;
    TwoPassesAgree(c, st);
  }

  /** A bind whose push fails: the row says 3, the tracker still 1. */
  lemma FailedPushAhead()
    ensures var c := [Chapter(Some(3.0), 0.0)];
            var st := State([true], [Track(1.0, READING)], [Link(true, Track(1.0, READING))]);
            var r := Bind(c, st, 0, false, NONE.(push := true));
            Valid(c, st) && r.links[0].stored.progress == 3.0 && r.remote[0].progress == 1.0
  {
    var c, done := [Chapter(Some(3.0), 0.0)], [true];
    MaxNumberIsMax(c, done, 1);
    assert c[0].number == Some(3.0) && done[0];
    assert LocalMax(c, done) == 3.0;
  }
}
