/** The two-way progress merge of `backend/internal/tracker`: one media item, its chapters, and the
    trackers it is linked to. A chapter is an index; chapter numbers and progress are reals. */
module TrackerSync {
  import opened Text

  /** `titleNumber` is what `chapternum.FromTitle` makes of the title, 0 when it finds nothing. */
  datatype Chapter = Chapter(number: Option<real>, titleNumber: real)

  datatype Track = Track(progress: real, status: int)

  const READING := 1
  const PLAN_TO_READ := 2

  /** A link row: whether it takes part, and the record last stored for it. */
  datatype Link = Link(sync: bool, stored: Track)

  /** `done`: chapters with a completed progress row. `remote`: the record each tracker holds. */
  datatype State = State(done: seq<bool>, remote: seq<Track>, links: seq<Link>)

  /** Which steps fail for one link, during one pass. */
  datatype Faults = Faults(load: bool, refresh: bool, mark: bool, push: bool, persist: bool)

  const NONE := Faults(false, false, false, false, false)

  type Chapters = seq<Chapter>

  ghost predicate Valid(c: Chapters, st: State) {
    && |st.done| == |c| && |st.remote| == |st.links|
    && (forall i | 0 <= i < |c| :: c[i].titleNumber >= 0.0)
    && (forall i | 0 <= i < |st.remote| :: st.remote[i].progress >= 0.0)
  }

  // ---------------------------------------------------------------- the local maximum

  function Max(a: real, b: real): real { if a >= b then a else b }

  /** MAX(c.number) over the completed chapters among the first n. */
  function MaxNumber(c: Chapters, done: seq<bool>, n: nat): Option<real>
    requires n <= |c| == |done|
  {
    if n == 0 then None
    else
      var m := MaxNumber(c, done, n - 1);
      if !done[n - 1] || c[n - 1].number.None? then m
      else if m.None? then c[n - 1].number
      else Some(Max(m.value, c[n - 1].number.value))
  }

  function Positive(x: Option<real>): bool { x.Some? && x.value > 0.0 }

  /** What one completed row counts for in the fallback. */
  function RowNumber(ch: Chapter): real {
    if Positive(ch.number) then ch.number.value else ch.titleNumber
  }

  function Fallback(c: Chapters, done: seq<bool>, n: nat): real
    requires n <= |c| == |done|
  {
    if n == 0 then 0.0
    else
      var best := Fallback(c, done, n - 1);
      if done[n - 1] && RowNumber(c[n - 1]) > best then RowNumber(c[n - 1]) else best
  }

  function LocalMax(c: Chapters, done: seq<bool>): real
    requires |c| == |done|
  {
    var m := MaxNumber(c, done, |c|);
    if Positive(m) then m.value else Fallback(c, done, |c|)
  }

  lemma {:induction false} FallbackIsMax(c: Chapters, done: seq<bool>, n: nat)
    requires n <= |c| == |done|
    ensures var b := Fallback(c, done, n);
            && b >= 0.0 && (forall i | 0 <= i < n && done[i] :: RowNumber(c[i]) <= b)
            && (b == 0.0 || exists i :: 0 <= i < n && done[i] && RowNumber(c[i]) == b)
  {
    if n == 0 {
    } else {
      FallbackIsMax(c, done, n - 1);
      if done[n - 1] { assert RowNumber(c[n - 1]) == RowNumber(c[n - 1]); }
    }
  }

  lemma {:induction false} MaxNumberIsMax(c: Chapters, done: seq<bool>, n: nat)
    requires n <= |c| == |done|
    ensures var m := MaxNumber(c, done, n);
            && (forall i | 0 <= i < n && done[i] && c[i].number.Some? ::
                  m.Some? && c[i].number.value <= m.value)
            && (m.Some? ==> exists i :: 0 <= i < n && done[i] && c[i].number == m)
  {
    if n == 0 {
    } else {
      MaxNumberIsMax(c, done, n - 1);
      if done[n - 1] && c[n - 1].number.Some? { assert c[n - 1].number == c[n - 1].number; }
    }
  }

  /** The local maximum: the largest number above 0 of a completed chapter; without one, the largest
      number a completed chapter's title gives; 0 without that. */
  lemma LocalMaxIs(c: Chapters, done: seq<bool>)
    requires |c| == |done|
    ensures var m := LocalMax(c, done);
            if exists i :: 0 <= i < |c| && done[i] && Positive(c[i].number) then
              && (forall i | 0 <= i < |c| && done[i] && c[i].number.Some? :: c[i].number.value <= m)
              && exists i :: 0 <= i < |c| && done[i] && c[i].number == Some(m)
            else
              && m >= 0.0 && (forall i | 0 <= i < |c| && done[i] :: c[i].titleNumber <= m)
              && (m == 0.0 || exists i :: 0 <= i < |c| && done[i] && c[i].titleNumber == m)
  {
    hide MaxNumber, Fallback;
    MaxNumberIsMax(c, done, |c|);
    FallbackIsMax(c, done, |c|);
  }

  /** `maxRead`. */
  method MaxRead(c: Chapters, done: seq<bool>) returns (r: real)
    requires |c| == |done|
    ensures r == LocalMax(c, done)
  {
    var n := MaxNumber(c, done, |c|);
    if Positive(n) { return n.value; }
    r := 0.0;
    for i := 0 to |c|
      invariant r == Fallback(c, done, i)
    {
      if done[i] {
        var v := if Positive(c[i].number) then c[i].number.value else c[i].titleNumber;
        if v > r { r := v; }
      }
    }
  }

  // ---------------------------------------------------------------- one pass

  /** `MarkChaptersReadUpToNumber`. */
  function Mark(c: Chapters, done: seq<bool>, upTo: real): (r: seq<bool>)
    requires |c| == |done|
    ensures |r| == |done|
  {
    seq(|c|, i requires 0 <= i < |c| =>
      done[i] || (Positive(c[i].number) && c[i].number.value <= upTo))
  }

  /** The record pushed for progress m. */
  function Pushed(t: Track, m: real): Track {
    Track(m, if t.status == PLAN_TO_READ || t.status == 0 then READING else t.status)
  }

  predicate TakesPart(st: State, i: nat, f: Faults)
    requires i < |st.links|
  {
    st.links[i].sync && !f.load && !f.refresh
  }

  /** The maximum carried on after link i. */
  function Carried(st: State, i: nat, f: Faults, m: real): real
    requires i < |st.links| == |st.remote|
  {
    if TakesPart(st, i, f) then Max(m, st.remote[i].progress) else m
  }

  function AfterLink(c: Chapters, st: State, i: nat, f: Faults, m: real): State
    requires |st.done| == |c| && i < |st.links| == |st.remote|
  {
    var t := st.remote[i];
    if !TakesPart(st, i, f) then st
    else
      var done := if t.progress > m && !f.mark then Mark(c, st.done, t.progress) else st.done;
      if m > t.progress && f.push then st
      else
        var t' := if m > t.progress then Pushed(t, m) else t;
        State(done, st.remote[i := t'],
              if f.persist then st.links else st.links[i := st.links[i].(stored := t')])
  }

  /** One link's turn, by what it may change. It touches its own tracker and row and the chapters only. The
      chapters change when the tracker is ahead and marking works; the tracker when it is behind and the
      push works; and the row becomes the tracker's record, unless a push or the row's write failed. */
  lemma TurnIs(c: Chapters, st: State, i: nat, f: Faults, m: real)
    requires |st.done| == |c| && i < |st.links| == |st.remote|
    ensures var r, t := AfterLink(c, st, i, f, m), st.remote[i];
            && |r.done| == |c| && |r.remote| == |r.links| == |st.links|
            && (forall j | 0 <= j < |st.links| && j != i :: r.remote[j] == st.remote[j] && r.links[j] == st.links[j])
            && r.links[i].sync == st.links[i].sync
            && (forall k | 0 <= k < |c| ::
                  r.done[k] <==> st.done[k]
                                 || (TakesPart(st, i, f) && t.progress > m && !f.mark
                                     && c[k].number.Some? && 0.0 < c[k].number.value <= t.progress))
            && r.remote[i].progress == (if TakesPart(st, i, f) && m > t.progress && !f.push then m else t.progress)
            && (r.remote[i].progress == t.progress ==> r.remote[i] == t)
            && (r.remote[i].progress != t.progress ==>
                  r.remote[i].status == if t.status == 0 || t.status == PLAN_TO_READ then READING else t.status)
            && Carried(st, i, f, m) == (if TakesPart(st, i, f) && t.progress > m then t.progress else m)
            && r.links[i].stored == (if !TakesPart(st, i, f) || f.persist || (m > t.progress && f.push)
                                     then st.links[i].stored else r.remote[i])
  {
  }

  function CarriedAfter(st: State, fs: seq<Faults>, m: real, n: nat): real
    requires n <= |st.links| == |st.remote| == |fs|
  {
    if n == 0 then m else Carried(st, n - 1, fs[n - 1], CarriedAfter(st, fs, m, n - 1))
  }

  /** The maximum carried on is that of the start and of the trackers that answered, whatever else fails. */
  lemma {:induction false} CarriedIsMax(st: State, fs: seq<Faults>, m: real, n: nat)
    requires n <= |st.links| == |st.remote| == |fs|
    ensures var x := CarriedAfter(st, fs, m, n);
            && x >= m && (forall i | 0 <= i < n && TakesPart(st, i, fs[i]) :: st.remote[i].progress <= x)
            && (x == m || exists i :: 0 <= i < n && TakesPart(st, i, fs[i]) && st.remote[i].progress == x)
  {
    if n == 0 {
    } else {
      CarriedIsMax(st, fs, m, n - 1);
      if TakesPart(st, n - 1, fs[n - 1]) { assert st.remote[n - 1].progress == st.remote[n - 1].progress; }
    }
  }

  /** The state after the first n links of a pass that starts with local maximum m. A link's tracker
      and row are only touched by its own turn, so later turns read them as they were. */
  function AfterLinks(c: Chapters, st: State, fs: seq<Faults>, m: real, n: nat): (r: State)
    requires Valid(c, st) && n <= |st.links| == |fs| && m >= 0.0
    ensures Valid(c, r) && |r.links| == |st.links|
    ensures forall i | n <= i < |st.links| :: r.links[i] == st.links[i] && r.remote[i] == st.remote[i]
    ensures forall i | 0 <= i < |st.links| :: r.links[i].sync == st.links[i].sync
    ensures CarriedAfter(st, fs, m, n) >= 0.0
  {
    if n == 0 then st
    else
      AfterLink(c, AfterLinks(c, st, fs, m, n - 1), n - 1, fs[n - 1], CarriedAfter(st, fs, m, n - 1))
  }

  /** A link's turn finds its tracker and its row as they were at the start of the pass. */
  lemma TurnComes(c: Chapters, st: State, fs: seq<Faults>, m: real, i: nat)
    requires Valid(c, st) && i < |st.links| == |fs| && m >= 0.0
    ensures var r, x := AfterLinks(c, st, fs, m, i), CarriedAfter(st, fs, m, i);
            && AfterLinks(c, st, fs, m, i + 1) == AfterLink(c, r, i, fs[i], x)
            && CarriedAfter(st, fs, m, i + 1) == Carried(r, i, fs[i], x)
  {
    hide AfterLink;
  }

  /** The start of a pass: a failed query counts as nothing read. */
  function StartMax(c: Chapters, st: State, maxFails: bool): real
    requires |st.done| == |c|
  {
    if maxFails then 0.0 else LocalMax(c, st.done)
  }

  lemma {:induction false} FallbackNonNegative(c: Chapters, done: seq<bool>, n: nat)
    requires n <= |c| == |done|
    ensures Fallback(c, done, n) >= 0.0
  {
    if n == 0 {
    } else {
      FallbackNonNegative(c, done, n - 1);
    }
  }

  function Pass(c: Chapters, st: State, fs: seq<Faults>, maxFails: bool): (r: State)
    requires Valid(c, st) && |fs| == |st.links|
    ensures Valid(c, r) && |r.links| == |st.links|
  {
    FallbackNonNegative(c, st.done, |c|);
    AfterLinks(c, st, fs, StartMax(c, st, maxFails), |st.links|)
  }

  /** The media item of one user: its rows, and the trackers' records. */
  class Media {
    const c: Chapters
    var done: seq<bool>
    var remote: seq<Track>
    var links: seq<Link>

    constructor (c: Chapters, st: State)
      ensures this.c == c && View() == st
    {
      this.c, done, remote, links := c, st.done, st.remote, st.links;
    }

    ghost function View(): State
      reads this
    {
      State(done, remote, links)
    }

    /** `SyncMediaProgress`. `fs` and `maxFails` say which outside steps fail. */
    method SyncProgress(fs: seq<Faults>, maxFails: bool)
      requires Valid(c, View()) && |fs| == |links|
      modifies this
      ensures View() == Pass(c, old(View()), fs, maxFails)
    {
      hide AfterLink, Carried;
      ghost var st := View();
      if |links| == 0 { return; }
      var maxRead := 0.0;
      if !maxFails { maxRead := MaxRead(c, done); }
      FallbackNonNegative(c, done, |c|);
      ghost var m := maxRead;
      for i := 0 to |links|
        invariant Valid(c, View()) && |links| == |fs|
        invariant maxRead == CarriedAfter(st, fs, m, i) && maxRead >= 0.0
        invariant View() == AfterLinks(c, st, fs, m, i)
      {
        TurnComes(c, st, fs, m, i);
        maxRead := SyncLink(i, fs[i], maxRead);
      }
    }

    /** One turn of the loop. */
    method SyncLink(i: nat, f: Faults, m: real) returns (maxRead: real)
      requires Valid(c, View()) && i < |links| && m >= 0.0
      modifies this
      ensures View() == AfterLink(c, old(View()), i, f, m)
      ensures maxRead == Carried(old(View()), i, f, m)
    {
      maxRead := m;
      if !links[i].sync || f.load || f.refresh { return; }
      var t := remote[i];
      if t.progress > maxRead {
        if !f.mark { done := Mark(c, done, t.progress); }
        maxRead := t.progress;
      }
      if maxRead > t.progress {
        t := t.(progress := maxRead);
        if t.status == PLAN_TO_READ || t.status == 0 { t := t.(status := READING); }
        if f.push { return; }
        remote := remote[i := t];
      }
      if !f.persist { links := links[i := links[i].(stored := t)]; }
    }
  }
}
