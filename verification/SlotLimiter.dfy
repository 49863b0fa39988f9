/** Spacing out requests to AniList (`backend/internal/anilistrl/anilistrl.go`). Times are nanoseconds. */
module SlotLimiter {
  import opened Text

  const SECOND: int := 1_000_000_000
  const MIN_GAP: int := 3 * SECOND

  /** The longest wait, in seconds, that a `time.Duration` can hold. */
  const MAX_SECONDS: int := 9_223_372_036

  function Effective(seconds: int): int { if seconds <= 0 then 60 else seconds }

  function Max(a: int, b: int): int { if a < b then b else a }

  /** A call, with the clock reading it sees; readings are arbitrary. */
  datatype Call = Wait(now: int) | Backoff(now: int, seconds: int)

  /** The next free slot after a call. */
  function NextSlot(next: int, c: Call): int {
    match c
    case Wait(now) => Max(next, now) + MIN_GAP
    case Backoff(now, seconds) => Max(next, now + Wrap64(Effective(seconds) * SECOND))
  }

  /** The slots a run of calls reserves. */
  function Slots(next: int, calls: seq<Call>): seq<int>
    decreases |calls|
  {
    if calls == [] then []
    else (if calls[0].Wait? then [Max(next, calls[0].now)] else []) + Slots(NextSlot(next, calls[0]), calls[1..])
  }

  function After(next: int, calls: seq<Call>): int
    decreases |calls|
  {
    if calls == [] then next else After(NextSlot(next, calls[0]), calls[1..])
  }

  class Limiter {
    var nextSlot: int

    constructor (zero: int)
      ensures nextSlot == zero
    {
      nextSlot := zero;
    }

    /** `wait` is how long the caller sleeps; the slot is used up even if the caller gives up. */
    method Wait(now: int) returns (ghost slot: int, wait: int)
      modifies this
      ensures [slot] == Slots(old(nextSlot), [Call.Wait(now)])
      ensures nextSlot == NextSlot(old(nextSlot), Call.Wait(now))
      ensures wait >= 0 && now + wait == slot
    {
      if nextSlot < now { nextSlot := now; }
      wait := nextSlot - now;
      slot := nextSlot;
      nextSlot := nextSlot + MIN_GAP;
    }

    method Backoff(now: int, retryAfterSeconds: int)
      modifies this
      ensures nextSlot == NextSlot(old(nextSlot), Call.Backoff(now, retryAfterSeconds))
    {
      var seconds := retryAfterSeconds;
      if seconds <= 0 { seconds := 60; }
      var extend := now + Wrap64(seconds * SECOND);
      if extend > nextSlot { nextSlot := extend; }
    }
  }

  // ---------------------------------------------------------------- whole runs

  ghost predicate Spaced(slots: seq<int>) {
    forall i, j | 0 <= i < j < |slots| :: slots[j] >= slots[i] + MIN_GAP
  }

  /** Reserved slots are at least three seconds apart, and none is before the state's next slot. */
  lemma {:induction false} SlotsSpaced(next: int, calls: seq<Call>)
    ensures Spaced(Slots(next, calls))
    ensures forall i | 0 <= i < |Slots(next, calls)| :: Slots(next, calls)[i] >= next
    decreases |calls|
  {
    if calls == [] {
    } else {
      SlotsSpaced(NextSlot(next, calls[0]), calls[1..]);
    }
  }

  /** What can put the next slot off to t: the limiter's start, a back-off, a minute if it names no
      positive time, or a reserved slot. */
  ghost predicate Reason(next: int, calls: seq<Call>, t: int) {
    || t == next
    || (exists i :: 0 <= i < |calls| && PutOff(calls[i], t))
    || (exists j :: 0 <= j < |Slots(next, calls)| && t == Slots(next, calls)[j] + 3_000_000_000)
  }

  predicate PutOff(c: Call, t: int) {
    c.Backoff? && t == c.now + Wrap64((if c.seconds <= 0 then 60 else c.seconds) * 1_000_000_000)
  }

  lemma ReasonBefore(next: int, calls: seq<Call>, t: int)
    requires calls != [] && t != NextSlot(next, calls[0]) && Reason(NextSlot(next, calls[0]), calls[1..], t)
    ensures Reason(next, calls, t)
  {
    var rest, n := calls[1..], NextSlot(next, calls[0]);
    var slots := Slots(n, rest);
    assert Slots(next, calls) == (if calls[0].Wait? then [n - MIN_GAP] else []) + slots;
    hide Slots, NextSlot;
    if i :| 0 <= i < |rest| && PutOff(rest[i], t) {
      assert PutOff(calls[i + 1], t);
    } else {
      var j :| 0 <= j < |slots| && t == slots[j] + MIN_GAP;
      assert Slots(next, calls)[if calls[0].Wait? then j + 1 else j] == slots[j];
    }
  }

  lemma ReasonLater(next: int, calls: seq<Call>, t: int)
    requires calls != [] && Reason(next, calls, t)
    ensures var n := NextSlot(next, calls[0]);
            t == next || PutOff(calls[0], t) || (calls[0].Wait? && t == n) || Reason(n, calls[1..], t)
  {
    var rest, n := calls[1..], NextSlot(next, calls[0]);
    var slots := Slots(n, rest);
    assert Slots(next, calls) == (if calls[0].Wait? then [n - MIN_GAP] else []) + slots;
    hide Slots, NextSlot;
    if i :| 0 <= i < |calls| && PutOff(calls[i], t) {
      if i > 0 { assert PutOff(rest[i - 1], t); }
    } else if j :| 0 <= j < |Slots(next, calls)| && t == Slots(next, calls)[j] + MIN_GAP {
      if calls[0].Wait? {
        if j > 0 { assert slots[j - 1] == Slots(next, calls)[j]; }
      } else {
        assert slots[j] == Slots(next, calls)[j];
      }
    }
  }

  /** Nobody waits longer than needed: the next slot is the latest time that something put it off to. */
  lemma {:induction false} NoNeedlessWait(next: int, calls: seq<Call>)
    ensures Reason(next, calls, After(next, calls))
    ensures forall t | Reason(next, calls, t) :: t <= After(next, calls)
    decreases |calls|
  {
    hide Reason, Slots, Wrap64;
    if calls == [] {
      NothingYet(next);
    } else {
      var n := NextSlot(next, calls[0]);
      NoNeedlessWait(n, calls[1..]);
      StartReason(next, calls);
      StartReason(n, calls[1..]);
      FirstReason(next, calls);
      if After(next, calls) != n { ReasonBefore(next, calls, After(next, calls)); }
      forall t | Reason(next, calls, t) ensures t <= After(next, calls) { ReasonLater(next, calls, t); }
    }
  }

  lemma NothingYet(next: int)
    ensures forall t :: Reason(next, [], t) <==> t == next
  {
  }

  lemma StartReason(next: int, calls: seq<Call>)
    ensures Reason(next, calls, next)
  {
  }

  lemma FirstReason(next: int, calls: seq<Call>)
    requires calls != []
    ensures Reason(next, calls, NextSlot(next, calls[0]))
  {
    if calls[0].Wait? {
      assert Slots(next, calls)[0] + MIN_GAP == NextSlot(next, calls[0]);
    } else {
      assert PutOff(calls[0], calls[0].now + Wrap64(Effective(calls[0].seconds) * SECOND));
    }
  }

  function CountIn(slots: seq<int>, lo: int, hi: int): nat {
    if slots == [] then 0 else (if lo <= slots[0] <= hi then 1 else 0) + CountIn(slots[1..], lo, hi)
  }

  lemma CountNone(slots: seq<int>, lo: int, hi: int)
    requires forall i | 0 <= i < |slots| :: slots[i] > hi
    ensures CountIn(slots, lo, hi) == 0
  {
  }

  lemma CountFrom(slots: seq<int>, lo: int, from: int, hi: int)
    requires lo <= from && forall i | 0 <= i < |slots| :: slots[i] >= from
    ensures CountIn(slots, lo, hi) == CountIn(slots, from, hi)
  {
  }

  lemma {:induction false} WindowBound(slots: seq<int>, lo: int, length: nat)
    requires Spaced(slots)
    ensures CountIn(slots, lo, lo + length) <= length / MIN_GAP + 1
    decreases |slots|
  {
    if slots == [] {
    } else {
      var rest, hi := slots[1..], lo + length;
      assert forall i | 0 <= i < |rest| :: rest[i] == slots[i + 1] && rest[i] >= slots[0] + MIN_GAP;
      if lo <= slots[0] <= hi {
        var from := slots[0] + MIN_GAP;
        if from > hi {
          CountNone(rest, lo, hi);
        } else {
          CountFrom(rest, lo, from, hi);
          WindowBound(rest, from, hi - from);
          assert (hi - from) / MIN_GAP + 1 <= length / MIN_GAP;
        }
      } else {
        WindowBound(rest, lo, length);
      }
    }
  }

  /** However the calls come and whatever the clock says, a stretch of time holds one slot more than
      the three-second gaps in it, at most. */
  lemma RunWindow(next: int, calls: seq<Call>, lo: int, length: nat)
    ensures CountIn(Slots(next, calls), lo, lo + length) <= length / MIN_GAP + 1
  {
    SlotsSpaced(next, calls);
    WindowBound(Slots(next, calls), lo, length);
  }

  /** No slot reserved after a back-off comes before the time it was put off to. */
  lemma AfterBackoff(next: int, before: seq<Call>, now: int, seconds: int, later: seq<Call>)
    requires Effective(seconds) <= MAX_SECONDS
    ensures var n := After(next, before + [Backoff(now, seconds)]);
            forall i | 0 <= i < |Slots(n, later)| :: Slots(n, later)[i] >= now + Effective(seconds) * SECOND
  {
    AfterAppend(next, before, Backoff(now, seconds));
    SlotsSpaced(After(next, before + [Backoff(now, seconds)]), later);
  }

  lemma {:induction false} AfterAppend(next: int, calls: seq<Call>, c: Call)
    ensures After(next, calls + [c]) == NextSlot(After(next, calls), c)
    decreases |calls|
  {
    if calls == [] {
      assert calls + [c] == [c];
    } else {
      assert (calls + [c])[1..] == calls[1..] + [c];
      AfterAppend(NextSlot(next, calls[0]), calls[1..], c);
    }
  }

  /** ... and that is promised for exactly the delays that fit a `time.Duration`: a longer one wraps,
      and the next slot can come too early. */
  lemma BackoffExactly(seconds: int)
    requires seconds < 0x8000_0000_0000_0000
    ensures (forall next, now :: NextSlot(next, Backoff(now, seconds)) >= now + Effective(seconds) * SECOND)
            <==> seconds <= MAX_SECONDS
  {
    var e := Effective(seconds);
    if seconds > MAX_SECONDS {
      assert Wrap64(e * SECOND) < e * SECOND;
      assert NextSlot(Wrap64(e * SECOND), Backoff(0, seconds)) < e * SECOND;
    }
  }
}
