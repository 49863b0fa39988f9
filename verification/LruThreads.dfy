/** Threads sharing one `LruCache`: every interleaving of the synchronized sections, the calls of
    `create` between them, and the unguarded reads of `maxSize`. */
module LruThreads {
  import opened Text
  import opened LruCache

  /** Where a thread is: outside, after a missed `get`, before reading `maxSize` for
      `trimToSize(maxSize)`, or in the trim loop. */
  datatype Pc = Idle | Creating(key: string) | Reading | Trimming(bound: int)

  datatype State = State(core: Core, pcs: seq<Pc>, threw: bool)

  datatype Op =
    | Get(key: string)
    | Create(made: Option<Value>)
    | ReadMax
    | Trim
    | Put(key: string, value: Value)
    | Remove(key: string)
    | Resize(n: int)
    | EvictAll
    | TrimTo(n: int)

  datatype Act = Act(t: nat, op: Op)

  predicate Enabled(s: State, a: Act) {
    && a.t < |s.pcs|
    && match a.op
       case Create(_) => s.pcs[a.t].Creating?
       case ReadMax => s.pcs[a.t] == Reading
       case Trim => s.pcs[a.t].Trimming?
       case Resize(n) => s.pcs[a.t] == Idle && 0 < n <= MAX_INT32
       case _ => s.pcs[a.t] == Idle
  }

  /** The core after the section a thread runs. */
  function CoreAfter(s: State, a: Act): Core
    requires Enabled(s, a)
  {
    match a.op
    case Get(k) => s.core.Touched(k)
    case Create(Some(v)) => s.core.Created(s.pcs[a.t].key, v)
    case Put(k, v) => s.core.Stored(k, v)
    case Remove(k) => s.core.Removed(k)
    case Resize(n) => s.core.(maxSize := n)
    case Trim => if Evicts(s, a) then s.core.Evicted() else s.core
    case _ => s.core
  }

  predicate Evicts(s: State, a: Act)
    requires Enabled(s, a) && a.op == Trim
  {
    !s.core.Inconsistent() && s.core.size > s.pcs[a.t].bound && s.core.entries != []
  }

  /** ... and where the thread goes. */
  function PcAfter(s: State, a: Act): Pc
    requires Enabled(s, a)
  {
    match a.op
    case Get(k) => if Lookup(s.core.entries, k).Some? then Idle else Creating(k)
    case Create(Some(_)) => if Lookup(s.core.entries, s.pcs[a.t].key).Some? then Idle else Reading
    case Put(_, _) => Reading
    case ReadMax => Trimming(s.core.maxSize)
    case Resize(n) => Trimming(n)
    case EvictAll => Trimming(-1)
    case TrimTo(n) => Trimming(n)
    case Trim => if Evicts(s, a) then s.pcs[a.t] else Idle
    case _ => Idle
  }

  function Next(s: State, a: Act): State
    requires Enabled(s, a)
  {
    State(CoreAfter(s, a), s.pcs[a.t := PcAfter(s, a)], s.threw || (a.op == Trim && s.core.Inconsistent()))
  }

  /** A run: each step is taken where it is enabled. */
  ghost predicate Runs(s: State, run: seq<Act>)
    decreases |run|
  {
    run == [] || (Enabled(s, run[0]) && Runs(Next(s, run[0]), run[1..]))
  }

  function End(s: State, run: seq<Act>): State
    requires Runs(s, run)
    decreases |run|
  {
    if run == [] then s else End(Next(s, run[0]), run[1..])
  }

  /** No call has begun. */
  ghost predicate Initial(s: State) {
    s.core.entries == [] && s.core.size == 0 && 0 < s.core.maxSize <= MAX_INT32 && Quiet(s) && !s.threw
  }

  ghost predicate Quiet(s: State) { forall t | 0 <= t < |s.pcs| :: s.pcs[t] == Idle }

  // ---------------------------------------------------------------- with no assumption at all

  lemma StepConsistent(s: State, a: Act)
    requires s.core.Consistent() && Enabled(s, a)
    ensures Next(s, a).core.Consistent()
    ensures Next(s, a).threw <==> s.threw || (a.op == Trim && Wrap32(Weight(s.core.entries)) < 0)
  {
    s.core.InconsistentExactly();
    match a.op
    case Get(k) => s.core.ConsistentSections(k, Value("", 0));
    case Create(Some(v)) => s.core.ConsistentSections(s.pcs[a.t].key, v);
    case Put(k, v) => s.core.ConsistentSections(k, v);
    case Remove(k) => s.core.ConsistentSections(k, Value("", 0));
    case Trim => if s.core.entries != [] { s.core.ConsistentEvicted(); }
    case _ =>
  }

  /** Whatever the threads do, the recorded size is the sum of the entry sizes, as a Java int. */
  lemma {:induction false} RunConsistent(s: State, run: seq<Act>)
    requires s.core.Consistent() && Runs(s, run)
    ensures End(s, run).core.Consistent()
    decreases |run|
  {
    if run == [] {
    } else {
      StepConsistent(s, run[0]);
      RunConsistent(Next(s, run[0]), run[1..]);
    }
  }

  /** What a section says about a key: it found, created or stored it, or removed it. */
  function Mentions(s: State, a: Act): seq<Mention>
    requires Enabled(s, a)
  {
    match a.op
    case Get(k) => if Lookup(s.core.entries, k).Some? then [Used(k)] else []
    case Create(Some(_)) => [Used(s.pcs[a.t].key)]
    case Put(k, _) => [Used(k)]
    case Remove(k) => [Forgotten(k)]
    case _ => []
  }

  function History(s: State, run: seq<Act>): seq<Mention>
    requires Runs(s, run)
    decreases |run|
  {
    if run == [] then [] else Mentions(s, run[0]) + History(Next(s, run[0]), run[1..])
  }

  lemma StepRanked(s: State, a: Act, h: seq<Mention>)
    requires Enabled(s, a) && Ranked(s.core.entries, h)
    ensures Ranked(Next(s, a).core.entries, h + Mentions(s, a))
  {
    hide Ranked, Lookup, Core.Touched, Core.Created, Core.Stored, Core.Removed, Core.Evicted;
    assert h + [] == h;
    match a.op
    case Get(k) => s.core.SectionsRanked(h, k, Value("", 0));
    case Create(Some(v)) => s.core.SectionsRanked(h, s.pcs[a.t].key, v);
    case Put(k, v) => s.core.SectionsRanked(h, k, v);
    case Remove(k) => s.core.SectionsRanked(h, k, Value("", 0));
    case Trim => s.core.SectionsRanked(h, "", Value("", 0));
    case _ =>
  }

  /** A key is lost by its own removal, or as the least recently used one while the size exceeds what
      the trimming thread was told. */
  lemma StepLoses(s: State, a: Act, j: string)
    requires s.core.Consistent() && Enabled(s, a)
    requires Lookup(s.core.entries, j).Some? && Lookup(Next(s, a).core.entries, j).None?
    ensures a.op == Remove(j)
            || (a.op == Trim && s.core.size > s.pcs[a.t].bound && s.core.entries != [] && j == s.core.entries[0].key)
  {
    hide Core.Touched, Core.Created, Core.Stored, Core.Removed;
    match a.op
    case Get(k) => s.core.SectionAnswers(k, Value("", 0), j);
    case Create(Some(v)) => s.core.SectionAnswers(s.pcs[a.t].key, v, j);
    case Put(k, v) => s.core.SectionAnswers(k, v, j);
    case Remove(k) => s.core.SectionAnswers(k, Value("", 0), j);
    case _ =>
  }

  /** Whatever the threads do, the entries are a tail of all living keys in the order of their last use:
      no entry stays while one used more recently is gone. */
  lemma {:induction false} RunRanked(s: State, run: seq<Act>, h: seq<Mention>)
    requires Ranked(s.core.entries, h) && Runs(s, run)
    ensures Ranked(End(s, run).core.entries, h + History(s, run))
    decreases |run|
  {
    hide Ranked, Mentions;
    if run == [] {
      assert h + [] == h;
    } else {
      StepRanked(s, run[0], h);
      RunRanked(Next(s, run[0]), run[1..], h + Mentions(s, run[0]));
      assert h + (Mentions(s, run[0]) + History(Next(s, run[0]), run[1..]))
          == h + Mentions(s, run[0]) + History(Next(s, run[0]), run[1..]);
    }
  }

  // ---------------------------------------------------------------- while the sum is a Java int

  /** Some thread is bound to bring the size down to `maxSize`. */
  ghost predicate Responsible(s: State) {
    s.core.size > s.core.maxSize ==> exists t :: Answers(s, t)
  }

  ghost predicate Answers(s: State, t: int) {
    0 <= t < |s.pcs| && (s.pcs[t] == Reading || (s.pcs[t].Trimming? && s.pcs[t].bound <= s.core.maxSize))
  }

  ghost predicate Safe(s: State) { s.core.Consistent() && Responsible(s) && !s.threw }

  lemma InRange(x: int)
    requires 0 <= x <= MAX_INT32
    ensures Wrap32(x) == x
  {
  }

  lemma StepSafe(s: State, a: Act)
    requires Safe(s) && Enabled(s, a) && Weight(s.core.entries) <= MAX_INT32
    requires Weight(Next(s, a).core.entries) <= MAX_INT32
    ensures Safe(Next(s, a))
  {
    StepConsistent(s, a);
    InRange(Weight(s.core.entries));
    InRange(Weight(Next(s, a).core.entries));
    StepResponsible(s, a);
  }

  lemma StepWeight(s: State, a: Act)
    requires s.core.Consistent() && Enabled(s, a)
    ensures Weight(Next(s, a).core.entries) <= Weight(s.core.entries) + Adds(a.op)
    ensures Weight(Next(s, a).core.entries) > Weight(s.core.entries) ==> PcAfter(s, a) == Reading
  {
    match a.op
    case Get(k) => s.core.SectionWeights(k, Value("", 0));
    case Create(Some(v)) => s.core.SectionWeights(s.pcs[a.t].key, v);
    case Put(k, v) => s.core.SectionWeights(k, v);
    case Remove(k) => s.core.SectionWeights(k, Value("", 0));
    case Trim => if s.core.entries != [] { s.core.ConsistentEvicted(); }
    case _ =>
  }

  /** The most an operation can add to the weight. */
  function Adds(op: Op): nat {
    match op
    case Create(Some(v)) => v.weight
    case Put(_, v) => v.weight
    case _ => 0
  }

  lemma StepResponsible(s: State, a: Act)
    requires Safe(s) && Enabled(s, a)
    requires s.core.size == Weight(s.core.entries)
    requires Next(s, a).core.size == Weight(Next(s, a).core.entries)
    ensures Responsible(Next(s, a))
  {
    hide Weight, CoreAfter;
    var n := Next(s, a);
    StepWeight(s, a);
    StepMax(s, a);
    if n.core.size > n.core.maxSize {
      if PcAfter(s, a) == Reading || a.op.Resize? {
        assert Answers(n, a.t);
      } else {
        assert s.core.size > s.core.maxSize;
        var t :| Answers(s, t);
        assert Answers(n, if t == a.t then a.t else t) by { AnswersStill(s, a, t); }
      }
    }
  }

  lemma StepMax(s: State, a: Act)
    requires Enabled(s, a)
    ensures Next(s, a).core.maxSize == if a.op.Resize? then a.op.n else s.core.maxSize
  {
  }

  lemma AnswersStill(s: State, a: Act, t: int)
    requires Enabled(s, a) && Answers(s, t) && !a.op.Resize? && PcAfter(s, a) != Reading
    requires Next(s, a).core.size > Next(s, a).core.maxSize
    requires s.core.size == Weight(s.core.entries) && s.core.size > s.core.maxSize > 0
    ensures Answers(Next(s, a), t)
  {
    StepMax(s, a);
  }

  /** The sum of entry sizes is a Java int in every state of the run. */
  ghost predicate NoOverflow(s: State, run: seq<Act>)
    requires Runs(s, run)
    decreases |run|
  {
    && Weight(s.core.entries) <= MAX_INT32
    && (run != [] ==> NoOverflow(Next(s, run[0]), run[1..]))
  }

  /** Then the exception cannot happen, the size is the exact sum, and whenever no call is in flight
      the cache is within its limit. */
  lemma {:induction false} RunSafe(s: State, run: seq<Act>)
    requires Safe(s) && Runs(s, run) && NoOverflow(s, run)
    ensures Safe(End(s, run)) && !End(s, run).threw
    ensures End(s, run).core.size == Weight(End(s, run).core.entries)
    ensures Quiet(End(s, run)) ==> End(s, run).core.size <= End(s, run).core.maxSize
    decreases |run|
  {
    InRange(Weight(s.core.entries));
    if run == [] {
    } else {
      StepSafe(s, run[0]);
      RunSafe(Next(s, run[0]), run[1..]);
    }
  }

  // ---------------------------------------------------------------- what keeps the sum in range

  /** Threads that still have to trim to some limit within m. */
  ghost function Pending(pcs: seq<Pc>, m: int): nat {
    if pcs == [] then 0 else Owes(pcs[0], m) + Pending(pcs[1..], m)
  }

  ghost function Owes(p: Pc, m: int): nat {
    if p == Reading || (p.Trimming? && p.bound <= m) then 1 else 0
  }

  lemma PendingUpdate(pcs: seq<Pc>, m: int, t: nat, p: Pc)
    requires t < |pcs|
    ensures Pending(pcs[t := p], m) == Pending(pcs, m) - Owes(pcs[t], m) + Owes(p, m)
  {
    if t == 0 {
      assert pcs[t := p][1..] == pcs[1..];
    } else {
      assert pcs[t := p][1..] == pcs[1..][t - 1 := p];
      PendingUpdate(pcs[1..], m, t - 1, p);
    }
  }

  lemma PendingMost(pcs: seq<Pc>, m: int)
    ensures Pending(pcs, m) <= |pcs|
  {
    if pcs == [] {
    } else {
      PendingMost(pcs[1..], m);
    }
  }

  /** No entry is heavier than w, and no limit is above m. */
  ghost predicate Within(op: Op, w: nat, m: int) {
    Adds(op) <= w && (op.Resize? ==> op.n <= m)
  }

  ghost predicate AllWithin(run: seq<Act>, w: nat, m: int) {
    forall i | 0 <= i < |run| :: Within(run[i].op, w, m)
  }

  /** Each unfinished addition overshoots by one entry at most. */
  ghost predicate Bounded(s: State, w: nat, m: nat) {
    s.core.maxSize <= m && Weight(s.core.entries) <= m + w * Pending(s.pcs, m)
  }

  lemma StepBounded(s: State, a: Act, w: nat, m: nat)
    requires s.core.Consistent() && Enabled(s, a) && Bounded(s, w, m) && Within(a.op, w, m)
    requires s.core.size == Weight(s.core.entries)
    ensures Bounded(Next(s, a), w, m)
  {
    hide Weight, CoreAfter;
    var n := Next(s, a);
    StepMax(s, a);
    StepWeight(s, a);
    PendingUpdate(s.pcs, m, a.t, PcAfter(s, a));
    var p, q := Pending(s.pcs, m), Pending(n.pcs, m);
    if q < p {
      LeavesTrimmed(s, a, m);
      assert w * q >= 0;
    } else {
      Scaled(w, p, q);
    }
  }

  lemma {:induction false} Scaled(w: nat, p: nat, q: nat)
    requires q >= p
    ensures w * q >= w * p && (q > p ==> w * q >= w * p + w)
    decreases q
  {
    if q <= p {
    } else {
      assert w * q == w * (q - 1) + w;
      Scaled(w, p, q - 1);
    }
  }

  /** A thread only stops owing when the size is within the limit it had. */
  lemma LeavesTrimmed(s: State, a: Act, m: nat)
    requires s.core.Consistent() && Enabled(s, a) && s.core.maxSize <= m
    requires s.core.size == Weight(s.core.entries)
    requires Owes(PcAfter(s, a), m) < Owes(s.pcs[a.t], m)
    ensures a.op == Trim && Weight(Next(s, a).core.entries) <= m
  {
  }

  /** With t threads, entries of at most w and limits of at most m, m + t * w fits a Java int: then
      nothing overflows. */
  lemma {:induction false} BoundedRun(s: State, run: seq<Act>, w: nat, m: nat)
    requires Safe(s) && Bounded(s, w, m) && Runs(s, run) && AllWithin(run, w, m)
    requires m + w * |s.pcs| <= MAX_INT32
    ensures NoOverflow(s, run) && Bounded(End(s, run), w, m)
    decreases |run|
  {
    InSum(s, w, m);
    InRange(Weight(s.core.entries));
    if run == [] {
    } else {
      StepBounded(s, run[0], w, m);
      InSum(Next(s, run[0]), w, m);
      StepSafe(s, run[0]);
      assert forall i | 0 <= i < |run[1..]| :: run[1..][i] == run[i + 1];
      BoundedRun(Next(s, run[0]), run[1..], w, m);
    }
  }

  lemma InSum(s: State, w: nat, m: nat)
    requires Bounded(s, w, m)
    ensures Weight(s.core.entries) <= m + w * |s.pcs|
  {
    PendingMost(s.pcs, m);
    Scaled(w, Pending(s.pcs, m), |s.pcs|);
  }

  /** The whole-run theorem for a new cache. */
  lemma FromNew(s: State, run: seq<Act>, w: nat, m: nat)
    requires Initial(s) && s.core.maxSize <= m && Runs(s, run) && AllWithin(run, w, m)
    requires m + w * |s.pcs| <= MAX_INT32
    ensures var e := End(s, run);
            && !e.threw && e.core.size == Weight(e.core.entries) && Unique(e.core.entries)
            && e.core.size <= m + w * Pending(e.pcs, m)
            && (Quiet(e) ==> e.core.size <= e.core.maxSize)
            && Ranked(e.core.entries, History(s, run))
  {
    assert [] + History(s, run) == History(s, run);
    RunRanked(s, run, []);
    hide Ranked, History, Mentions;
    InRange(0);
    assert w * Pending(s.pcs, m) >= 0;
    BoundedRun(s, run, w, m);
    RunSafe(s, run);
  }

  // ---------------------------------------------------------------- and past it, the exception

  /** A key longer than every key in es. */
  function FreshKey(es: seq<Entry>): string { seq(Longer(es), _ => 'k') }

  function Longer(es: seq<Entry>): nat {
    if es == [] then 0
    else if |es[0].key| >= Longer(es[1..]) then |es[0].key| + 1
    else Longer(es[1..])
  }

  lemma FreshLookup(es: seq<Entry>, k: string)
    requires |k| >= Longer(es)
    ensures Lookup(es, k) == None
  {
  }

  ghost predicate Throws(s: State, run: seq<Act>, w: nat, m: nat) {
    Runs(s, run) && AllWithin(run, w, m) && End(s, run).threw
  }

  lemma Prepend(s: State, a: Act, run: seq<Act>, w: nat, m: nat)
    requires Enabled(s, a) && Within(a.op, w, m) && Throws(Next(s, a), run, w, m)
    ensures Throws(s, [a] + run, w, m)
  {
    assert ([a] + run)[1..] == run;
  }

  /** Threads t and later each put an entry of weight w and none trims, until the sum wraps; then the
      last one trims and throws. */
  lemma {:induction false} Burst(s: State, t: nat, w: nat, m: nat) returns (run: seq<Act>)
    requires s.core.Consistent() && t <= |s.pcs| && w <= MAX_INT32
    requires forall u | t <= u < |s.pcs| :: s.pcs[u] == Idle
    requires Weight(s.core.entries) <= MAX_INT32 < Weight(s.core.entries) + w * (|s.pcs| - t)
    ensures Throws(s, run, w, m)
    decreases |s.pcs| - t
  {
    var put := Act(t, Put(FreshKey(s.core.entries), Value("", w)));
    var n := Next(s, put);
    FreshLookup(s.core.entries, FreshKey(s.core.entries));
    s.core.SectionWeights(put.op.key, put.op.value);
    StepConsistent(s, put);
    var rest;
    if Weight(n.core.entries) <= MAX_INT32 {
      assert w * (|s.pcs| - t) == w + w * (|s.pcs| - t - 1);
      rest := Burst(n, t + 1, w, m);
    } else {
      rest := ThrowNow(n, t, w, m);
    }
    Prepend(s, put, rest, w, m);
    run := [put] + rest;
  }

  lemma ThrowNow(s: State, t: nat, w: nat, m: nat) returns (run: seq<Act>)
    requires s.core.Consistent() && t < |s.pcs| && s.pcs[t] == Reading
    requires MAX_INT32 < Weight(s.core.entries) <= 2 * MAX_INT32
    ensures Throws(s, run, w, m)
  {
    var read, trim := Act(t, ReadMax), Act(t, Trim);
    var n := Next(s, read);
    assert Wrap32(Weight(s.core.entries)) < 0;
    assert Next(n, trim).threw;
    assert Throws(Next(n, trim), [], w, m);
    Prepend(n, trim, [], w, m);
    Prepend(s, read, [trim], w, m);
    run := [read] + [trim];
  }

  /** One thread alone puts entries of weight 1 until the cache is full; then all threads burst. */
  lemma {:induction false} FillAndBurst(s: State, k: nat, w: nat) returns (run: seq<Act>)
    requires s.core.Consistent() && Quiet(s) && 0 < w <= MAX_INT32 && s.core.maxSize <= MAX_INT32
    requires Weight(s.core.entries) + k == s.core.maxSize && s.core.maxSize + w * |s.pcs| > MAX_INT32
    ensures Throws(s, run, w, s.core.maxSize)
    decreases k
  {
    if k == 0 {
      run := Burst(s, 0, w, s.core.maxSize);
    } else {
      var n, put := AddOne(s);
      var rest := FillAndBurst(n, k - 1, w);
      var m := s.core.maxSize;
      var s1 := Next(s, put);
      var s2 := Next(s1, Act(0, ReadMax));
      Prepend(s2, Act(0, Trim), rest, w, m);
      Prepend(s1, Act(0, ReadMax), [Act(0, Trim)] + rest, w, m);
      Prepend(s, put, [Act(0, ReadMax)] + ([Act(0, Trim)] + rest), w, m);
      run := [put] + ([Act(0, ReadMax)] + ([Act(0, Trim)] + rest));
    }
  }

  /** A put of weight 1 that leaves the cache within its limit, and its trimming. */
  lemma AddOne(s: State) returns (n: State, put: Act)
    requires s.core.Consistent() && Quiet(s) && s.pcs != []
    requires Weight(s.core.entries) < s.core.maxSize <= MAX_INT32
    ensures put.t == 0 && put.op.Put? && put.op.value.weight == 1 && Enabled(s, put)
    ensures var s1 := Next(s, put);
            && Enabled(s1, Act(0, ReadMax))
            && var s2 := Next(s1, Act(0, ReadMax)); Enabled(s2, Act(0, Trim)) && n == Next(s2, Act(0, Trim))
    ensures n.core.Consistent() && Quiet(n) && |n.pcs| == |s.pcs| && n.core.maxSize == s.core.maxSize
    ensures Weight(n.core.entries) == Weight(s.core.entries) + 1
  {
    put := Act(0, Put(FreshKey(s.core.entries), Value("", 1)));
    FreshLookup(s.core.entries, put.op.key);
    s.core.SectionWeights(put.op.key, put.op.value);
    StepConsistent(s, put);
    var s1 := Next(s, put);
    InRange(Weight(s1.core.entries));
    n := Next(Next(s1, Act(0, ReadMax)), Act(0, Trim));
    assert n.core == s1.core && n.pcs == s.pcs;
  }

  /** From a new cache, with entries of weight at most w and no greater limit than the first, the
      exception can be reached exactly when that limit and one entry a thread do not fit a Java int
      together. */
  lemma ThrowsExactly(s: State, w: nat)
    requires Initial(s) && w <= MAX_INT32
    ensures (exists run :: Throws(s, run, w, s.core.maxSize)) <==> s.core.maxSize + w * |s.pcs| > MAX_INT32
  {
    var m := s.core.maxSize;
    if m + w * |s.pcs| > MAX_INT32 {
      InRange(0);
      var run := FillAndBurst(s, m, w);
    } else {
      forall run | Runs(s, run) && AllWithin(run, w, m) ensures !Throws(s, run, w, m) {
        FromNew(s, run, w, m);
      }
    }
  }
}
