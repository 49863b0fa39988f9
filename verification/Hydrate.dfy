/** Fetching an entry's details on first use: any number of requests and background goroutines over
    one lock per entry (`EnsureHydrated` in `backend/internal/sync/sync.go`). */
module Hydrate {
  import opened Text

  // ---------------------------------------------------------------- one lock a name

  class Mutex {
    constructor () {}
  }

  function LockName(id: int): string { "hydrate:" + Itoa(id) }

  predicate IsInt64(n: int) { MIN_INT64 <= n <= MAX_INT64 }

  lemma LockNamesDiffer(a: int, b: int)
    requires IsInt64(a) && IsInt64(b) && LockName(a) == LockName(b)
    ensures a == b
  {
    assert LockName(a)[8..] == Itoa(a) && LockName(b)[8..] == Itoa(b);
    AtoiItoa(a);
    AtoiItoa(b);
  }

  /** `lockFor`: a lock, once made for a name, stays that name's lock, and no other name's. */
  class Locks {
    var locks: map<string, Mutex>

    ghost predicate Valid()
      reads this
    {
      forall a, b | a in locks && b in locks && locks[a] == locks[b] :: a == b
    }

    constructor ()
      ensures Valid() && locks == map[]
    {
      locks := map[];
    }

    method LockFor(name: string) returns (l: Mutex)
      requires Valid()
      modifies this
      ensures Valid() && name in locks && locks[name] == l
      ensures forall n | n in old(locks) :: n in locks && locks[n] == old(locks[n])
      ensures locks.Keys == old(locks.Keys) + {name}
    {
      if name in locks { return locks[name]; }
      l := new Mutex();
      locks := locks[name := l];
    }

    /** The lock `EnsureHydrated` asks for. An entry has one lock, for good, and no other entry has it:
        which locks are taken is a set of entries, as the protocol below has it. */
    method HydrateLock(id: int) returns (l: Mutex)
      requires Valid() && IsInt64(id)
      modifies this
      ensures Valid() && LockName(id) in locks && locks[LockName(id)] == l
      ensures LockName(id) in old(locks) ==> l == old(locks)[LockName(id)]
      ensures forall n | n in old(locks) :: n in locks && locks[n] == old(locks[n])
      ensures forall other | IsInt64(other) && LockName(other) in locks && locks[LockName(other)] == l :: other == id
    {
      l := LockFor(LockName(id));
      forall other | IsInt64(other) && LockName(other) in locks && locks[LockName(other)] == l ensures other == id {
        LockNamesDiffer(other, id);
      }
    }
  }

  // ---------------------------------------------------------------- the protocol

  datatype Media = Media(fetched: bool, hasExtension: bool)

  /** Inside `hydrateNow`, which runs with the lock of its entry. */
  datatype Stage = Begun | Fetching | Writing(target: int) | Returned

  /** A request handler (Outside, Looked, Waiting), the goroutine that hydrates, or the goroutine of
      `waitForLock` (Queued, Passing). */
  datatype Proc =
    | Outside
    | Looked(id: int)
    | Waiting(id: int)
    | Hydrating(id: int, stage: Stage)
    | Queued(id: int)
    | Passing(id: int)
    | Gone

  /** `log` holds the successful detail writes of this path: for which entry, and to which row. */
  datatype State = State(media: map<int, Media>, locked: set<int>, procs: seq<Proc>, log: seq<(int, int)>)

  datatype Op =
    | Enter(id: int)             // GetMedia, and the early return
    | TryLock                    // and the goroutine it starts
    | Leave                      // done, lock seen free, or 400 ms over
    | Check(failed: bool)        // hydrateNow's own GetMedia, GetExtension and Ensure
    | Fetch(got: Option<int>)    // GetDetails: an error, or details naming a row
    | Write(failed: bool)        // UpsertMediaDetails
    | Unlock                     // the hydrating goroutine's deferred Unlock
    | Acquire                    // the waiting goroutine gets the lock
    | Release
    | Elsewhere(id: int)         // some other path writes details

  datatype Act = Act(p: nat, op: Op)

  predicate Enabled(s: State, a: Act) {
    a.op.Elsewhere? ||
    (a.p < |s.procs| &&
     var q := s.procs[a.p];
     match a.op
     case Enter(_) => q.Outside?
     case TryLock => q.Looked?
     case Leave => q.Waiting?
     case Check(_) => q.Hydrating? && q.stage.Begun?
     case Fetch(_) => q.Hydrating? && q.stage.Fetching?
     case Write(_) => q.Hydrating? && q.stage.Writing?
     case Unlock => q.Hydrating? && q.stage.Returned?
     case Acquire => q.Queued? && q.id !in s.locked
     case Release => q.Passing?
     case Elsewhere(_) => true)
  }

  predicate Needed(s: State, id: int) { id in s.media && !s.media[id].fetched && s.media[id].hasExtension }

  /** The upsert makes the row if it is not there. */
  function WithDetails(media: map<int, Media>, id: int): map<int, Media> {
    media[id := Media(true, id !in media || media[id].hasExtension)]
  }

  function Next(s: State, a: Act): State
    requires Enabled(s, a)
  {
    match a.op
    case Enter(id) => if Needed(s, id) then s.(procs := s.procs[a.p := Looked(id)]) else s
    case TryLock =>
      var id := s.procs[a.p].id;
      if id in s.locked then s.(procs := s.procs[a.p := Waiting(id)] + [Queued(id)])
      else s.(procs := s.procs[a.p := Waiting(id)] + [Hydrating(id, Begun)], locked := s.locked + {id})
    case Leave => s.(procs := s.procs[a.p := Outside])
    case Check(failed) =>
      var id := s.procs[a.p].id;
      var on := !failed && id in s.media && !s.media[id].fetched;
      s.(procs := s.procs[a.p := Hydrating(id, if on then Fetching else Returned)])
    case Fetch(got) =>
      s.(procs := s.procs[a.p := Hydrating(s.procs[a.p].id, if got.Some? then Writing(got.value) else Returned)])
    case Write(failed) =>
      var id, target := s.procs[a.p].id, s.procs[a.p].stage.target;
      var t := s.(procs := s.procs[a.p := Hydrating(id, Returned)]);
      if failed then t else t.(media := WithDetails(s.media, target), log := s.log + [(id, target)])
    case Unlock => s.(procs := s.procs[a.p := Gone], locked := s.locked - {s.procs[a.p].id})
    case Acquire => s.(procs := s.procs[a.p := Passing(s.procs[a.p].id)], locked := s.locked + {s.procs[a.p].id})
    case Release => s.(procs := s.procs[a.p := Gone], locked := s.locked - {s.procs[a.p].id})
    case Elsewhere(id) => s.(media := WithDetails(s.media, id))
  }

  ghost predicate Runs(s: State, run: seq<Act>)
    decreases |run|
  {
    run == [] || (Enabled(s, run[0]) && Runs(Next(s, run[0]), run[1..]))
  }

  function End(s: State, run: seq<Act>): State
    requires Runs(s, run)
    decreases |run|
  {
    if run == [] then s else End(Next(s, run[0]), run[1..])
  }

  /** Requests may be waiting to come in; nothing else is going on. */
  ghost predicate Initial(s: State) {
    s.locked == {} && s.log == [] && forall p | 0 <= p < |s.procs| :: s.procs[p] == Outside
  }

  // ---------------------------------------------------------------- mutual exclusion

  predicate Holds(q: Proc, id: int) { (q.Hydrating? || q.Passing?) && q.id == id }

  ghost predicate Holder(s: State, p: int, id: int) { 0 <= p < |s.procs| && Holds(s.procs[p], id) }

  /** A lock is taken exactly when some goroutine has it, and no two have the same one. */
  ghost predicate Exclusive(s: State) {
    && (forall p, q, id | Holder(s, p, id) && Holder(s, q, id) :: p == q)
    && (forall p, id | Holder(s, p, id) :: id in s.locked)
    && (forall id | id in s.locked :: exists p :: Holder(s, p, id))
  }

  lemma StepExclusive(s: State, a: Act)
    requires Exclusive(s) && Enabled(s, a)
    ensures Exclusive(Next(s, a))
  {
    var n := Next(s, a);
    if !a.op.Elsewhere? {
      var id := match a.op case Enter(i) => i case _ => s.procs[a.p].id;
      forall q, i | i != id || (q != a.p && q != |s.procs|) ensures Holder(n, q, i) <==> Holder(s, q, i) {}
      forall i | i in n.locked ensures exists q :: Holder(n, q, i) {
        if i != id {
          var q :| Holder(s, q, i);
          assert Holder(n, q, i);
        } else if id in s.locked {
          var q :| Holder(s, q, id);
          assert Holder(n, q, id);
        } else if a.op.TryLock? {
          assert Holder(n, |s.procs|, id);
        } else {
          assert Holder(n, a.p, id);
        }
      }
      forall p, q | Holder(n, p, id) && Holder(n, q, id) ensures p == q && id in n.locked {
        assert Holder(s, a.p, id) || a.op.TryLock? || a.op.Acquire? || a.op.Leave? || a.op.Enter?;
      }
    } else {
      forall q, i ensures Holder(n, q, i) <==> Holder(s, q, i) {}
    }
  }

  // ---------------------------------------------------------------- writes

  predicate Underway(q: Proc, id: int) { q.Hydrating? && q.id == id && (q.stage.Fetching? || q.stage.Writing?) }

  /** A write that reaches its own entry is the last one made for that entry. */
  ghost predicate OwnWriteLast(log: seq<(int, int)>) {
    forall i, j | 0 <= i < j < |log| && log[i].0 == log[j].0 :: log[i].1 != log[i].0
  }

  ghost predicate Ordered(s: State) {
    && OwnWriteLast(s.log)
    && (forall i | 0 <= i < |s.log| :: s.log[i].1 in s.media && s.media[s.log[i].1].fetched)
    && (forall p | 0 <= p < |s.procs| && s.procs[p].Hydrating? && Underway(s.procs[p], s.procs[p].id) ::
          (s.procs[p].id, s.procs[p].id) !in s.log)
  }

  lemma StepOrdered(s: State, a: Act)
    requires Exclusive(s) && Ordered(s) && Enabled(s, a)
    ensures Ordered(Next(s, a))
  {
    var n := Next(s, a);
    if a.op.Write? && !a.op.failed {
      var id := s.procs[a.p].id;
      assert Holder(s, a.p, id) && Underway(s.procs[a.p], id);
      forall p | 0 <= p < |n.procs| && n.procs[p].Hydrating? && Underway(n.procs[p], n.procs[p].id)
        ensures (n.procs[p].id, n.procs[p].id) !in n.log
      {
        assert p != a.p && n.procs[p] == s.procs[p];
        assert Holder(s, p, n.procs[p].id);
      }
    } else if a.op.Check? {
      var id := s.procs[a.p].id;
      if (id, id) in s.log {
        var i :| 0 <= i < |s.log| && s.log[i] == (id, id);
        assert s.media[s.log[i].1].fetched;
      }
    }
  }

  ghost predicate Inside(s: State, p: int, id: int) {
    0 <= p < |s.procs| && s.procs[p].Hydrating? && s.procs[p].id == id
  }

  function WritesFor(log: seq<(int, int)>, id: int): nat {
    if log == [] then 0 else WritesFor(log[..|log| - 1], id) + if log[|log| - 1].0 == id then 1 else 0
  }

  /** Every reply named the entry it was asked about. */
  ghost predicate Echoes(log: seq<(int, int)>, id: int) {
    forall i | 0 <= i < |log| && log[i].0 == id :: log[i].1 == id
  }

  lemma {:induction false} RunInvariant(s: State, run: seq<Act>)
    requires Exclusive(s) && Ordered(s) && Runs(s, run)
    ensures Exclusive(End(s, run)) && Ordered(End(s, run))
    decreases |run|
  {
    if run == [] {
    } else {
      StepExclusive(s, run[0]);
      StepOrdered(s, run[0]);
      RunInvariant(Next(s, run[0]), run[1..]);
    }
  }

  lemma {:induction false} WritesBound(log: seq<(int, int)>, id: int)
    requires OwnWriteLast(log) && Echoes(log, id)
    ensures WritesFor(log, id) <= 1
    ensures WritesFor(log, id) == 1 ==> (id, id) in log
  {
    if log == [] {
    } else {
      var rest := log[..|log| - 1];
      WritesBound(rest, id);
      if WritesFor(rest, id) == 1 {
        var i :| 0 <= i < |rest| && rest[i] == (id, id);
        assert log[i] == (id, id);
      }
    }
  }

  /** In every run at most one goroutine is inside `hydrateNow` for an entry; and at most one detail
      write succeeds for it, as long as the source's replies name the entry they were asked about. */
  lemma OneHydration(s: State, run: seq<Act>, id: int)
    requires Initial(s) && Runs(s, run)
    ensures forall p, q | Inside(End(s, run), p, id) && Inside(End(s, run), q, id) :: p == q
    ensures OwnWriteLast(End(s, run).log)
    ensures Echoes(End(s, run).log, id) ==> WritesFor(End(s, run).log, id) <= 1
  {
    assert forall p, i :: !Holder(s, p, i);
    RunInvariant(s, run);
    var e := End(s, run);
    forall p, q | Inside(e, p, id) && Inside(e, q, id) ensures p == q {
      assert Holder(e, p, id) && Holder(e, q, id);
    }
    if Echoes(e.log, id) { WritesBound(e.log, id); }
  }

  // ---------------------------------------------------------------- who is asked about, and who waits

  predicate On(q: Proc, id: int) { !q.Outside? && !q.Gone? && q.id == id }

  /** Nobody is busy with the entry, nothing was written for it, and it needs nothing. */
  ghost predicate Untouched(s: State, id: int) {
    && !Needed(s, id) && (forall p | 0 <= p < |s.procs| :: !On(s.procs[p], id))
    && forall i | 0 <= i < |s.log| :: s.log[i].0 != id
  }

  lemma StepUntouched(s: State, a: Act, id: int)
    requires Untouched(s, id) && Enabled(s, a)
    ensures Untouched(Next(s, a), id)
  {
  }

  /** An entry that has its details, or no extension, is never asked about, and nothing is written for it. */
  lemma {:induction false} RunUntouched(s: State, run: seq<Act>, id: int)
    requires Untouched(s, id) && Runs(s, run)
    ensures Untouched(End(s, run), id)
    decreases |run|
  {
    hide Untouched;
    if run == [] {
    } else {
      StepUntouched(s, run[0], id);
      RunUntouched(Next(s, run[0]), run[1..], id);
    }
  }

  /** A request that needs details starts one goroutine: one that hydrates, with the lock, if the lock was
      free, and otherwise one that waits for it. */
  lemma OneStarted(s: State, p: nat)
    requires p < |s.procs| && s.procs[p].Looked?
    ensures Enabled(s, Act(p, TryLock))
    ensures var n, id := Next(s, Act(p, TryLock)), s.procs[p].id;
            && |n.procs| == |s.procs| + 1 && n.procs[p] == Waiting(id) && n.locked == s.locked + {id}
            && n.procs[|s.procs|] == (if id in s.locked then Queued(id) else Hydrating(id, Begun))
            && n.media == s.media && n.log == s.log
            && forall q | 0 <= q < |s.procs| && q != p :: n.procs[q] == s.procs[q]
  {
  }

  /** The one that waits takes the lock once it is free and gives it back, and nothing else. */
  lemma QueuedPasses(s: State, p: nat)
    requires p < |s.procs| && s.procs[p].Queued?
    ensures Enabled(s, Act(p, Acquire)) <==> s.procs[p].id !in s.locked
    ensures s.procs[p].id !in s.locked ==>
              var n := Next(s, Act(p, Acquire));
              Enabled(n, Act(p, Release)) && Next(n, Act(p, Release)) == s.(procs := s.procs[p := Gone])
  {
  }

  // ---------------------------------------------------------------- replies about another entry

  lemma {:induction false} Extend(s: State, run: seq<Act>, a: Act)
    requires Runs(s, run) && Enabled(End(s, run), a)
    ensures Runs(s, run + [a]) && End(s, run + [a]) == Next(End(s, run), a)
    decreases |run|
  {
    if run == [] {
      assert run + [a] == [a];
    } else {
      assert (run + [a])[1..] == run[1..] + [a];
      Extend(Next(s, run[0]), run[1..], a);
    }
  }

  /** One more request, fully served by a reply that names another entry. */
  lemma Visit(s: State, run: seq<Act>, id: int, target: int) returns (r: seq<Act>)
    requires Runs(s, run) && target != id
    requires var e := End(s, run); e.procs != [] && e.procs[0] == Outside && Needed(e, id) && id !in e.locked
    ensures Runs(s, r)
    ensures var e := End(s, r); e.procs != [] && e.procs[0] == Outside && Needed(e, id) && id !in e.locked
    ensures End(s, r).log == End(s, run).log + [(id, target)]
  {
    hide Runs, End;
    var g := |End(s, run).procs|;
    r := run;
    Extend(s, r, Act(0, Enter(id)));
    r := r + [Act(0, Enter(id))];
    Extend(s, r, Act(0, TryLock));
    r := r + [Act(0, TryLock)];
    Extend(s, r, Act(0, Leave));
    r := r + [Act(0, Leave)];
    Extend(s, r, Act(g, Check(false)));
    r := r + [Act(g, Check(false))];
    Extend(s, r, Act(g, Fetch(Some(target))));
    r := r + [Act(g, Fetch(Some(target)))];
    Extend(s, r, Act(g, Write(false)));
    r := r + [Act(g, Write(false))];
    Extend(s, r, Act(g, Unlock));
    r := r + [Act(g, Unlock)];
  }

  /** Every detail write made for the entry went to one of the rows in `targets`. */
  ghost predicate AllTo(log: seq<(int, int)>, id: int, targets: set<int>) {
    forall i | 0 <= i < |log| && log[i].0 == id :: log[i].1 in targets
  }

  /** A source whose replies name another entry is asked, and its replies written, any number of times. */
  lemma {:induction false} WrongReplies(s: State, id: int, target: int, n: nat) returns (r: seq<Act>)
    requires Initial(s) && s.procs != [] && Needed(s, id) && target != id
    ensures Runs(s, r) && WritesFor(End(s, r).log, id) == n && AllTo(End(s, r).log, id, {target})
    ensures var e := End(s, r); e.procs != [] && e.procs[0] == Outside && Needed(e, id) && id !in e.locked
  {
    if n == 0 {
      r := [];
    } else {
      var q := WrongReplies(s, id, target, n - 1);
      r := Visit(s, q, id, target);
      assert End(s, r).log[..|End(s, r).log| - 1] == End(s, q).log;
    }
  }

  /** The exact condition. If the source's replies about an entry that has no details yet name entries
      from `targets` only, then at most one detail write succeeds for it in every run exactly when the
      entry itself is the only one they can name. */
  lemma OneWriteExactly(s: State, id: int, targets: set<int>)
    requires Initial(s) && s.procs != [] && Needed(s, id)
    ensures (forall run | Runs(s, run) && AllTo(End(s, run).log, id, targets) :: WritesFor(End(s, run).log, id) <= 1)
            <==> targets <= {id}
  {
    if forall target | target in targets :: target == id {
      forall run | Runs(s, run) && AllTo(End(s, run).log, id, targets) ensures WritesFor(End(s, run).log, id) <= 1 {
        OneHydration(s, run, id);
        assert Echoes(End(s, run).log, id);
      }
    } else {
      var target :| target in targets && target != id;
      var run := WrongReplies(s, id, target, 2);
      assert AllTo(End(s, run).log, id, targets);
    }
  }
}
