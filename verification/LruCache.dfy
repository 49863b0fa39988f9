/** The access-ordered cache of the Android runtime stub
    (`sandbox/src/main/java/android/util/LruCache.java`): its atomic sections, and whole calls made by
    one thread. */
module LruCache {
  import opened Text

  const MAX_INT32 := 0x7FFF_FFFF

  lemma WrapAdd(a: int, b: int)
    ensures Wrap32(Wrap32(a) + b) == Wrap32(a + b)
  {
  }

  /** `sizeOf` is taken as a property of the value: never negative, and the same each time. */
  datatype Value = Value(data: string, weight: nat)

  datatype Entry = Entry(key: string, value: Value)

  // ---------------------------------------------------------------- the access-ordered map

  function Lookup(es: seq<Entry>, k: string): Option<Value> {
    if es == [] then None else if es[0].key == k then Some(es[0].value) else Lookup(es[1..], k)
  }

  function Without(es: seq<Entry>, k: string): seq<Entry> {
    if es == [] then [] else if es[0].key == k then es[1..] else [es[0]] + Without(es[1..], k)
  }

  /** Key k at the most recent end, with value v. */
  function Renewed(es: seq<Entry>, k: string, v: Value): seq<Entry> { Without(es, k) + [Entry(k, v)] }

  ghost predicate Unique(es: seq<Entry>) {
    forall i, j | 0 <= i < j < |es| :: es[i].key != es[j].key
  }

  function Weight(es: seq<Entry>): nat {
    if es == [] then 0 else es[0].value.weight + Weight(es[1..])
  }

  function WeightOf(v: Option<Value>): nat {
    match v case None => 0 case Some(x) => x.weight
  }

  lemma WeightAppend(es: seq<Entry>, e: Entry)
    ensures Weight(es + [e]) == Weight(es) + e.value.weight
  {
    if es == [] {
    } else {
      assert (es + [e])[1..] == es[1..] + [e];
      WeightAppend(es[1..], e);
    }
  }

  lemma WeightWithout(es: seq<Entry>, k: string)
    ensures Weight(Without(es, k)) == Weight(es) - WeightOf(Lookup(es, k))
  {
    if es == [] || es[0].key == k {
    } else {
      WeightWithout(es[1..], k);
      assert Without(es, k)[1..] == Without(es[1..], k);
    }
  }

  lemma WeightRenewed(es: seq<Entry>, k: string, v: Value)
    ensures Weight(Renewed(es, k, v)) == Weight(es) - WeightOf(Lookup(es, k)) + v.weight
  {
    WeightWithout(es, k);
    WeightAppend(Without(es, k), Entry(k, v));
  }

  lemma LookupAt(es: seq<Entry>, k: string)
    ensures Lookup(es, k).Some? <==> exists i :: 0 <= i < |es| && es[i].key == k
  {
    if es == [] {
    } else {
      LookupAt(es[1..], k);
      if es[0].key != k && Lookup(es[1..], k).Some? {
        var i :| 0 <= i < |es[1..]| && es[1..][i].key == k;
        assert es[i + 1].key == k;
      }
      if i :| 0 <= i < |es| && es[i].key == k {
        assert i > 0 ==> es[1..][i - 1].key == k;
      }
    }
  }

  /** Taking key k out leaves the other keys, in their order and with their values. */
  lemma WithoutUnique(es: seq<Entry>, k: string)
    requires Unique(es)
    ensures Unique(Without(es, k))
    ensures forall i | 0 <= i < |Without(es, k)| :: Without(es, k)[i].key != k && Without(es, k)[i] in es
  {
    if es == [] || es[0].key == k {
    } else {
      WithoutUnique(es[1..], k);
    }
  }

  lemma RenewedUnique(es: seq<Entry>, k: string, v: Value)
    requires Unique(es)
    ensures Unique(Renewed(es, k, v))
  {
    WithoutUnique(es, k);
  }

  lemma LookupAppend(es: seq<Entry>, e: Entry, k: string)
    requires Lookup(es, e.key) == None
    ensures Lookup(es + [e], k) == if k == e.key then Some(e.value) else Lookup(es, k)
  {
    if es == [] {
    } else {
      assert (es + [e])[1..] == es[1..] + [e];
      LookupAppend(es[1..], e, k);
    }
  }

  lemma LookupWithout(es: seq<Entry>, k: string, j: string)
    requires Unique(es)
    ensures Lookup(Without(es, k), j) == if j == k then None else Lookup(es, j)
  {
    if es == [] {
    } else {
      if es[0].key != k {
        LookupWithout(es[1..], k, j);
        assert Without(es, k)[1..] == Without(es[1..], k);
      } else {
        LookupAt(es[1..], k);
      }
    }
  }

  /** The renewed map answers v for k and what it answered before for every other key. */
  lemma LookupRenewed(es: seq<Entry>, k: string, v: Value, j: string)
    requires Unique(es)
    ensures Lookup(Renewed(es, k, v), j) == if j == k then Some(v) else Lookup(es, j)
  {
    LookupWithout(es, k, k);
    LookupWithout(es, k, j);
    LookupAppend(Without(es, k), Entry(k, v), j);
  }

  /** In a map with one entry a key, looking up finds the entry there is. */
  lemma LookupExactly(es: seq<Entry>, k: string, v: Value)
    requires Unique(es)
    ensures Lookup(es, k) == Some(v) <==> Entry(k, v) in es
  {
    if es == [] {
    } else {
      LookupExactly(es[1..], k, v);
      assert Entry(k, v) in es <==> es[0] == Entry(k, v) || Entry(k, v) in es[1..];
      forall i | 0 <= i < |es[1..]| ensures es[1..][i].key != es[0].key { assert es[1..][i] == es[i + 1]; }
    }
  }

  /** Taking an entry out leaves the ones before it and the ones behind it as they are. */
  lemma {:induction false} WithoutAt(es: seq<Entry>, i: nat)
    requires Unique(es) && i < |es|
    ensures Without(es, es[i].key) == es[..i] + es[i + 1..]
  {
    if i == 0 {
    } else {
      assert es[0].key != es[i].key;
      WithoutAt(es[1..], i - 1);
      assert es[1..][i - 1] == es[i] && es[1..][..i - 1] == es[1..i] && es[1..][i..] == es[i + 1..];
      assert es[..i] == [es[0]] + es[1..i];
    }
  }

  lemma {:induction false} WithoutAbsent(es: seq<Entry>, k: string)
    requires forall i | 0 <= i < |es| :: es[i].key != k
    ensures Without(es, k) == es
  {
    if es == [] {
    } else {
      WithoutAbsent(es[1..], k);
    }
  }

  // ---------------------------------------------------------------- recency

  /** What the history of a cache says about a key: it was used (put, created, or found), or removed. */
  datatype Mention = Used(key: string) | Forgotten(key: string)

  /** When a key was last mentioned; -1 is never. */
  function Last(h: seq<Mention>, k: string): (t: int)
    ensures -1 <= t < |h|
    ensures t >= 0 ==> h[t].key == k
    ensures forall i | t < i < |h| :: h[i].key != k
  {
    if h == [] then -1 else if h[|h| - 1].key == k then |h| - 1 else Last(h[..|h| - 1], k)
  }

  /** The key was used and not removed since. */
  predicate Alive(h: seq<Mention>, k: string) { Last(h, k) >= 0 && h[Last(h, k)].Used? }

  ghost predicate AllAlive(es: seq<Entry>, h: seq<Mention>) { forall i | 0 <= i < |es| :: Alive(h, es[i].key) }

  ghost predicate Rising(es: seq<Entry>, h: seq<Mention>) {
    forall i, j | 0 <= i < j < |es| :: Last(h, es[i].key) < Last(h, es[j].key)
  }

  ghost predicate NoneMissing(es: seq<Entry>, h: seq<Mention>) {
    forall k, e | e in es && Alive(h, k) && Last(h, e.key) <= Last(h, k) :: InKeys(es, k)
  }

  ghost predicate InKeys(es: seq<Entry>, k: string) { exists i :: 0 <= i < |es| && es[i].key == k }

  /** The entries stand in the order of their last use, and no key used after one of them is missing:
      they are a tail of all keys in the order of their last use. */
  ghost predicate Ranked(es: seq<Entry>, h: seq<Mention>) {
    AllAlive(es, h) && Rising(es, h) && NoneMissing(es, h)
  }

  /** A mention changes what is known about its own key only. */
  ghost predicate Mentioned(h: seq<Mention>, m: Mention, h': seq<Mention>) {
    && (forall k :: Last(h', k) == if k == m.key then |h| else Last(h, k))
    && forall k :: Alive(h', k) == if k == m.key then m.Used? else Alive(h, k)
  }

  lemma MentionedOnce(h: seq<Mention>, m: Mention)
    ensures Mentioned(h, m, h + [m])
  {
    assert (h + [m])[..|h|] == h;
  }

  lemma RankedUnique(es: seq<Entry>, h: seq<Mention>)
    requires Rising(es, h)
    ensures Unique(es)
  {
    hide Last;
  }

  lemma RankedTail(es: seq<Entry>, h: seq<Mention>)
    requires es != [] && Ranked(es, h)
    ensures Ranked(es[1..], h)
  {
    hide Last, Alive;
    var r := es[1..];
    forall k, e | e in r && Alive(h, k) && Last(h, e.key) <= Last(h, k) ensures InKeys(r, k) {
      assert InKeys(es, k);
      var j :| 0 <= j < |es| && es[j].key == k;
      assert j > 0;
      assert r[j - 1].key == k;
    }
  }

  /** es without its entry of key k, if it has one. */
  ghost predicate Rest(es: seq<Entry>, k: string, r: seq<Entry>) {
    if InKeys(es, k) then exists i :: 0 <= i < |es| && es[i].key == k && r == es[..i] + es[i + 1..] else r == es
  }

  lemma WithoutIsRest(es: seq<Entry>, k: string)
    requires Unique(es)
    ensures Rest(es, k, Without(es, k))
  {
    hide Without, Unique;
    if InKeys(es, k) {
      var i :| 0 <= i < |es| && es[i].key == k;
      WithoutAt(es, i);
    } else {
      WithoutAbsent(es, k);
    }
  }

  lemma RestIs(es: seq<Entry>, h: seq<Mention>, k: string, r: seq<Entry>)
    requires Rising(es, h) && Rest(es, k, r)
    ensures Rising(r, h)
    ensures forall e | e in r :: e in es && e.key != k
    ensures forall j | j != k && InKeys(es, j) :: InKeys(r, j)
  {
    hide Rising, InKeys, Unique;
    RankedUnique(es, h);
    if InKeys(es, k) {
      var i :| 0 <= i < |es| && es[i].key == k && r == es[..i] + es[i + 1..];
      CutRising(es, h, i);
      CutElements(es, i);
      forall j | j != k && InKeys(es, j) ensures InKeys(r, j) { CutKeys(es, i, j); }
    } else {
      forall e | e in es ensures e.key != k { InKeysElement(es, e); }
    }
  }

  lemma InKeysElement(es: seq<Entry>, e: Entry)
    requires e in es
    ensures InKeys(es, e.key)
  {
  }

  lemma CutRising(es: seq<Entry>, h: seq<Mention>, i: nat)
    requires i < |es| && Rising(es, h)
    ensures Rising(es[..i] + es[i + 1..], h)
  {
    hide Last;
    var r := es[..i] + es[i + 1..];
    assert forall a | 0 <= a < |r| :: r[a] == es[if a < i then a else a + 1];
  }

  lemma CutElements(es: seq<Entry>, i: nat)
    requires i < |es| && Unique(es)
    ensures forall e | e in es[..i] + es[i + 1..] :: e in es && e.key != es[i].key
  {
  }

  lemma CutKeys(es: seq<Entry>, i: nat, j: string)
    requires i < |es| && j != es[i].key && InKeys(es, j)
    ensures InKeys(es[..i] + es[i + 1..], j)
  {
    var a :| 0 <= a < |es| && es[a].key == j;
    var r := es[..i] + es[i + 1..];
    assert r[if a < i then a else a - 1] == es[a];
  }

  /** A removed key is out of the order. */
  lemma RankedForget(es: seq<Entry>, h: seq<Mention>, k: string)
    requires Ranked(es, h)
    ensures Ranked(Without(es, k), h + [Forgotten(k)])
  {
    hide Last, Alive, Without, InKeys, Unique, Rest;
    var r, h' := Without(es, k), h + [Forgotten(k)];
    RankedUnique(es, h);
    WithoutIsRest(es, k);
    RestIs(es, h, k, r);
    MentionedOnce(h, Forgotten(k));
    assert AllAlive(r, h') by { RestAlive(es, h, Forgotten(k), h', r); }
    assert Rising(r, h') by { RestRising(h, Forgotten(k), h', r); }
  }

  /** A used key is the most recent. */
  lemma RankedUse(es: seq<Entry>, h: seq<Mention>, k: string, v: Value)
    requires Ranked(es, h)
    ensures Ranked(Renewed(es, k, v), h + [Used(k)])
  {
    hide Last, Alive, Without, InKeys, Unique, Rest;
    var r, h', e := Without(es, k), h + [Used(k)], Entry(k, v);
    RankedUnique(es, h);
    WithoutIsRest(es, k);
    RestIs(es, h, k, r);
    MentionedOnce(h, Used(k));
    assert AllAlive(r + [e], h') by { RestAlive(es, h, Used(k), h', r); }
    assert Rising(r + [e], h') by { RestRising(h, Used(k), h', r); }
    assert NoneMissing(r + [e], h') by { AppendMissing(es, h, h', r, e); }
  }

  lemma RestAlive(es: seq<Entry>, h: seq<Mention>, m: Mention, h': seq<Mention>, r: seq<Entry>)
    requires AllAlive(es, h) && Mentioned(h, m, h') && forall e | e in r :: e in es && e.key != m.key
    ensures AllAlive(r, h')
  {
    hide Last, Alive;
    forall i | 0 <= i < |r| ensures Alive(h', r[i].key) { assert r[i] in r; }
  }

  lemma RestRising(h: seq<Mention>, m: Mention, h': seq<Mention>, r: seq<Entry>)
    requires Rising(r, h) && Mentioned(h, m, h') && forall e | e in r :: e.key != m.key
    ensures Rising(r, h') && forall i | 0 <= i < |r| :: Last(h', r[i].key) < Last(h', m.key)
  {
    hide Alive;
    assert forall i | 0 <= i < |r| :: r[i] in r;
  }

  lemma AppendMissing(es: seq<Entry>, h: seq<Mention>, h': seq<Mention>, r: seq<Entry>, e: Entry)
    requires NoneMissing(es, h) && Mentioned(h, Used(e.key), h') && forall x | x in r :: x in es && x.key != e.key
    requires forall k | k != e.key && InKeys(es, k) :: InKeys(r, k)
    ensures NoneMissing(r + [e], h')
  {
    hide Alive, InKeys;
    forall k, x | x in r + [e] && Alive(h', k) && Last(h', x.key) <= Last(h', k) ensures InKeys(r + [e], k) {
      if k == e.key { KeyLast(r, e); } else { KeyBefore(r, e, k); }
    }
  }

  lemma KeyLast(es: seq<Entry>, e: Entry)
    ensures InKeys(es + [e], e.key)
  {
    assert (es + [e])[|es|] == e;
  }

  lemma KeyBefore(es: seq<Entry>, e: Entry, k: string)
    ensures InKeys(es, k) ==> InKeys(es + [e], k)
  {
    if i :| 0 <= i < |es| && es[i].key == k { assert (es + [e])[i].key == k; }
  }

  // ---------------------------------------------------------------- the synchronized sections

  /** The fields the lock guards: the map, least recently used first, and two Java ints. */
  datatype Core = Core(entries: seq<Entry>, size: int, maxSize: int) {
    /** The recorded size is the sum of the entry sizes, as a Java int. */
    ghost predicate Consistent() { Unique(entries) && size == Wrap32(Weight(entries)) && maxSize > 0 }

    function Touched(k: string): Core {
      match Lookup(entries, k)
      case None => this
      case Some(v) => this.(entries := Renewed(entries, k, v))
    }

    /** A created value only goes in if no other thread put one there meanwhile. */
    function Created(k: string, v: Value): Core {
      match Lookup(entries, k)
      case Some(there) => this.(entries := Renewed(entries, k, there))
      case None => this.(entries := Renewed(entries, k, v), size := Wrap32(size + v.weight))
    }

    function Stored(k: string, v: Value): Core {
      this.(entries := Renewed(entries, k, v), size := Wrap32(Wrap32(size + v.weight) - WeightOf(Lookup(entries, k))))
    }

    function Removed(k: string): Core {
      this.(entries := Without(entries, k), size := Wrap32(size - WeightOf(Lookup(entries, k))))
    }

    predicate Inconsistent() { size < 0 || (entries == [] && size != 0) }

    function Evicted(): Core
      requires entries != []
    {
      this.(entries := entries[1..], size := Wrap32(size - entries[0].value.weight))
    }

    /** The trim loop run without interruption: the core it ends in, and whether it threw. */
    function Trimmed(bound: int): (Core, bool)
      decreases |entries|
    {
      if Inconsistent() then (this, true)
      else if size <= bound || entries == [] then (this, false)
      else Evicted().Trimmed(bound)
    }

    lemma ConsistentSections(k: string, v: Value)
      requires Consistent()
      ensures Touched(k).Consistent() && Created(k, v).Consistent()
      ensures Stored(k, v).Consistent() && Removed(k).Consistent()
    {
      hide Unique, Weight, Wrap32, Lookup, Without, Renewed;
      SectionWeights(k, v);
      WithoutUnique(entries, k);
      RenewedUnique(entries, k, v);
      if Lookup(entries, k).Some? { RenewedUnique(entries, k, Lookup(entries, k).value); }
      WrapAdd(Weight(entries), v.weight);
      WrapAdd(Weight(entries) + v.weight, 0 - WeightOf(Lookup(entries, k)));
      WrapAdd(Weight(entries), 0 - WeightOf(Lookup(entries, k)));
    }

    /** What a key's lookup gives after each section: a hit changes no answer, a created value never
        replaces one that is there, a stored one always does, and no other key is touched. */
    lemma SectionAnswers(k: string, v: Value, j: string)
      requires Consistent()
      ensures Lookup(Touched(k).entries, j) == Lookup(entries, j)
      ensures Lookup(Created(k, v).entries, j)
              == if j == k && Lookup(entries, k).None? then Some(v) else Lookup(entries, j)
      ensures Lookup(Stored(k, v).entries, j) == if j == k then Some(v) else Lookup(entries, j)
      ensures Lookup(Removed(k).entries, j) == if j == k then None else Lookup(entries, j)
    {
      LookupRenewed(entries, k, v, j);
      LookupWithout(entries, k, j);
      if Lookup(entries, k).Some? { LookupRenewed(entries, k, Lookup(entries, k).value, j); }
    }

    /** How much each section adds to or takes from the weight. */
    lemma SectionWeights(k: string, v: Value)
      ensures Weight(Touched(k).entries) == Weight(entries)
      ensures Weight(Created(k, v).entries) == Weight(entries) + if Lookup(entries, k).None? then v.weight else 0
      ensures Weight(Stored(k, v).entries) == Weight(entries) + v.weight - WeightOf(Lookup(entries, k))
      ensures Weight(Removed(k).entries) == Weight(entries) - WeightOf(Lookup(entries, k))
    {
      WeightRenewed(entries, k, v);
      WeightWithout(entries, k);
      if Lookup(entries, k).Some? { WeightRenewed(entries, k, Lookup(entries, k).value); }
    }

    /** Every section leaves the entries in the order of last use, none missing: found, created and stored
        keys have just been used, a removed one is forgotten, and eviction takes the least recent. */
    lemma SectionsRanked(h: seq<Mention>, k: string, v: Value)
      requires Ranked(entries, h)
      ensures Lookup(entries, k).Some? ==> Ranked(Touched(k).entries, h + [Used(k)])
      ensures Lookup(entries, k).None? ==> Touched(k).entries == entries
      ensures Ranked(Created(k, v).entries, h + [Used(k)]) && Ranked(Stored(k, v).entries, h + [Used(k)])
      ensures Ranked(Removed(k).entries, h + [Forgotten(k)])
      ensures entries != [] ==> Ranked(Evicted().entries, h)
    {
      hide Ranked, Without, Renewed;
      RankedUse(entries, h, k, v);
      if Lookup(entries, k).Some? { RankedUse(entries, h, k, Lookup(entries, k).value); }
      RankedForget(entries, h, k);
      if entries != [] { RankedTail(entries, h); }
    }

    lemma {:induction false} TrimmedRanked(bound: int, h: seq<Mention>)
      requires Consistent() && Ranked(entries, h)
      ensures var core := Trimmed(bound).0; core.Consistent() && Ranked(core.entries, h)
      decreases |entries|
    {
      hide Ranked, Consistent, Inconsistent;
      if Inconsistent() || size <= bound || entries == [] {
      } else {
        RankedTail(entries, h);
        ConsistentEvicted();
        Evicted().TrimmedRanked(bound, h);
      }
    }

    lemma ConsistentEvicted()
      requires Consistent() && entries != []
      ensures Evicted().Consistent() && Weight(Evicted().entries) == Weight(entries) - entries[0].value.weight
    {
      WrapAdd(Weight(entries), 0 - entries[0].value.weight);
    }

    /** An empty map never disagrees with the recorded size: only a wrapped size can throw. */
    lemma InconsistentExactly()
      requires Consistent()
      ensures Inconsistent() <==> Wrap32(Weight(entries)) < 0
    {
    }

    /** While the weights add up to a Java int, trimming keeps exactly the longest run of most recent
        entries that fits, and does not throw. */
    lemma {:induction false} TrimmedKeeps(bound: int)
      requires Consistent() && Weight(entries) <= MAX_INT32
      ensures var (core, threw) := Trimmed(bound);
              !threw && core.Consistent() && core.maxSize == maxSize
              && Longest(entries, bound, core.entries)
      decreases |entries|
    {
      hide Unique;
      assert size == Weight(entries) >= 0 && !Inconsistent();
      hide Wrap32;
      if size > bound && entries != [] {
        ConsistentEvicted();
        Evicted().TrimmedKeeps(bound);
        LongestMore(entries, bound, Evicted().Trimmed(bound).0.entries);
      } else {
        LongestAll(entries, bound);
      }
    }

    lemma StoredKeeps(k: string, v: Value)
      requires Consistent() && Weight(entries) + v.weight <= MAX_INT32
      ensures var (core, threw) := Stored(k, v).Trimmed(maxSize);
              !threw && core.Consistent() && core.maxSize == maxSize
              && Longest(Renewed(entries, k, v), maxSize, core.entries)
    {
      ConsistentSections(k, v);
      SectionWeights(k, v);
      Stored(k, v).TrimmedKeeps(maxSize);
    }
  }

  /** What was used last stands last. */
  lemma UsedIsLast(es: seq<Entry>, h: seq<Mention>, k: string)
    requires es != [] && Ranked(es, h + [Used(k)])
    ensures es[|es| - 1].key == k
  {
    hide Last, Alive;
    var n := |es| - 1;
    MentionedOnce(h, Used(k));
    AtMost(h + [Used(k)], es[n].key);
    assert es[n] in es && InKeys(es, k);
    var i :| 0 <= i < |es| && es[i].key == k;
    assert i == n;
  }

  lemma AtMost(h: seq<Mention>, k: string)
    ensures Last(h, k) < |h|
  {
  }

  lemma LongestMore(es: seq<Entry>, bound: int, kept: seq<Entry>)
    requires es != [] && Weight(es) > bound && Longest(es[1..], bound, kept)
    ensures Longest(es, bound, kept)
  {
    hide Weight;
    forall m | 0 <= m < |es| - |kept| ensures Weight(es[m..]) > bound {
      if m > 0 {
        assert es[m..] == es[1..][m - 1..];
      } else {
        assert es[0..] == es;
      }
    }
  }

  lemma LongestAll(es: seq<Entry>, bound: int)
    requires es == [] || Weight(es) <= bound
    ensures Longest(es, bound, es)
  {
    assert es[0..] == es;
  }

  /** `kept` is the longest tail of es of weight at most `bound` (nothing at all if none is). */
  ghost predicate Longest(es: seq<Entry>, bound: int, kept: seq<Entry>) {
    && |kept| <= |es|
    && kept == es[|es| - |kept|..]
    && (kept == [] || Weight(kept) <= bound)
    && forall m | 0 <= m < |es| - |kept| :: Weight(es[m..]) > bound
  }

  // ---------------------------------------------------------------- whole calls

  class Cache {
    var entries: seq<Entry>
    var size: int
    var maxSize: int
    ghost var history: seq<Mention>  // every use and removal of a key, up to now

    /** The size is right, and the entries are a tail of the keys in the order of their last use. */
    ghost predicate Valid()
      reads this
    {
      View().Consistent() && Ranked(entries, history)
    }

    ghost function View(): Core
      reads this
    {
      Core(entries, size, maxSize)
    }

    constructor (maxSize: int)
      requires 0 < maxSize <= MAX_INT32
      ensures View() == Core([], 0, maxSize) && Valid() && history == []
    {
      entries, size, this.maxSize := [], 0, maxSize;
      history := [];
    }

    /** `get`; `created` is what `create(key)` would give. */
    method Get(key: string, created: Option<Value>) returns (r: Option<Value>, threw: bool)
      requires Valid()
      modifies this
      ensures Valid() && history == if r.Some? then old(history) + [Used(key)] else old(history)
      ensures r == if Lookup(old(entries), key).Some? then Lookup(old(entries), key) else created
      ensures Lookup(old(entries), key).Some? || created.None? ==> View() == old(View()).Touched(key) && !threw
      ensures Lookup(old(entries), key).None? && created.Some? ==>
                (View(), threw) == old(View()).Created(key, created.value).Trimmed(old(maxSize))
    {
      hide Lookup, Renewed, Unique, Weight, Core.Trimmed, Ranked;
      View().ConsistentSections(key, if created.Some? then created.value else Value("", 0));
      View().SectionsRanked(history, key, if created.Some? then created.value else Value("", 0));
      var mapValue := Lookup(entries, key);
      if mapValue.Some? {
        entries := Renewed(entries, key, mapValue.value);
        history := history + [Used(key)];
        return mapValue, false;
      }
      if created.None? { return None, false; }
      history := history + [Used(key)];
      entries := Renewed(entries, key, created.value);
      size := Wrap32(size + created.value.weight);
      threw := TrimToSize(maxSize);
      return created, threw;
    }

    method Put(key: string, value: Value) returns (previous: Option<Value>, threw: bool)
      requires Valid()
      modifies this
      ensures Valid() && history == old(history) + [Used(key)]
      ensures previous == Lookup(old(entries), key)
      ensures (View(), threw) == old(View()).Stored(key, value).Trimmed(old(maxSize))
      ensures Weight(old(entries)) + value.weight <= MAX_INT32 ==>
                !threw && View().Consistent() && Longest(Renewed(old(entries), key, value), maxSize, entries)
    {
      hide Lookup, Renewed, Unique, Weight, Core.Trimmed, Longest, Ranked;
      View().ConsistentSections(key, value);
      View().SectionsRanked(history, key, value);
      WrapAdd(size + value.weight, 0);
      if Weight(entries) + value.weight <= MAX_INT32 { View().StoredKeeps(key, value); }
      size := Wrap32(size + value.weight);
      previous := Lookup(entries, key);
      entries := Renewed(entries, key, value);
      if previous.Some? { size := Wrap32(size - previous.value.weight); }
      history := history + [Used(key)];
      threw := TrimToSize(maxSize);
    }

    method TrimToSize(bound: int) returns (threw: bool)
      requires Valid()
      modifies this
      ensures Valid() && history == old(history)
      ensures (View(), threw) == old(View()).Trimmed(bound)
    {
      hide Ranked, Unique, Weight;
      View().TrimmedRanked(bound, history);
      while true
        invariant View().Trimmed(bound) == old(View()).Trimmed(bound) && history == old(history)
        decreases |entries|
      {
        if size < 0 || (entries == [] && size != 0) { return true; }
        if size <= bound || entries == [] { return false; }
        var toEvict := entries[0];
        entries := entries[1..];
        size := Wrap32(size - toEvict.value.weight);
      }
    }

    method Remove(key: string) returns (previous: Option<Value>)
      requires Valid()
      modifies this
      ensures Valid() && history == old(history) + [Forgotten(key)]
      ensures previous == Lookup(old(entries), key) && View() == old(View()).Removed(key)
    {
      hide Ranked;
      View().ConsistentSections(key, Value("", 0));
      View().SectionsRanked(history, key, Value("", 0));
      previous := Lookup(entries, key);
      entries := Without(entries, key);
      size := Wrap32(size - WeightOf(previous));
      history := history + [Forgotten(key)];
    }

    /** `resize`; a size that is not positive is refused. */
    method Resize(maxSize: int) returns (refused: bool, threw: bool)
      requires Valid()
      modifies this
      ensures Valid() && history == old(history)
      ensures refused <==> maxSize <= 0
      ensures refused ==> View() == old(View()) && !threw
      ensures !refused ==> (View(), threw) == old(View()).(maxSize := maxSize).Trimmed(maxSize)
    {
      if maxSize <= 0 { return true, false; }
      this.maxSize := maxSize;
      threw := TrimToSize(maxSize);
      refused := false;
    }

    method EvictAll() returns (threw: bool)
      requires Valid()
      modifies this
      ensures Valid() && history == old(history)
      ensures (View(), threw) == old(View()).Trimmed(-1)
      ensures Weight(old(entries)) <= MAX_INT32 ==> !threw && entries == [] && size == 0
    {
      if Weight(entries) <= MAX_INT32 { View().TrimmedKeeps(-1); }
      threw := TrimToSize(-1);
    }
  }
}
