/** The segment cache (`backend/internal/api/rest/segcache.go`): a list with the most recent entry in
    front, a map into it, and a running size, refining a bounded recency list. */
module SegCache {
  import opened Text

  datatype Item = Item(key: string, data: string, ct: string)

  // ---------------------------------------------------------------- the recency list

  ghost predicate Unique(v: seq<Item>) {
    forall i, j | 0 <= i < j < |v| :: v[i].key != v[j].key
  }

  function Total(v: seq<Item>): nat {
    if v == [] then 0 else |v[0].data| + Total(v[1..])
  }

  function Find(v: seq<Item>, k: string): Option<Item> {
    if v == [] then None else if v[0].key == k then Some(v[0]) else Find(v[1..], k)
  }

  function Without(v: seq<Item>, k: string): seq<Item> {
    if v == [] then [] else if v[0].key == k then v[1..] else [v[0]] + Without(v[1..], k)
  }

  /** The most recent entries that fit. */
  function Fit(v: seq<Item>, max: int): (kept: seq<Item>)
    ensures |kept| <= |v|
  {
    if v == [] || |v[0].data| > max then [] else [v[0]] + Fit(v[1..], max - |v[0].data|)
  }

  function Touched(v: seq<Item>, k: string): seq<Item> {
    match Find(v, k)
    case None => v
    case Some(e) => [e] + Without(v, k)
  }

  /** Empty data, or more than the whole cache may hold, is not taken. */
  predicate Accepts(max: int, data: string) { 0 < |data| <= max }

  function Stored(v: seq<Item>, max: int, e: Item): seq<Item> {
    if Accepts(max, e.data) then Fit([e] + Without(v, e.key), max) else v
  }

  /** Fit is a prefix, and the longest one within the limit: n entries fit exactly when it has them. */
  lemma {:induction false} FitLongest(v: seq<Item>, max: int, n: nat)
    requires max >= 0 && n <= |v|
    ensures Fit(v, max) == v[..|Fit(v, max)|]
    ensures Total(v[..n]) <= max <==> n <= |Fit(v, max)|
    decreases |v|
  {
    if v != [] && |v[0].data| <= max {
      var rest := Fit(v[1..], max - |v[0].data|);
      FitLongest(v[1..], max - |v[0].data|, if n > 0 then n - 1 else 0);
      assert v[..1 + |rest|] == [v[0]] + v[1..][..|rest|];
      if n > 0 {
        assert v[..n][1..] == v[1..][..n - 1];
      }
    } else if v != [] && n > 0 {
      assert v[..n][0] == v[0];
    }
  }

  lemma FindAt(v: seq<Item>, i: nat)
    requires i < |v| && Unique(v)
    ensures Find(v, v[i].key) == Some(v[i])
  {
    if i == 0 {
    } else {
      FindAt(v[1..], i - 1);
    }
  }

  lemma WithoutAt(v: seq<Item>, i: nat)
    requires i < |v| && Unique(v)
    ensures Without(v, v[i].key) == v[..i] + v[i + 1..]
  {
    hide Without, Unique;
    WithoutItems(v, i);
  }

  lemma {:induction false} WithoutItems(v: seq<Item>, i: nat)
    requires i < |v| && Unique(v)
    ensures var w := Without(v, v[i].key);
            |w| == |v| - 1 && forall j | 0 <= j < |w| :: w[j] == v[if j < i then j else j + 1]
    decreases i
  {
    if i == 0 {
    } else {
      UniqueRest(v, i);
      hide Unique;
      WithoutItems(v[1..], i - 1);
    }
  }

  lemma UniqueRest(v: seq<Item>, i: nat)
    requires 0 < i < |v| && Unique(v)
    ensures Unique(v[1..]) && v[0].key != v[i].key
  {
  }

  lemma WithoutUpdate(v: seq<Item>, i: nat, e: Item)
    requires i < |v| && v[i].key == e.key && Unique(v)
    ensures Without(v[i := e], e.key) == Without(v, e.key)
  {
    WithoutAt(v, i);
    WithoutAt(v[i := e], i);
  }

  lemma FindNone(v: seq<Item>, k: string)
    requires forall i | 0 <= i < |v| :: v[i].key != k
    ensures Find(v, k) == None && Without(v, k) == v
  {
  }

  /** What is accepted is in front, readable with its new data; another key keeps its data or is gone. */
  lemma StoredReadable(v: seq<Item>, max: int, e: Item, k: string)
    requires Accepts(max, e.data)
    ensures Stored(v, max, e) != [] && Stored(v, max, e)[0] == e
    ensures Find(Stored(v, max, e), e.key) == Some(e)
    ensures k != e.key && Find(Stored(v, max, e), k).Some? ==> Find(Stored(v, max, e), k) == Find(v, k)
  {
    var u := [e] + Without(v, e.key);
    FitLongest(u, max, 0);
    if k != e.key {
      FindPrefix(u, |Fit(u, max)|, k);
      FindWithout(v, e.key, k);
    }
  }

  lemma FindPrefix(v: seq<Item>, n: nat, k: string)
    requires n <= |v|
    ensures Find(v[..n], k).Some? ==> Find(v[..n], k) == Find(v, k)
  {
    if n == 0 {
    } else {
      assert v[..n][1..] == v[1..][..n - 1];
      FindPrefix(v[1..], n - 1, k);
    }
  }

  lemma FindWithout(v: seq<Item>, j: string, k: string)
    requires j != k
    ensures Find(Without(v, j), k) == Find(v, k)
  {
    if v == [] || v[0].key == j {
    } else {
      assert Without(v, j)[1..] == Without(v[1..], j);
      FindWithout(v[1..], j, k);
    }
  }

  /** A read moves an entry without changing any answer, and the entry it moved is the last to go. */
  lemma TouchedSame(v: seq<Item>, k: string, j: string)
    ensures Find(Touched(v, k), j) == Find(v, j) && Total(Touched(v, k)) == Total(v)
    ensures Find(v, k).Some? ==> Touched(v, k)[0] == Find(v, k).value
  {
    FindKey(v, k);
    TotalWithout(v, k);
    if j != k { FindWithout(v, k, j); }
  }

  lemma FindKey(v: seq<Item>, k: string)
    ensures Find(v, k).Some? ==> Find(v, k).value.key == k
  {
  }

  lemma TotalWithout(v: seq<Item>, k: string)
    ensures Total(Without(v, k)) == Total(v) - match Find(v, k) case None => 0 case Some(e) => |e.data|
  {
    if v == [] || v[0].key == k {
    } else {
      assert Without(v, k)[1..] == Without(v[1..], k);
      TotalWithout(v[1..], k);
    }
  }

  lemma TotalFirst(e: Item, v: seq<Item>)
    ensures Total([e] + v) == |e.data| + Total(v)
  {
    assert ([e] + v)[1..] == v;
  }

  lemma TotalDropLast(v: seq<Item>)
    requires v != []
    ensures Total(v[..|v| - 1]) == Total(v) - |v[|v| - 1].data|
  {
    if |v| <= 1 {
    } else {
      assert v[..|v| - 1][1..] == v[1..][..|v| - 2];
      TotalDropLast(v[1..]);
    }
  }

  // ---------------------------------------------------------------- runs

  datatype Call = Get(key: string) | Put(item: Item)

  function AfterCall(v: seq<Item>, max: int, c: Call): seq<Item> {
    match c
    case Get(k) => Touched(v, k)
    case Put(e) => Stored(v, max, e)
  }

  /** Everything ever put, the most recently used first: used means put, or read while cached. */
  function Used(r: seq<Item>, v: seq<Item>, max: int, c: Call): seq<Item> {
    match c
    case Get(k) => if Find(v, k).Some? then Touched(r, k) else r
    case Put(e) => if Accepts(max, e.data) then [e] + Without(r, e.key) else r
  }

  /** The contents, and the list of everything used, after a run of calls. */
  function AfterRun(v: seq<Item>, r: seq<Item>, max: int, calls: seq<Call>): (seq<Item>, seq<Item>)
    decreases |calls|
  {
    if calls == [] then (v, r)
    else AfterRun(AfterCall(v, max, calls[0]), Used(r, v, max, calls[0]), max, calls[1..])
  }

  lemma {:induction false} WithoutPrefix(v: seq<Item>, r: seq<Item>, k: string)
    requires v <= r
    ensures Without(v, k) <= Without(r, k)
    ensures Find(v, k).Some? ==> Find(r, k) == Find(v, k)
    decreases |v|
  {
    if v == [] {
    } else {
      assert v[0] == r[0] && v[1..] <= r[1..];
      WithoutPrefix(v[1..], r[1..], k);
    }
  }

  /** In every run the cache holds a front part of that list, within the limit: no entry is kept while
      one used more recently is gone. */
  lemma {:induction false} RunKeepsMostRecent(v: seq<Item>, r: seq<Item>, max: int, calls: seq<Call>)
    requires v <= r && Total(v) <= max
    ensures AfterRun(v, r, max, calls).0 <= AfterRun(v, r, max, calls).1
    ensures Total(AfterRun(v, r, max, calls).0) <= max
    decreases |calls|
  {
    if calls == [] {
    } else {
      var c := calls[0];
      match c {
        case Get(k) =>
          WithoutPrefix(v, r, k);
          TouchedSame(v, k, k);
        case Put(e) =>
          WithoutPrefix(v, r, e.key);
          FitLongest([e] + Without(v, e.key), max, |Fit([e] + Without(v, e.key), max)|);
      }
      RunKeepsMostRecent(AfterCall(v, max, c), Used(r, v, max, c), max, calls[1..]);
    }
  }

  // ---------------------------------------------------------------- the heap

  class SegEntry {
    const key: string
    var data: string
    var ct: string

    constructor (key: string, data: string, ct: string)
      ensures this.key == key && this.data == data && this.ct == ct
    {
      this.key, this.data, this.ct := key, data, ct;
    }

    ghost function Value(): Item
      reads this
    {
      Item(key, data, ct)
    }
  }

  ghost function Values(l: seq<SegEntry>): seq<Item>
    reads l
  {
    seq(|l|, i requires 0 <= i < |l| reads l => l[i].Value())
  }

  ghost predicate NonEmpty(l: seq<SegEntry>)
    reads l
  {
    forall i | 0 <= i < |l| :: |l[i].data| > 0
  }

  /** The list and the map hold the same entries, one a key. */
  ghost predicate Linked(l: seq<SegEntry>, m: map<string, SegEntry>) {
    && (forall i, j | 0 <= i < j < |l| :: l[i].key != l[j].key)
    && (forall i | 0 <= i < |l| :: l[i].key in m && m[l[i].key] == l[i])
    && (forall k | k in m :: exists i :: 0 <= i < |l| && l[i].key == k)
  }

  /** `list.MoveToFront` of the entry at i. */
  function Fronted(l: seq<SegEntry>, i: nat): seq<SegEntry>
    requires i < |l|
  {
    [l[i]] + l[..i] + l[i + 1..]
  }

  lemma LinkedFronted(l: seq<SegEntry>, m: map<string, SegEntry>, i: nat)
    requires Linked(l, m) && i < |l|
    ensures Linked(Fronted(l, i), m)
  {
    hide Fronted;
    var f := Fronted(l, i);
    FrontedWas(l, i);
    LinkedRenamed(l, m, f, a => Was(a, i));
    FrontedCovers(l, m, i);
  }

  lemma FrontedWas(l: seq<SegEntry>, i: nat)
    requires i < |l|
    ensures |Fronted(l, i)| == |l|
    ensures forall a | 0 <= a < |l| :: 0 <= Was(a, i) < |l| && Fronted(l, i)[a] == l[Was(a, i)]
    ensures forall a, b | 0 <= a < b < |l| :: Was(a, i) != Was(b, i)
  {
  }

  lemma FrontedCovers(l: seq<SegEntry>, m: map<string, SegEntry>, i: nat)
    requires Linked(l, m) && i < |l|
    ensures forall k | k in m :: exists a :: 0 <= a < |Fronted(l, i)| && Fronted(l, i)[a].key == k
  {
    hide Linked, Fronted;
    var f := Fronted(l, i);
    forall k | k in m ensures exists a :: 0 <= a < |f| && f[a].key == k {
      var j := LinkedAt(l, m, k);
      FrontedAt(l, i, j);
      assert f[if j == i then 0 else if j < i then j + 1 else j] == l[j];
    }
  }

  lemma FrontedAt(l: seq<SegEntry>, i: nat, j: nat)
    requires i < |l| && j < |l|
    ensures |Fronted(l, i)| == |l| && Fronted(l, i)[if j == i then 0 else if j < i then j + 1 else j] == l[j]
  {
  }

  /** Where position a of the new list was in the old one. */
  function Was(a: int, i: nat): int { if a == 0 then i else if a <= i then a - 1 else a }

  lemma LinkedRenamed(l: seq<SegEntry>, m: map<string, SegEntry>, f: seq<SegEntry>, was: int -> int)
    requires Linked(l, m)
    requires forall a | 0 <= a < |f| :: 0 <= was(a) < |l| && f[a] == l[was(a)]
    requires forall a, b | 0 <= a < b < |f| :: was(a) != was(b)
    ensures forall a, b | 0 <= a < b < |f| :: f[a].key != f[b].key
    ensures forall a | 0 <= a < |f| :: f[a].key in m && m[f[a].key] == f[a]
  {
    forall a, b | 0 <= a < b < |f| ensures f[a].key != f[b].key {
      assert was(a) != was(b);
    }
  }

  lemma LinkedPush(l: seq<SegEntry>, m: map<string, SegEntry>, e: SegEntry)
    requires Linked(l, m) && e.key !in m
    ensures Linked([e] + l, m[e.key := e])
  {
    var f, n := [e] + l, m[e.key := e];
    forall k | k in n ensures exists a :: 0 <= a < |f| && f[a].key == k {
      if k == e.key {
        assert f[0].key == k;
      } else {
        var j := LinkedAt(l, m, k);
        assert f[j + 1] == l[j];
      }
    }
  }

  lemma LinkedPop(l: seq<SegEntry>, m: map<string, SegEntry>)
    requires Linked(l, m) && l != []
    ensures Linked(l[..|l| - 1], m - {l[|l| - 1].key})
  {
  }

  lemma LinkedAt(l: seq<SegEntry>, m: map<string, SegEntry>, k: string) returns (i: nat)
    requires Linked(l, m) && k in m
    ensures i < |l| && l[i] == m[k] && m[k].key == k
  {
    i :| 0 <= i < |l| && l[i].key == k;
  }

  lemma LinkedFind(l: seq<SegEntry>, m: map<string, SegEntry>, k: string)
    requires Linked(l, m)
    ensures k in m ==> Find(Values(l), k) == Some(m[k].Value())
    ensures k !in m ==> Find(Values(l), k) == None && Without(Values(l), k) == Values(l)
  {
    if k in m {
      var i := LinkedAt(l, m, k);
      FindAt(Values(l), i);
    } else {
      FindNone(Values(l), k);
    }
  }

  lemma FrontedWithout(l: seq<SegEntry>, m: map<string, SegEntry>, i: nat)
    requires Linked(l, m) && i < |l|
    ensures Values(Fronted(l, i)) == [l[i].Value()] + Without(Values(l), l[i].key)
  {
    WithoutAt(Values(l), i);
  }

  class SegCache {
    const max: int
    var size: int
    var ll: seq<SegEntry>
    var m: map<string, SegEntry>

    /** The map and the list hold the same entries, the size is their length, and within the limit. */
    ghost predicate Valid()
      reads this, ll
    {
      Linked(ll, m) && NonEmpty(ll) && size == Total(View()) && (size <= max || ll == [])
    }

    ghost function View(): seq<Item>
      reads this, ll
    {
      Values(ll)
    }

    constructor (maxBytes: int)
      ensures Valid() && View() == [] && max == maxBytes
    {
      max, size, ll, m := maxBytes, 0, [], map[];
    }

    method MoveToFront(e: SegEntry)
      requires Linked(ll, m) && NonEmpty(ll) && e.key in m && m[e.key] == e
      modifies this`ll
      ensures Linked(ll, m) && NonEmpty(ll) && View() == [e.Value()] + Without(old(View()), e.key)
      ensures forall x | x in ll :: x in old(ll)
    {
      hide Linked, Without;
      var at := LinkedAt(ll, m, e.key);
      var i: nat :| i < |ll| && ll[i] == e;
      LinkedFronted(ll, m, i);
      FrontedWithout(ll, m, i);
      ll := Fronted(ll, i);
    }

    method Get(key: string) returns (data: string, ct: string, ok: bool)
      requires Valid()
      modifies this`ll
      ensures Valid() && View() == Touched(old(View()), key)
      ensures forall x | x in ll :: x in old(ll)
      ensures match Find(old(View()), key)
              case None => !ok
              case Some(e) => ok && data == e.data && ct == e.ct
    {
      hide Linked, Without, Find, Total;
      LinkedFind(ll, m, key);
      TouchedSame(View(), key, key);
      if key !in m { return "", "", false; }
      var el := m[key];
      var at := LinkedAt(ll, m, key);
      MoveToFront(el);
      return el.data, el.ct, true;
    }

    method Put(key: string, data: string, ct: string)
      requires Valid()
      modifies this, ll
      ensures Valid() && View() == Stored(old(View()), max, Item(key, data, ct))
      ensures forall e | e in ll :: e in old(ll) || fresh(e)
      ensures key in old(m) && Accepts(max, data) ==> key in m && m[key] == old(m[key])
    {
      hide Linked, Without, Find, Total, Fit;
      var n := |data|;
      if n == 0 || n > max { return; }
      Insert(key, data, ct);
      Evict();
      StoredReadable(old(View()), max, Item(key, data, ct), key);
      LinkedFind(ll, m, key);
    }

    /** The new entry goes in front; an entry of that name is changed in place. */
    method Insert(key: string, data: string, ct: string)
      requires Valid() && Accepts(max, data)
      modifies this, ll
      ensures Linked(ll, m) && View() == [Item(key, data, ct)] + Without(old(View()), key)
      ensures size == Total(View()) && NonEmpty(ll)
      ensures forall e | e in ll :: e in old(ll) || fresh(e)
      ensures key in m && (key in old(m) ==> m[key] == old(m[key]))
    {
      hide Linked, Without, Find, Total;
      LinkedFind(ll, m, key);
      TotalWithout(View(), key);
      TotalFirst(Item(key, data, ct), Without(View(), key));
      if key in m {
        var e := m[key];
        var at := LinkedAt(ll, m, key);
        size := size + |data| - |e.data|;
        Rewrite(e, data, ct);
      } else {
        var e := new SegEntry(key, data, ct);
        LinkedPush(ll, m, e);
        m := m[key := e];
        ll := [e] + ll;
        assert Values(ll) == [Item(key, data, ct)] + old(View());
        size := size + |data|;
      }
    }

    method Rewrite(e: SegEntry, data: string, ct: string)
      requires Linked(ll, m) && NonEmpty(ll) && e.key in m && m[e.key] == e && e in ll && |data| > 0
      modifies this`ll, e
      ensures Linked(ll, m) && NonEmpty(ll)
      ensures View() == [Item(e.key, data, ct)] + Without(old(View()), e.key)
      ensures forall x | x in ll :: x in old(ll)
    {
      hide Linked, Without;
      var at := LinkedAt(ll, m, e.key);
      ghost var v := View();
      KeysDistinct(ll, m);
      e.data, e.ct := data, ct;
      assert View() == v[at := e.Value()];
      WithoutUpdate(v, at, e.Value());
      MoveToFront(e);
    }

    /** The least recent entries go until the rest fits. */
    method Evict()
      requires Linked(ll, m) && size == Total(View()) && max >= 0 && NonEmpty(ll)
      modifies this
      ensures Valid() && View() == Fit(old(View()), max)
      ensures forall e | e in ll :: e in old(ll)
      ensures forall k | k in m :: k in old(m) && m[k] == old(m[k])
    {
      hide Linked, Total, Fit;
      ghost var u := View();
      FitLongest(u, max, |u|);
      assert u[..|u|] == u;
      while size > max
        invariant Linked(ll, m) && size == Total(View()) && |ll| <= |old(ll)| && ll == old(ll)[..|ll|]
        invariant View() == u[..|ll|] && |Fit(u, max)| <= |ll|
        invariant forall k | k in m :: k in old(m) && m[k] == old(m[k])
        decreases |ll|
      {
        if ll == [] { break; }
        var e := ll[|ll| - 1];
        FitLongest(u, max, |ll|);
        TotalDropLast(View());
        ghost var was := View();
        LinkedPop(ll, m);
        size := size - |e.data|;
        m := m - {e.key};
        ll := ll[..|ll| - 1];
        assert View() == was[..|was| - 1] == u[..|ll|];
      }
      FitLongest(u, max, |ll|);
    }
  }

  lemma KeysDistinct(l: seq<SegEntry>, m: map<string, SegEntry>)
    requires Linked(l, m)
    ensures forall i, j | 0 <= i < j < |l| :: l[i].key != l[j].key && l[i] != l[j]
  {
  }
}
