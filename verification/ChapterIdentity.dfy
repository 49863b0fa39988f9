/** Telling a source's chapters apart, and finding them in another list
    (`backend/internal/sync/sync.go`, `backend/internal/chapternum/chapternum.go`). */
module ChapterIdentity {
  import opened Text

  /** A chapter as a source lists it; `number` is not positive when the source has none. */
  datatype Listed = Listed(id: string, name: string, number: real)

  /** ... with its number settled, in hundredths. */
  datatype Summary = Summary(id: string, name: string, number: int)

  datatype Chapter = Chapter(id: string, title: string, number: int, scanlator: string)

  /** What is read out of titles: a number in hundredths (0 for none), and the cleaned-up text. */
  datatype Titles = Titles(number: string -> nat, base: string -> string)

  /** `chapternum.Round`: to the nearest hundredth, halves away from zero. */
  function Round(x: real): int {
    if x >= 0.0 then (x * 100.0 + 0.5).Floor else -((-x * 100.0 + 0.5).Floor)
  }

  /** `chapternum.Resolve`. */
  function Resolve(x: real, title: string, ts: Titles): nat {
    if x > 0.0 then Round(x) else ts.number(title)
  }

  function Settled(l: Listed, ts: Titles): Summary { Summary(l.id, l.name, Resolve(l.number, l.name, ts)) }

  // ---------------------------------------------------------------- groups

  /** `strconv.FormatFloat(n, 'f', 4, 64)` of a number in hundredths. */
  function FormatNumber(n: nat): string {
    Digits(n / 100) + "." + Digits(n % 100 / 10) + Digits(n % 10) + "00"
  }

  function ChapterGroupKey(s: Summary, ts: Titles): string {
    if s.number > 0 then "n:" + FormatNumber(s.number)
    else if ts.base(s.name) == "" then "i:" + s.id
    else "t:" + ts.base(s.name)
  }

  function Keys(list: seq<Summary>, ts: Titles): (keys: seq<string>)
    ensures |keys| == |list|
    ensures forall i | 0 <= i < |list| :: keys[i] == ChapterGroupKey(list[i], ts)
  {
    seq(|list|, i requires 0 <= i < |list| => ChapterGroupKey(list[i], ts))
  }

  lemma OneDigit(d: nat)
    requires d < 10
    ensures |Digits(d)| == 1
  {
  }

  lemma FormatParts(n: nat)
    ensures var f := FormatNumber(n);
            && |f| >= 5 && f[..|f| - 5] == Digits(n / 100)
            && f[|f| - 4..|f| - 3] == Digits(n % 100 / 10) && f[|f| - 3..|f| - 2] == Digits(n % 10)
  {
    OneDigit(n % 100 / 10);
    OneDigit(n % 10);
    hide Digits;
  }

  lemma FormatInjective(m: nat, n: nat)
    requires FormatNumber(m) == FormatNumber(n)
    ensures m == n
  {
    FormatParts(m);
    FormatParts(n);
    hide Digits, FormatNumber;
    SameDigits(m / 100, n / 100);
    SameDigits(m % 100 / 10, n % 100 / 10);
    SameDigits(m % 10, n % 10);
    Decimal(m);
    Decimal(n);
  }

  lemma Decimal(n: nat)
    ensures n == 100 * (n / 100) + 10 * (n % 100 / 10) + n % 10
  {
    assert n % 100 % 10 == n % 10;
  }

  lemma SameDigits(a: nat, b: nat)
    requires Digits(a) == Digits(b)
    ensures a == b
  {
    ItoaInjective(a, b);
  }

  /** Two chapters are one group exactly when they have the same number, or neither has one and their titles
      are the same text, or they are the same chapter. */
  lemma SameGroup(a: Summary, b: Summary, ts: Titles)
    ensures ChapterGroupKey(a, ts) == ChapterGroupKey(b, ts) <==>
            if a.number > 0 then a.number == b.number
            else b.number <= 0 && ts.base(a.name) == ts.base(b.name) && (ts.base(a.name) == "" ==> a.id == b.id)
  {
    hide FormatNumber;
    var k, l := ChapterGroupKey(a, ts), ChapterGroupKey(b, ts);
    assert k[0] == (if a.number > 0 then 'n' else if ts.base(a.name) == "" then 'i' else 't');
    assert l[0] == (if b.number > 0 then 'n' else if ts.base(b.name) == "" then 'i' else 't');
    if k == l {
      assert k[2..] == (if a.number > 0 then FormatNumber(a.number) else if ts.base(a.name) == "" then a.id
                        else ts.base(a.name));
      assert l[2..] == (if b.number > 0 then FormatNumber(b.number) else if ts.base(b.name) == "" then b.id
                        else ts.base(b.name));
      if a.number > 0 { FormatInjective(a.number, b.number); }
    }
  }

  /** A rounded number is the nearest hundredth, the one further from 0 of two. */
  lemma RoundIs(x: real)
    ensures -0.5 <= Round(x) as real - x * 100.0 <= 0.5
    ensures x >= 0.0 ==> Round(x) as real - x * 100.0 > -0.5
    ensures x <= 0.0 ==> Round(x) as real - x * 100.0 < 0.5
  {
  }

  // ---------------------------------------------------------------- scanlators

  /** How many of the keys are k. */
  function Count(keys: seq<string>, k: string): nat {
    if keys == [] then 0
    else Count(keys[..|keys| - 1], k) + if keys[|keys| - 1] == k then 1 else 0
  }

  /** A chapter alone in its group has none; the others are numbered from 1 in list order. */
  function Scanlator(keys: seq<string>, i: nat): string
    requires i < |keys|
  {
    if Count(keys, keys[i]) < 2 then "" else Itoa(Count(keys[..i], keys[i]) + 1)
  }

  /** The positions of key k, in order. */
  function Positions(keys: seq<string>, k: string): seq<nat> {
    if keys == [] then []
    else Positions(keys[..|keys| - 1], k) + if keys[|keys| - 1] == k then [|keys| - 1] else []
  }

  lemma NoPositions()
    ensures forall k :: Positions([], k) == []
  {
  }

  lemma PositionsStep(keys: seq<string>, i: nat)
    requires i < |keys|
    ensures forall k :: k != keys[i] ==> Positions(keys[..i + 1], k) == Positions(keys[..i], k)
    ensures Positions(keys[..i + 1], keys[i]) == Positions(keys[..i], keys[i]) + [i]
  {
    assert keys[..i + 1][..i] == keys[..i];
  }

  lemma PositionsAre(keys: seq<string>, k: string)
    ensures |Positions(keys, k)| == Count(keys, k)
    ensures forall p | 0 <= p < |Positions(keys, k)| ::
              var i := Positions(keys, k)[p]; i < |keys| && keys[i] == k && Count(keys[..i], k) == p
  {
    if keys == [] {
    } else {
      var rest := keys[..|keys| - 1];
      PositionsAre(rest, k);
      forall p | 0 <= p < |Positions(rest, k)|
        ensures var i := Positions(rest, k)[p]; i < |keys| && keys[i] == k && Count(keys[..i], k) == p
      {
        var i := Positions(rest, k)[p];
        assert keys[..i] == rest[..i];
      }
    }
  }

  lemma CountMonotone(keys: seq<string>, i: nat, j: nat, k: string)
    requires i <= j <= |keys|
    ensures Count(keys[..i], k) <= Count(keys[..j], k)
    ensures i < j && keys[i] == k ==> Count(keys[..i], k) < Count(keys[..j], k)
    decreases j - i
  {
    if i >= j {
    } else {
      CountMonotone(keys, i, j - 1, k);
      assert keys[..j][..j - 1] == keys[..j - 1];
    }
  }

  /** Earlier chapters of the group are counted before later ones, and all before the whole. */
  lemma Counted(keys: seq<string>, i: nat, j: nat)
    requires i < |keys| && j < |keys| && keys[i] == keys[j]
    ensures Count(keys[..i], keys[i]) < Count(keys, keys[i])
    ensures i < j ==> Count(keys[..i], keys[i]) < Count(keys[..j], keys[j])
  {
    assert keys[..|keys|] == keys;
    CountMonotone(keys, i, |keys|, keys[i]);
    if i < j { CountMonotone(keys, i, j, keys[i]); }
  }

  /** Group key and scanlator tell all chapters of a list apart. */
  lemma ScanlatorsApart(keys: seq<string>, i: nat, j: nat)
    requires i < j < |keys| && keys[i] == keys[j]
    ensures Scanlator(keys, i) != Scanlator(keys, j)
  {
    Counted(keys, i, j);
    Counted(keys, j, i);
    if Scanlator(keys, i) == Scanlator(keys, j) {
      ItoaInjective(Count(keys[..i], keys[i]) + 1, Count(keys[..j], keys[j]) + 1);
    }
  }

  /** The positions of a group are all of its chapters, in list order. */
  lemma {:induction false} PositionsExactly(keys: seq<string>, k: string)
    ensures Listing(keys, k, Positions(keys, k))
  {
    hide Listing;
    if keys == [] {
      NothingListed(k);
    } else {
      var n := |keys| - 1;
      PositionsExactly(keys[..n], k);
      ListingMore(keys, k, Positions(keys[..n], k));
    }
  }

  /** ps are the positions of k, each once and in order. */
  ghost predicate Listing(keys: seq<string>, k: string, ps: seq<nat>) {
    && (forall p, q | 0 <= p < q < |ps| :: ps[p] < ps[q])
    && (forall p | 0 <= p < |ps| :: ps[p] < |keys| && keys[ps[p]] == k)
    && forall i: nat | i < |keys| && keys[i] == k :: i in ps
  }

  lemma NothingListed(k: string)
    ensures Listing([], k, [])
  {
  }

  lemma ListingMore(keys: seq<string>, k: string, ps: seq<nat>)
    requires keys != [] && Listing(keys[..|keys| - 1], k, ps)
    ensures Listing(keys, k, ps + if keys[|keys| - 1] == k then [|keys| - 1] else [])
  {
    var n := |keys| - 1;
    forall i: nat | i < n && keys[i] == k ensures i in ps { assert keys[..n][i] == k; }
    forall p | 0 <= p < |ps| ensures ps[p] < n && keys[ps[p]] == k { assert keys[..n][ps[p]] == k; }
  }

  /** A group of one has no scanlator, and a group of n has 1 to n, in list order. */
  lemma GroupNumbered(keys: seq<string>, k: string)
    ensures var ps := Positions(keys, k);
            forall p | 0 <= p < |ps| ::
              ps[p] < |keys| && Scanlator(keys, ps[p]) == if |ps| == 1 then "" else Itoa(p + 1)
  {
    PositionsAre(keys, k);
  }

  /** `deriveScanlators`. The groups may be gone through in any order. */
  method DeriveScanlators(list: seq<Summary>, ts: Titles) returns (out: seq<string>)
    ensures |out| == |list|
    ensures forall i | 0 <= i < |list| :: out[i] == Scanlator(Keys(list, ts), i)
  {
    var groups := GroupPositions(list, ts);
    ghost var keys := Keys(list, ts);
    var a := new string[|list|](_ => "");
    var todo := groups.Keys;
    while todo != {}
      invariant todo <= groups.Keys
      invariant forall i | 0 <= i < |list| :: a[i] == if keys[i] in todo then "" else Scanlator(keys, i)
      decreases |todo|
    {
      var k :| k in todo;
      NumberGroup(a, keys, k, groups[k]);
      todo := todo - {k};
    }
    out := a[..];
  }

  method GroupPositions(list: seq<Summary>, ts: Titles) returns (groups: map<string, seq<nat>>)
    ensures forall k | k in groups :: groups[k] == Positions(Keys(list, ts), k)
    ensures forall i | 0 <= i < |list| :: Keys(list, ts)[i] in groups
  {
    hide ChapterGroupKey, Positions;
    ghost var keys := Keys(list, ts);
    groups := map[];
    NoPositions();
    for i := 0 to |list|
      invariant forall k | k in groups :: groups[k] == Positions(keys[..i], k)
      invariant forall k | k !in groups :: Positions(keys[..i], k) == []
      invariant forall j | 0 <= j < i :: keys[j] in groups
    {
      var k := ChapterGroupKey(list[i], ts);
      PositionsStep(keys, i);
      groups := groups[k := (if k in groups then groups[k] else []) + [i]];
    }
    assert keys[..|list|] == keys;
  }

  /** The scanlators of one group. */
  method NumberGroup(a: array<string>, ghost keys: seq<string>, k: string, idxs: seq<nat>)
    requires a.Length == |keys| && idxs == Positions(keys, k)
    requires forall i | 0 <= i < |keys| && keys[i] == k :: a[i] == ""
    modifies a
    ensures forall i | 0 <= i < |keys| :: a[i] == if keys[i] == k then Scanlator(keys, i) else old(a[i])
  {
    hide Itoa, Positions, Count;
    PositionsAre(keys, k);
    forall i, j | 0 <= i < |keys| && 0 <= j < |keys| && keys[i] == keys[j] == k
      ensures Count(keys[..i], k) < |idxs|
      ensures Count(keys[..i], k) == Count(keys[..j], k) ==> i == j
    {
      Counted(keys, i, j);
      Counted(keys, j, i);
    }
    if |idxs| < 2 { return; }
    for pos := 0 to |idxs|
      invariant forall i | 0 <= i < |keys| && keys[i] != k :: a[i] == old(a[i])
      invariant forall i | 0 <= i < |keys| && keys[i] == k ::
                  a[i] == if Count(keys[..i], k) < pos then Itoa(Count(keys[..i], k) + 1) else ""
    {
      a[idxs[pos]] := Itoa(pos + 1);
    }
  }

  // ---------------------------------------------------------------- the matcher

  /** `chapterNumber`: the row's own number, or else the one in its title. */
  function ChapterNumber(ch: Chapter, ts: Titles): int {
    if ch.number > 0 then ch.number else if ch.title != "" then ts.number(ch.title) else 0
  }

  function FirstWith(chapters: seq<Chapter>, ts: Titles, n: int): Option<Chapter> {
    if chapters == [] then None
    else match FirstWith(chapters[..|chapters| - 1], ts, n)
         case Some(c) => Some(c)
         case None => if ChapterNumber(chapters[|chapters| - 1], ts) == n then Some(chapters[|chapters| - 1]) else None
  }

  function LastWith(chapters: seq<Chapter>, ts: Titles, n: int, scanlator: string): Option<Chapter> {
    if chapters == [] then None
    else
      var c := chapters[|chapters| - 1];
      if ChapterNumber(c, ts) == n && c.scanlator == scanlator then Some(c)
      else LastWith(chapters[..|chapters| - 1], ts, n, scanlator)
  }

  /** The last chapter of that number by that scanlator; failing that, the first of that number. */
  function Matched(chapters: seq<Chapter>, ts: Titles, o: Chapter): Option<Chapter> {
    var n := ChapterNumber(o, ts);
    if n <= 0 then None
    else if LastWith(chapters, ts, n, o.scanlator).Some? then LastWith(chapters, ts, n, o.scanlator)
    else FirstWith(chapters, ts, n)
  }

  datatype Matcher = Matcher(byNumScan: map<(int, string), Chapter>, byNum: map<int, Chapter>) {
    /** The closure `chapterMatcher` returns. */
    function Match(o: Chapter, ts: Titles): Option<Chapter> {
      var n := ChapterNumber(o, ts);
      if n <= 0 then None
      else if (n, o.scanlator) in byNumScan then Some(byNumScan[(n, o.scanlator)])
      else if n in byNum then Some(byNum[n])
      else None
    }
  }

  method ChapterMatcher(chapters: seq<Chapter>, ts: Titles) returns (m: Matcher)
    ensures forall o :: m.Match(o, ts) == Matched(chapters, ts, o)
  {
    m := Matcher(map[], map[]);
    for i := 0 to |chapters|
      invariant forall n, scan | n > 0 :: LastWith(chapters[..i], ts, n, scan)
                  == if (n, scan) in m.byNumScan then Some(m.byNumScan[(n, scan)]) else None
      invariant forall n | n > 0 :: FirstWith(chapters[..i], ts, n) == if n in m.byNum then Some(m.byNum[n]) else None
    {
      assert chapters[..i + 1][..i] == chapters[..i];
      var ch := chapters[i];
      var n := ChapterNumber(ch, ts);
      if n <= 0 { continue; }
      if n !in m.byNum { m := m.(byNum := m.byNum[n := ch]); }
      m := m.(byNumScan := m.byNumScan[(n, ch.scanlator) := ch]);
    }
    assert chapters[..|chapters|] == chapters;
  }

  lemma FirstWithIs(chapters: seq<Chapter>, ts: Titles, n: int)
    ensures match FirstWith(chapters, ts, n)
            case Some(c) => exists i: nat :: FirstAt(chapters, ts, n, i) && chapters[i] == c
            case None => forall c | c in chapters :: ChapterNumber(c, ts) != n
  {
    if chapters == [] {
    } else {
      hide ChapterNumber;
      var m := |chapters| - 1;
      FirstWithIs(chapters[..m], ts, n);
      assert forall j | 0 <= j < m :: chapters[..m][j] == chapters[j];
      if FirstWith(chapters[..m], ts, n).Some? {
        var i: nat :| FirstAt(chapters[..m], ts, n, i) && chapters[..m][i] == FirstWith(chapters[..m], ts, n).value;
        assert FirstAt(chapters, ts, n, i);
      } else if ChapterNumber(chapters[m], ts) == n {
        assert forall j | 0 <= j < m :: chapters[j] in chapters[..m];
        assert FirstAt(chapters, ts, n, m);
      }
    }
  }

  /** Chapter i has the number, and no earlier one. */
  ghost predicate FirstAt(chapters: seq<Chapter>, ts: Titles, n: int, i: nat) {
    i < |chapters| && ChapterNumber(chapters[i], ts) == n
    && forall j | 0 <= j < i :: ChapterNumber(chapters[j], ts) != n
  }

  /** Chapter i has the number and the scanlator, and no later one. */
  ghost predicate LastAt(chapters: seq<Chapter>, ts: Titles, n: int, scanlator: string, i: nat) {
    i < |chapters| && ChapterNumber(chapters[i], ts) == n && chapters[i].scanlator == scanlator
    && forall j | i < j < |chapters| :: !(ChapterNumber(chapters[j], ts) == n && chapters[j].scanlator == scanlator)
  }

  lemma LastWithIs(chapters: seq<Chapter>, ts: Titles, n: int, scanlator: string)
    ensures match LastWith(chapters, ts, n, scanlator)
            case Some(c) => exists i: nat :: LastAt(chapters, ts, n, scanlator, i) && chapters[i] == c
            case None => forall c | c in chapters :: !(ChapterNumber(c, ts) == n && c.scanlator == scanlator)
  {
    if chapters == [] {
    } else {
      hide ChapterNumber;
      var m := |chapters| - 1;
      LastWithIs(chapters[..m], ts, n, scanlator);
      assert forall j | 0 <= j < m :: chapters[..m][j] == chapters[j];
      if ChapterNumber(chapters[m], ts) == n && chapters[m].scanlator == scanlator {
        assert LastAt(chapters, ts, n, scanlator, m);
      } else if LastWith(chapters[..m], ts, n, scanlator).Some? {
        var i: nat :| LastAt(chapters[..m], ts, n, scanlator, i)
                 && chapters[..m][i] == LastWith(chapters[..m], ts, n, scanlator).value;
        assert LastAt(chapters, ts, n, scanlator, i);
      }
    }
  }

  /** A match is the last chapter of that number and scanlator, or, if there is none, the first of that
      number; there is none exactly when no chapter has the number. */
  lemma MatchedIs(chapters: seq<Chapter>, ts: Titles, o: Chapter)
    ensures var n := ChapterNumber(o, ts);
            match Matched(chapters, ts, o)
            case None => n <= 0 || forall c | c in chapters :: ChapterNumber(c, ts) != n
            case Some(m) =>
              n > 0 && if exists c :: c in chapters && ChapterNumber(c, ts) == n && c.scanlator == o.scanlator
                       then exists i: nat :: LastAt(chapters, ts, n, o.scanlator, i) && chapters[i] == m
                       else exists i: nat :: FirstAt(chapters, ts, n, i) && chapters[i] == m
  {
    hide FirstWith, LastWith;
    FirstWithIs(chapters, ts, ChapterNumber(o, ts));
    LastWithIs(chapters, ts, ChapterNumber(o, ts), o.scanlator);
  }

  /** A chapter's own number counts first, then the one in its title; without both it matches nothing. */
  lemma NumberIs(chapters: seq<Chapter>, ts: Titles, o: Chapter)
    ensures o.number > 0 ==> ChapterNumber(o, ts) == o.number
    ensures o.number <= 0 && o.title != "" ==> ChapterNumber(o, ts) == ts.number(o.title)
    ensures o.number <= 0 && (o.title == "" || ts.number(o.title) == 0) ==> Matched(chapters, ts, o) == None
  {
  }

  ghost predicate DistinctIds(chapters: seq<Chapter>) {
    forall i, j | 0 <= i < j < |chapters| :: chapters[i].id != chapters[j].id
  }

  /** Chapters i and j cannot be told apart by number and scanlator. */
  ghost predicate Clash(chapters: seq<Chapter>, ts: Titles, i: nat, j: nat)
    requires i < |chapters| && j < |chapters|
  {
    ChapterNumber(chapters[i], ts) == ChapterNumber(chapters[j], ts) && chapters[i].scanlator == chapters[j].scanlator
  }

  /** A numbered chapter of the list matches itself exactly when no later one clashes with it. */
  lemma {:induction false} MatchesSelfExactly(chapters: seq<Chapter>, ts: Titles, i: nat)
    requires i < |chapters| && DistinctIds(chapters) && ChapterNumber(chapters[i], ts) > 0
    ensures Matched(chapters, ts, chapters[i]) == Some(chapters[i])
            <==> forall j | i < j < |chapters| :: !Clash(chapters, ts, i, j)
    decreases |chapters|
  {
    hide ChapterNumber, FirstWith;
    var last := |chapters| - 1;
    var rest := chapters[..last];
    if i < last && !Clash(chapters, ts, i, last) {
      MatchesSelfExactly(rest, ts, i);
      assert forall j | i < j < last :: Clash(rest, ts, i, j) == Clash(chapters, ts, i, j);
      LastWithIs(rest, ts, ChapterNumber(chapters[i], ts), chapters[i].scanlator);
      assert rest[i] == chapters[i];
    } else if i < last {
      assert Clash(chapters, ts, i, last);
      assert Matched(chapters, ts, chapters[i]) == Some(chapters[last]);
    }
  }

  // ---------------------------------------------------------------- synced lists

  /** The rows one sync of a source's list writes. */
  ghost function Rows(list: seq<Listed>, ts: Titles): (rows: seq<Chapter>)
    ensures |rows| == |list|
    ensures var keys := Keys(AllSettled(list, ts), ts);
            forall i | 0 <= i < |list| ::
              rows[i] == Chapter(list[i].id, list[i].name, Settled(list[i], ts).number, Scanlator(keys, i))
  {
    var keys := Keys(AllSettled(list, ts), ts);
    seq(|list|, i requires 0 <= i < |list| =>
      Chapter(list[i].id, list[i].name, Settled(list[i], ts).number, Scanlator(keys, i)))
  }

  function AllSettled(list: seq<Listed>, ts: Titles): (s: seq<Summary>)
    ensures |s| == |list| && forall i | 0 <= i < |list| :: s[i] == Settled(list[i], ts)
  {
    seq(|list|, i requires 0 <= i < |list| => Settled(list[i], ts))
  }

  /** A number the source gives, but that is rounded to none. */
  predicate Tiny(l: Listed) { l.number > 0.0 && Round(l.number) <= 0 }

  lemma StoredNumber(list: seq<Listed>, ts: Titles, i: nat)
    requires i < |list| && !Tiny(list[i])
    ensures ChapterNumber(Rows(list, ts)[i], ts) == Rows(list, ts)[i].number
  {
  }

  /** In a freshly synced list a numbered chapter finds itself exactly when no later one clashes with
      it; and only a tiny number, its own or the other's, makes two clash. */
  lemma SyncedMatchesExactly(list: seq<Listed>, ts: Titles, i: nat)
    requires forall a, b | 0 <= a < b < |list| :: list[a].id != list[b].id
    requires i < |list| && ChapterNumber(Rows(list, ts)[i], ts) > 0
    ensures Matched(Rows(list, ts), ts, Rows(list, ts)[i]) == Some(Rows(list, ts)[i])
            <==> forall j | i < j < |list| && (Tiny(list[i]) || Tiny(list[j])) :: !Clash(Rows(list, ts), ts, i, j)
  {
    var rows, keys := Rows(list, ts), Keys(AllSettled(list, ts), ts);
    forall j | i < j < |rows| && !Tiny(list[i]) && !Tiny(list[j]) ensures !Clash(rows, ts, i, j) {
      StoredNumber(list, ts, i);
      StoredNumber(list, ts, j);
      if rows[i].number == rows[j].number { ScanlatorsApart(keys, i, j); }
    }
    MatchesSelfExactly(rows, ts, i);
  }

  /** So a list without tiny numbers is matched onto itself. */
  lemma SyncedMatchesSelf(list: seq<Listed>, ts: Titles)
    requires forall a, b | 0 <= a < b < |list| :: list[a].id != list[b].id
    requires forall i | 0 <= i < |list| :: !Tiny(list[i])
    ensures forall i | 0 <= i < |list| && ChapterNumber(Rows(list, ts)[i], ts) > 0 ::
              Matched(Rows(list, ts), ts, Rows(list, ts)[i]) == Some(Rows(list, ts)[i])
  {
    forall i | 0 <= i < |list| && ChapterNumber(Rows(list, ts)[i], ts) > 0
      ensures Matched(Rows(list, ts), ts, Rows(list, ts)[i]) == Some(Rows(list, ts)[i])
    {
      SyncedMatchesExactly(list, ts, i);
    }
  }

  lemma PairAlone(keys: seq<string>)
    requires |keys| == 2 && keys[0] != keys[1]
    ensures Scanlator(keys, 0) == Scanlator(keys, 1) == ""
  {
    assert keys[..1] == [keys[0]];
    assert Count(keys, keys[0]) == Count(keys[..1], keys[0]) == 1;
    assert Count(keys, keys[1]) == Count(keys[..1], keys[1]) + 1 == 1;
  }

  /** Below 0.005 a source's number is rounded to none and the title's is used when matching, but not
      when grouping: then a chapter can be matched to another of the same list. */
  lemma TinyNumberClashes()
    ensures var ts := Titles(t => 500, t => t);
            var list := [Listed("a", "Chapter 5", 5.0), Listed("b", "Chapter 5", 0.001)];
            Tiny(list[1]) && Matched(Rows(list, ts), ts, Rows(list, ts)[0]) == Some(Rows(list, ts)[1])
  {
    var ts := Titles(t => 500, t => t);
    var list := [Listed("a", "Chapter 5", 5.0), Listed("b", "Chapter 5", 0.001)];
    assert Round(list[0].number) == 500 && Round(list[1].number) == 0;
    var keys := Keys(AllSettled(list, ts), ts);
    assert keys[0][0] == 'n' && keys[1][0] == 't';
    PairAlone(keys);
    var rows := Rows(list, ts);
    assert Clash(rows, ts, 0, 1);
    assert Matched(rows, ts, rows[0]) == Some(rows[1]);
  }
}
