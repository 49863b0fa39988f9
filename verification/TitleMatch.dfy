/** Finding the metadata entry whose title is nearest to a source's
    (`backend/internal/metadata/metadata.go`). Scores are reals here. */
module TitleMatch {
  import opened Text

  // ---------------------------------------------------------------- normal titles

  predicate IsWordChar(c: char) { 'a' <= c <= 'z' || '0' <= c <= '9' }

  /** The maximal runs of word characters. */
  function Words(s: string): seq<string>
    decreases |s|
  {
    if s == "" then []
    else
      var n := WordLength(s);
      if n == 0 then Words(s[1..]) else [s[..n]] + Words(s[n..])
  }

  function WordLength(s: string): (n: nat)
    ensures n <= |s| && forall i | 0 <= i < n :: IsWordChar(s[i])
    ensures n < |s| ==> !IsWordChar(s[n])
  {
    if s == "" || !IsWordChar(s[0]) then 0 else 1 + WordLength(s[1..])
  }

  const STRIP_WORDS: set<string> := {"vol", "volume", "season", "part", "the", "manga", "novel", "ln"}

  function Kept(words: seq<string>): seq<string> {
    if words == [] then []
    else if words[0] in STRIP_WORDS then Kept(words[1..])
    else [words[0]] + Kept(words[1..])
  }

  function Joined(words: seq<string>): string {
    if words == [] then "" else if |words| == 1 then words[0] else words[0] + " " + Joined(words[1..])
  }

  /** Lower case, without anything but letters and digits, and without the words that say little. */
  function Normal(title: string): string { Joined(Kept(Words(Lower(title)))) }

  method NormalizeTitle(s: string) returns (r: string)
    ensures r == Normal(s)
  {
    var fields := Words(Lower(s));
    var out := [];
    for i := 0 to |fields|
      invariant out + Kept(fields[i..]) == Kept(fields)
    {
      assert fields[i..][1..] == fields[i + 1..];
      if fields[i] in STRIP_WORDS { continue; }
      out := out + [fields[i]];
    }
    assert out + [] == out;
    r := Joined(out);
  }

  predicate IsWord(w: string) { w != "" && forall i | 0 <= i < |w| :: IsWordChar(w[i]) }

  lemma WordsAreWords(s: string)
    ensures forall i | 0 <= i < |Words(s)| :: IsWord(Words(s)[i])
    decreases |s|
  {
    if s == "" {
    } else {
      var n := WordLength(s);
      WordsAreWords(if n == 0 then s[1..] else s[n..]);
    }
  }

  lemma KeptAre(words: seq<string>)
    requires forall i | 0 <= i < |words| :: IsWord(words[i])
    ensures forall i | 0 <= i < |Kept(words)| :: IsWord(Kept(words)[i]) && Kept(words)[i] !in STRIP_WORDS
  {
    if words == [] {
    } else {
      KeptAre(words[1..]);
    }
  }

  lemma KeptAll(words: seq<string>)
    requires forall i | 0 <= i < |words| :: words[i] !in STRIP_WORDS
    ensures Kept(words) == words
  {
    if words == [] {
    } else {
      KeptAll(words[1..]);
    }
  }

  lemma WordThenRest(w: string, rest: string)
    requires IsWord(w) && (rest == "" || !IsWordChar(rest[0]))
    ensures Words(w + rest) == [w] + Words(rest)
  {
    WordLengthIs(w, rest);
    assert (w + rest)[..|w|] == w && (w + rest)[|w|..] == rest;
  }

  lemma WordLengthIs(w: string, rest: string)
    requires (forall i | 0 <= i < |w| :: IsWordChar(w[i])) && (rest == "" || !IsWordChar(rest[0]))
    ensures WordLength(w + rest) == |w|
  {
    hide WordLength, IsWordChar;
    var s := w + rest;
    assert forall i | 0 <= i < |w| :: IsWordChar(s[i]);
    assert rest != "" ==> s[|w|] == rest[0];
  }

  lemma {:induction false} WordsJoined(words: seq<string>)
    requires forall i | 0 <= i < |words| :: IsWord(words[i])
    ensures Words(Joined(words)) == words
    decreases |words|
  {
    if words == [] {
    } else if |words| == 1 {
      WordAlone(words[0]);
    } else {
      hide Words;
      WordsJoined(words[1..]);
      WordAlone(words[0]);
      WordsSplit(words[0], ' ', Joined(words[1..]));
      assert Joined(words) == words[0] + [' '] + Joined(words[1..]);
    }
  }

  lemma LowerJoined(s: string)
    requires forall i | 0 <= i < |s| :: IsWordChar(s[i]) || s[i] == ' '
    ensures Lower(s) == s
  {
    LowerAscii(s);
  }

  lemma JoinedChars(words: seq<string>)
    requires forall i | 0 <= i < |words| :: IsWord(words[i])
    ensures forall i | 0 <= i < |Joined(words)| :: IsWordChar(Joined(words)[i]) || Joined(words)[i] == ' '
  {
    if |words| <= 1 {
    } else {
      JoinedChars(words[1..]);
    }
  }

  /** Words are parted by anything that is no letter or digit, whatever stands on both sides. */
  lemma {:induction false} WordsSplit(a: string, c: char, b: string)
    requires !IsWordChar(c)
    ensures Words(a + [c] + b) == Words(a) + Words(b)
    decreases |a|
  {
    var s := a + [c] + b;
    if a == "" {
      assert s[1..] == b;
      assert WordLength(s) == 0;
    } else {
      var n := WordLength(a);
      WordLengthIs(a[..n], a[n..] + [c] + b);
      assert a[..n] + (a[n..] + [c] + b) == s;
      if n == 0 {
        assert s[1..] == a[1..] + [c] + b;
        WordsSplit(a[1..], c, b);
      } else {
        assert s[n..] == a[n..] + [c] + b && s[..n] == a[..n];
        WordsSplit(a[n..], c, b);
      }
    }
  }

  /** ... and a word alone is one. */
  lemma WordAlone(w: string)
    requires IsWord(w)
    ensures Words(w) == [w] && Words("") == []
  {
    WordThenRest(w, "");
    assert w + "" == w;
  }

  lemma {:induction false} KeptConcat(a: seq<string>, b: seq<string>)
    ensures Kept(a + b) == Kept(a) + Kept(b)
  {
    if a == [] {
      assert a + b == b;
    } else {
      assert (a + b)[1..] == a[1..] + b;
      KeptConcat(a[1..], b);
    }
  }

  /** A word that says little makes no difference to a title, wherever it stands in it. */
  lemma StripWordVanishes(a: string, w: string, b: string)
    requires w in STRIP_WORDS
    ensures Kept(Words(a + [' '] + (w + [' '] + b))) == Kept(Words(a + [' '] + b))
  {
    StripIsWord(w);
    hide Words, IsWord;
    WordsSplit(a, ' ', w + [' '] + b);
    WordsSplit(w, ' ', b);
    WordsSplit(a, ' ', b);
    WordAlone(w);
    KeptConcat(Words(a), [w] + Words(b));
    KeptConcat([w], Words(b));
    KeptConcat(Words(a), Words(b));
    assert Kept([w]) == [];
  }

  lemma StripIsWord(w: string)
    requires w in STRIP_WORDS
    ensures IsWord(w)
  {
  }

  /** A normal title is its own normal title. */
  lemma NormalTwice(title: string)
    ensures Normal(Normal(title)) == Normal(title)
  {
    var ws := Words(Lower(title));
    WordsAreWords(Lower(title));
    KeptAre(ws);
    JoinedChars(Kept(ws));
    LowerJoined(Normal(title));
    WordsJoined(Kept(ws));
    KeptAll(Kept(ws));
  }

  // ---------------------------------------------------------------- bigrams

  /** A pair counts unless it has a space. */
  function PairOf(pair: string): multiset<string> { if ' ' in pair then multiset{} else multiset{pair} }

  /** Pairs of neighbours without a space, with how often they occur. */
  function Grams(s: string): multiset<string> {
    if |s| < 2 then multiset{} else Grams(s[..|s| - 1]) + PairOf(s[|s| - 2..])
  }

  /** Where the pair g stands in s. */
  ghost function Places(s: string, g: string): set<nat> { set i: nat | i < |s| && OccursAt(s, g, i) }

  /** A pair is in the multiset as often as it stands in the string. */
  lemma {:induction false} GramsAre(s: string, g: string)
    requires |g| == 2
    ensures Grams(s)[g] == if ' ' in g then 0 else |Places(s, g)|
  {
    if |s| < 2 {
      assert Places(s, g) == {};
    } else {
      var n := |s| - 1;
      GramsAre(s[..n], g);
      PlacesMore(s, g);
      assert Grams(s) == Grams(s[..n]) + PairOf(s[n - 1..]);
      hide Places, Grams;
    }
  }

  lemma PairHas(pair: string, a: char, b: char)
    requires pair == [a, b]
    ensures ' ' in pair <==> a == ' ' || b == ' '
  {
    assert pair[0] == a && pair[1] == b;
  }

  lemma PlacesMore(s: string, g: string)
    requires |s| >= 2 == |g|
    ensures var n := |s| - 1;
            n - 1 !in Places(s[..n], g)
            && Places(s, g) == Places(s[..n], g) + if s[n - 1..] == g then {n - 1} else {}
  {
    var n := |s| - 1;
    assert s[n - 1..n + 1] == s[n - 1..];
    forall i: nat | i < n - 1 ensures OccursAt(s[..n], g, i) <==> OccursAt(s, g, i) {
      assert s[..n][i..i + 2] == s[i..i + 2];
    }
  }

  /** A table of counts holds a multiset. */
  ghost predicate Counts(m: map<string, nat>, g: multiset<string>) {
    (forall k | k in m :: m[k] > 0 && g[k] == m[k]) && (forall k | k in g :: k in m)
  }

  lemma GramsStep(r: string, i: nat)
    requires i + 1 < |r|
    ensures Grams(r[..i + 2]) ==
            if r[i] == ' ' || r[i + 1] == ' ' then Grams(r[..i + 1]) else Grams(r[..i + 1]) + multiset{r[i..i + 2]}
  {
    assert r[..i + 2][..i + 1] == r[..i + 1];
    assert r[..i + 2][i..] == r[i..i + 2];
    assert Grams(r[..i + 2]) == Grams(r[..i + 1]) + PairOf(r[i..i + 2]);
    hide Grams;
    PairHas(r[i..i + 2], r[i], r[i + 1]);
  }

  lemma GramsShort(r: string)
    requires |r| < 2
    ensures Grams(r) == multiset{}
  {
  }

  lemma CountsAdd(m: map<string, nat>, g: multiset<string>, k: string)
    requires Counts(m, g)
    ensures Counts(m[k := (if k in m then m[k] else 0) + 1], g + multiset{k})
  {
    assert k !in m ==> g[k] == 0;
  }

  method Bigrams(r: string) returns (m: map<string, nat>)
    ensures Counts(m, Grams(r))
  {
    hide Grams, Counts;
    m := map[];
    assert Counts(m, multiset{}) by { CountsNone(); }
    if |r| < 2 { GramsShort(r); } else { GramsShort(r[..1]); }
    var i := 0;
    while i + 1 < |r|
      invariant 0 <= i && (|r| >= 2 ==> i < |r|)
      invariant Counts(m, if |r| < 2 then Grams(r) else Grams(r[..i + 1]))
      decreases |r| - i
    {
      GramsStep(r, i);
      i := i + 1;
      if r[i - 1] == ' ' || r[i] == ' ' { continue; }
      var g := r[i - 1..i + 1];
      CountsAdd(m, Grams(r[..i]), g);
      m := m[g := (if g in m then m[g] else 0) + 1];
    }
    assert |r| >= 2 ==> r[..i + 1] == r;
  }

  lemma CountsNone()
    ensures Counts(map[], multiset{})
  {
  }

  // ---------------------------------------------------------------- dice

  function Dice(a: string, b: string): real {
    if a == b then (if a == "" then 0.0 else 1.0)
    else if |a| < 2 || |b| < 2 then 0.0
    else Quotient(Grams(a), Grams(b))
  }

  /** Twice what two multisets share, out of all they have. */
  function Quotient(a: multiset<string>, b: multiset<string>): real {
    var total := |a| + |b|;
    if total == 0 then 0.0 else 2.0 * |a * b| as real / total as real
  }

  function Min(a: nat, b: nat): nat { if a < b then a else b }

  method DiceCoefficient(a: string, b: string) returns (r: real)
    ensures r == Dice(a, b)
  {
    hide Grams, Counts;
    if a == b {
      if a == "" { return 0.0; }
      return 1.0;
    }
    if |a| < 2 || |b| < 2 { return 0.0; }
    var ba := Bigrams(a);
    var bb := Bigrams(b);
    var inter := Intersect(ba, bb, Grams(a), Grams(b));
    var ta := Sum(ba, Grams(a));
    var tb := Sum(bb, Grams(b));
    var total := ta + tb;
    if total == 0 { return 0.0; }
    r := 2.0 * inter as real / total as real;
  }

  /** The entries of a table may be gone through in any order. */
  method Sum(m: map<string, nat>, ghost g: multiset<string>) returns (total: nat)
    requires Counts(m, g)
    ensures total == |g|
  {
    total := 0;
    var todo := m.Keys;
    ghost var left := g;
    while todo != {}
      invariant todo <= m.Keys && total + |left| == |g|
      invariant forall k :: left[k] == if k in todo then g[k] else 0
      decreases |todo|
    {
      var k :| k in todo;
      total := total + m[k];
      left := left[k := 0];
      todo := todo - {k};
    }
    assert left == multiset{};
  }

  method Intersect(ma: map<string, nat>, mb: map<string, nat>, ghost a: multiset<string>, ghost b: multiset<string>)
    returns (inter: nat)
    requires Counts(ma, a) && Counts(mb, b)
    ensures inter == |a * b|
  {
    inter := 0;
    var todo := ma.Keys;
    ghost var left := a * b;
    while todo != {}
      invariant todo <= ma.Keys && inter + |left| == |a * b|
      invariant forall k :: left[k] == if k in todo then (a * b)[k] else 0
      decreases |todo|
    {
      var k :| k in todo;
      if k in mb { inter := inter + Min(ma[k], mb[k]); }
      assert k !in mb ==> b[k] == 0;
      left := left[k := 0];
      todo := todo - {k};
    }
    assert left == multiset{};
  }

  lemma WholePart(part: multiset<string>, whole: multiset<string>)
    requires part <= whole && |part| == |whole|
    ensures part == whole
  {
    assert whole == part + (whole - part);
    assert |whole - part| == 0;
  }

  lemma Overlap(a: multiset<string>, b: multiset<string>)
    ensures |a * b| <= |a| && |a * b| <= |b| && a * b == b * a
    ensures 2 * |a * b| == |a| + |b| <==> a == b
  {
    assert a == a * b + (a - b) && b == a * b + (b - a);
    if a == b { assert a * b == a; }
    if 2 * |a * b| == |a| + |b| {
      WholePart(a * b, a);
      WholePart(a * b, b);
    }
  }

  lemma Ratio(i: nat, total: nat)
    requires total > 0 && 2 * i <= total
    ensures 0.0 <= 2.0 * i as real / total as real <= 1.0
    ensures 2.0 * i as real / total as real == 1.0 <==> 2 * i == total
  {
    assert 2.0 * i as real == (2 * i) as real;
  }

  lemma GramsNone(s: string)
    ensures |s| < 2 ==> Grams(s) == multiset{}
  {
  }

  lemma QuotientIs(a: multiset<string>, b: multiset<string>)
    ensures Quotient(a, b) == Quotient(b, a) && 0.0 <= Quotient(a, b) <= 1.0
    ensures Quotient(a, b) == 1.0 <==> a == b != multiset{}
  {
    Overlap(a, b);
    if |a| + |b| > 0 { Ratio(|a * b|, |a| + |b|); }
  }

  /** The score is symmetric and between 0 and 1, and 1 for a title and itself; two different titles score 1
      exactly when they have the same bigrams, equally often, and have any. */
  lemma DiceIs(a: string, b: string)
    ensures Dice(a, b) == Dice(b, a)
    ensures 0.0 <= Dice(a, b) <= 1.0
    ensures Dice(a, a) == if a == "" then 0.0 else 1.0
    ensures a != b ==> (Dice(a, b) == 1.0 <==> Grams(a) == Grams(b) != multiset{})
  {
    Overlap(Grams(a), Grams(b));
    GramsNone(a);
    GramsNone(b);
    hide Grams;
    QuotientIs(Grams(a), Grams(b));
  }

  /** The score says how much of all the pairs is shared. */
  lemma DiceShare(a: string, b: string)
    requires a != b
    ensures Dice(a, b) * (|Grams(a)| + |Grams(b)|) as real == 2.0 * |Grams(a) * Grams(b)| as real
  {
    GramsNone(a);
    GramsNone(b);
    hide Grams;
    Overlap(Grams(a), Grams(b));
    var total := |Grams(a)| + |Grams(b)|;
    if |a| >= 2 && |b| >= 2 && total > 0 {
      Share(|Grams(a) * Grams(b)|, total);
    } else if |a| < 2 {
      assert Grams(a) * Grams(b) == multiset{};
    } else if |b| < 2 {
      assert Grams(a) * Grams(b) == multiset{};
    }
  }

  lemma Share(i: nat, total: nat)
    requires total > 0
    ensures 2.0 * i as real / total as real * total as real == 2.0 * i as real
  {
  }

  // ---------------------------------------------------------------- the best candidate

  datatype Candidate = Candidate(titles: seq<string>, startYear: int)

  const NO_CANDIDATE := Candidate([], 0)

  /** The best of the titles' scores, 0 if there is none. */
  function TitleScore(want: string, titles: seq<string>): (r: real)
  {
    if titles == [] then 0.0
    else
      var before := TitleScore(want, titles[..|titles| - 1]);
      var v := Dice(want, Normal(titles[|titles| - 1]));
      if v > before then v else before
  }

  function YearBonus(sourceYear: int, startYear: int): real {
    if sourceYear > 0 && startYear > 0 then
      if sourceYear == startYear then 0.05 else if -1 <= sourceYear - startYear <= 1 then 0.0 else -0.10
    else 0.0
  }

  function Score(want: string, sourceYear: int, c: Candidate): real {
    TitleScore(want, c.titles) + YearBonus(sourceYear, c.startYear)
  }

  function Clamp(x: real): real { if x < 0.0 then 0.0 else if x > 1.0 then 1.0 else x }

  lemma TitleScoreIs(want: string, titles: seq<string>)
    ensures 0.0 <= TitleScore(want, titles) <= 1.0
    ensures forall i | 0 <= i < |titles| :: Dice(want, Normal(titles[i])) <= TitleScore(want, titles)
    ensures TitleScore(want, titles) == 0.0
            || exists i :: 0 <= i < |titles| && Dice(want, Normal(titles[i])) == TitleScore(want, titles)
  {
    hide Dice, Normal;
    if titles == [] {
    } else {
      var rest := titles[..|titles| - 1];
      TitleScoreIs(want, rest);
      DiceIs(want, Normal(titles[|titles| - 1]));
      forall i | 0 <= i < |titles| ensures Dice(want, Normal(titles[i])) <= TitleScore(want, titles) {
        if i < |rest| { assert rest[i] == titles[i]; }
      }
      if TitleScore(want, titles) == TitleScore(want, rest) != 0.0 {
        var i :| 0 <= i < |rest| && Dice(want, Normal(rest[i])) == TitleScore(want, rest);
        assert titles[i] == rest[i];
      } else if TitleScore(want, titles) != 0.0 {
        assert Dice(want, Normal(titles[|titles| - 1])) == TitleScore(want, titles);
      }
    }
  }

  predicate SameYear(year: int, c: Candidate) { year > 0 && c.startYear == year }

  predicate NextYear(year: int, c: Candidate) {
    year > 0 && c.startYear > 0 && (c.startYear == year + 1 || c.startYear == year - 1)
  }

  predicate OtherYear(year: int, c: Candidate) {
    year > 0 && c.startYear > 0 && (c.startYear > year + 1 || c.startYear < year - 1)
  }

  /** Among equal titles the same year beats the years beside it, and those beat all others; a year that is
      not known on both sides counts like one beside. */
  lemma YearsDecide(want: string, year: int, c: Candidate, d: Candidate)
    requires TitleScore(want, c.titles) == TitleScore(want, d.titles)
    ensures SameYear(year, c) && NextYear(year, d) ==> Score(want, year, c) > Score(want, year, d)
    ensures NextYear(year, c) && OtherYear(year, d) ==> Score(want, year, c) > Score(want, year, d)
    ensures SameYear(year, c) && OtherYear(year, d) ==> Score(want, year, c) > Score(want, year, d)
    ensures NextYear(year, c) && (year <= 0 || d.startYear <= 0) ==> Score(want, year, c) == Score(want, year, d)
  {
  }

  /** A same year makes up for a title score up to 0.05 lower, and a distant one costs 0.10. */
  lemma YearsWeigh(want: string, year: int, c: Candidate)
    ensures SameYear(year, c) ==> Score(want, year, c) == TitleScore(want, c.titles) + 0.05
    ensures OtherYear(year, c) ==> Score(want, year, c) == TitleScore(want, c.titles) - 0.10
    ensures !SameYear(year, c) && !OtherYear(year, c) ==> Score(want, year, c) == TitleScore(want, c.titles)
  {
  }

  /** Candidate i is the first with the highest score, of the first n. */
  ghost predicate FirstBest(want: string, year: int, cands: seq<Candidate>, n: nat, i: nat) {
    && i < n <= |cands|
    && (forall j | 0 <= j < n :: Score(want, year, cands[j]) <= Score(want, year, cands[i]))
    && (forall j | 0 <= j < i :: Score(want, year, cands[j]) < Score(want, year, cands[i]))
  }

  lemma FirstBestStep(want: string, year: int, cands: seq<Candidate>, n: nat, at: nat)
    requires n < |cands| && (n > 0 ==> at < n && FirstBest(want, year, cands, n, at))
    ensures Score(want, year, cands[n]) > -1.0
    ensures n == 0 ==> FirstBest(want, year, cands, 1, 0)
    ensures n > 0 ==> FirstBest(want, year, cands, n + 1,
              if Score(want, year, cands[n]) > Score(want, year, cands[at]) then n else at)
  {
    hide Score;
    ScoreAbove(want, year, cands[n]);
  }

  lemma ScoreAbove(want: string, year: int, c: Candidate)
    ensures Score(want, year, c) >= -0.10
  {
    TitleScoreIs(want, c.titles);
  }

  method BestMatch(sourceTitle: string, sourceYear: int, cands: seq<Candidate>)
    returns (best: Candidate, bestScore: real)
    ensures 0.0 <= bestScore <= 1.0
    ensures cands == [] ==> best == NO_CANDIDATE && bestScore == 0.0
    ensures cands != [] ==>
              exists i: nat :: FirstBest(Normal(sourceTitle), sourceYear, cands, |cands|, i) && best == cands[i]
                          && bestScore == Clamp(Score(Normal(sourceTitle), sourceYear, cands[i]))
  {
    hide Score, Normal, FirstBest;
    var want := NormalizeTitle(sourceTitle);
    best, bestScore := NO_CANDIDATE, -1.0;
    ghost var at := 0;
    for n := 0 to |cands|
      invariant n == 0 ==> best == NO_CANDIDATE && bestScore == -1.0
      invariant n > 0 ==> at < n && FirstBest(want, sourceYear, cands, n, at) && best == cands[at]
                          && bestScore == Score(want, sourceYear, cands[at])
    {
      var c := cands[n];
      var s := ScoreOf(want, sourceYear, c);
      FirstBestStep(want, sourceYear, cands, n, at);
      if s > bestScore {
        bestScore, best, at := s, c, n;
      }
    }
    if bestScore < 0.0 { bestScore := 0.0; }
    if bestScore > 1.0 { bestScore := 1.0; }
  }

  method ScoreOf(want: string, sourceYear: int, c: Candidate) returns (s: real)
    ensures s == Score(want, sourceYear, c)
  {
    s := 0.0;
    for i := 0 to |c.titles|
      invariant s == TitleScore(want, c.titles[..i])
    {
      assert c.titles[..i + 1][..i] == c.titles[..i];
      var t := NormalizeTitle(c.titles[i]);
      var v := DiceCoefficient(want, t);
      if v > s { s := v; }
    }
    assert c.titles[..|c.titles|] == c.titles;
    if sourceYear > 0 && c.startYear > 0 {
      var d := sourceYear - c.startYear;
      if d == 0 {
        s := s + 0.05;
      } else if d < -1 || d > 1 {
        s := s - 0.10;
      }
    }
  }
}
