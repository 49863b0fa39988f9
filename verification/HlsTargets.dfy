/** What a player gets from a rewritten playlist: every reference, decoded the way the proxy decodes
    it, is the resolved reference of the original, ads left out. */
module HlsTargets {
  import opened Text
  import opened LineFilter
  import opened HlsPlaylist
  import B = Base64Url

  /** The URL `serveHLS` reads back from a proxied reference. */
  function DecodeTarget(ref: string): Option<string> {
    match CutPrefix(ref, "hls?")
    case None => None
    case Some(query) => B.Decode(B.Param(query, "u"))
  }

  predicate IsReference(line: string) {
    var t := TrimSpace(line);
    t != "" && !HasPrefix(t, "#")
  }

  function TargetOf(line: string): seq<Option<string>> {
    if IsReference(line) then [DecodeTarget(TrimSpace(line))] else []
  }

  function ContentOf(p: Proxy, line: string): seq<Option<string>> {
    if Classify(p, line) == Uri then [Some(p.Resolve(TrimSpace(line)))] else []
  }

  function Flat<T>(xs: seq<seq<T>>): seq<T> {
    if xs == [] then [] else Flat(xs[..|xs| - 1]) + xs[|xs| - 1]
  }

  /** The decoded references of a playlist's lines, in order. */
  function Targets(lines: seq<string>): seq<Option<string>> {
    Flat(seq(|lines|, i requires 0 <= i < |lines| => TargetOf(lines[i])))
  }

  /** The resolved references of a playlist's lines that are no ads, in order. */
  function Contents(p: Proxy, lines: seq<string>): seq<seq<Option<string>>> {
    seq(|lines|, i requires 0 <= i < |lines| => ContentOf(p, lines[i]))
  }

  /** URLs are bytes, and the header parameter is encoded text or empty. */
  ghost predicate Encoded(p: Proxy) {
    && B.Alphabet(p.headers)
    && (p.base.Base? ==> IsBytes(p.base.scheme) && IsBytes(p.base.host) && IsBytes(p.base.path))
    && forall ref :: p.parse(ref).Some? ==> IsBytes(p.parse(ref).value)
  }

  // ---------------------------------------------------------------- what a reference stands for

  /** The directory of a path: all up to its last slash, or "/" when it has none. */
  ghost predicate IsDirectory(d: string, path: string) {
    if '/' in path then d <= path && d != "" && d[|d| - 1] == '/' && '/' !in path[|d|..] else d == "/"
  }

  /** A reference that is a path below the playlist's directory. */
  ghost predicate Plain(ref: string) {
    !Occurs(ref, "://") && !("/" <= ref) && !Occurs(ref, "../") && !Occurs(ref, "./")
  }

  ghost predicate ResolvesTo(p: Proxy, ref: string, abs: string) {
    if p.base.NoBase? then abs == ref
    else if Plain(ref) then
      exists d | IsDirectory(d, p.base.path) :: abs == p.base.scheme + "://" + p.base.host + d + ref
    else abs == if p.parse(ref).Some? then p.parse(ref).value else ref
  }

  lemma Within(s: string, lo: nat, hi: nat, i: nat)
    requires lo <= hi <= |s| && i < |s|
    ensures lo <= i < hi ==> s[i] in s[lo..hi]
  {
    if lo <= i < hi { assert s[lo..hi][i - lo] == s[i]; }
  }

  lemma DirectoryFound(path: string)
    ensures var i := LastIndexOf(path, '/');
            forall d :: IsDirectory(d, path) <==> d == if i >= 0 then path[..i + 1] else "/"
  {
    hide LastIndexOf;
    var i := LastIndexOf(path, '/');
    forall d | IsDirectory(d, path) ensures d == if i >= 0 then path[..i + 1] else "/" {
      if i >= 0 {
        assert path[|d| - 1] == '/';
        Within(path, |d|, |path|, i);
      }
    }
    if i >= 0 { assert IsDirectory(path[..i + 1], path); }
  }

  /** Every reference stands for one URL, and that is the one used. */
  lemma Resolves(p: Proxy, ref: string)
    ensures forall abs :: ResolvesTo(p, ref, abs) <==> abs == p.Resolve(ref)
  {
    hide LastIndexOf, Contains, Occurs, IsDirectory;
    ContainsExactly(ref, "://");
    ContainsExactly(ref, "../");
    ContainsExactly(ref, "./");
    if p.base.Base? {
      DirectoryFound(p.base.path);
      var i := LastIndexOf(p.base.path, '/');
      var d := if i >= 0 then p.base.path[..i + 1] else "/";
      assert IsDirectory(d, p.base.path);
    }
  }

  ghost predicate AdUrl(url: string) { exists i | 0 <= i < |AD_MARKS| :: Occurs(Lower(url), AD_MARKS[i]) }

  lemma AdExactly(url: string)
    ensures IsAdSegment(url) <==> AdUrl(url)
  {
    hide Lower, Occurs, Contains;
    forall i | 0 <= i < |AD_MARKS| ensures Contains(Lower(url), AD_MARKS[i]) <==> Occurs(Lower(url), AD_MARKS[i]) {
      ContainsExactly(Lower(url), AD_MARKS[i]);
    }
  }

  /** The first URI attribute of a line: nothing but its text up to the next quote, and no attribute
      before it. */
  ghost predicate FirstUri(line: string, lo: nat, hi: nat) {
    && 5 <= lo <= hi < |line| && line[lo - 5..lo] == "URI=\"" && line[hi] == '"' && '"' !in line[lo..hi]
    && forall k | 0 <= k < lo - 5 :: !OccursAt(line, "URI=\"", k)
  }

  lemma UriExactly(line: string)
    ensures forall lo: nat, hi: nat :: UriAttribute(line) == Some((lo, hi)) <==> FirstUri(line, lo, hi)
  {
    hide IndexFrom;
    IndexFromFirst(line, "URI=\"", 0);
    var i := IndexFrom(line, "URI=\"", 0);
    if i >= 0 {
      IndexFromFirst(line, "\"", i + 5);
      var j := IndexFrom(line, "\"", i + 5);
      forall k: nat | i + 5 <= k < |line| && line[k] == '"' ensures 0 <= j <= k {
        assert OccursAt(line, "\"", k);
      }
      if j >= 0 { assert line[j..j + 1] == "\""; }
    }
    forall lo: nat, hi: nat | FirstUri(line, lo, hi) ensures UriAttribute(line) == Some((lo, hi)) {
      assert OccursAt(line, "URI=\"", lo - 5);
      assert i == lo - 5;
      var j := IndexFrom(line, "\"", i + 5);
      assert j <= hi && line[j] == '"';
      Within(line, lo, hi, j);
    }
  }

  ghost predicate HasUri(line: string) { exists lo: nat, hi: nat :: FirstUri(line, lo, hi) && lo < hi }

  /** What becomes of a line: a reference that stands for an ad is dropped; a per-segment tag without a URI
      is held back; a line that is no reference and has no URI is left as it is. */
  lemma LineIs(p: Proxy, line: string)
    ensures var t, role := TrimSpace(line), RoleOf(Classify(p, line));
            && (role == Dropped <==> IsReference(line) && exists abs :: ResolvesTo(p, t, abs) && AdUrl(abs))
            && (role == Held <==>
                && !HasUri(line)
                && ("#EXTINF" <= t || "#EXT-X-DISCONTINUITY" <= t || "#EXT-X-PROGRAM-DATE-TIME" <= t
                    || "#EXT-X-BYTERANGE" <= t))
            && (!IsReference(line) && !(HasUri(line) && "#" <= t) ==> Rewritten(p, line) == line)
  {
    hide TrimSpace, UriAttribute, IsAdSegment, FirstUri, Proxy.Resolve, AdUrl, ResolvesTo;
    UriExactly(line);
    Resolves(p, TrimSpace(line));
    AdExactly(p.Resolve(TrimSpace(line)));
    TagPrefixes(TrimSpace(line));
    UriFound(line);
  }

  lemma UriFound(line: string)
    ensures HasUri(line) <==> UriAttribute(line).Some? && UriAttribute(line).value.0 != UriAttribute(line).value.1
  {
    hide UriAttribute, FirstUri;
    UriExactly(line);
    if UriAttribute(line).Some? {
      var (lo, hi) := UriAttribute(line).value;
      assert UriAttribute(line) == Some((lo, hi));
    }
  }

  lemma TagPrefixes(t: string)
    ensures HasPrefix(t, "#") <==> "#" <= t
    ensures PerSegmentTag(t) <==> "#EXTINF" <= t || "#EXT-X-DISCONTINUITY" <= t || "#EXT-X-PROGRAM-DATE-TIME" <= t
                                  || "#EXT-X-BYTERANGE" <= t
    ensures PerSegmentTag(t) ==> "#" <= t
  {
  }

  // ---------------------------------------------------------------- one proxied reference

  lemma AlphabetChars(s: string)
    requires B.Alphabet(s)
    ensures Printable(s) && OneLine(s) && '"' !in s
  {
    forall i | 0 <= i < |s| ensures '!' <= s[i] <= '~' && s[i] != '"' { assert B.Value(s[i]).Some?; }
  }

  lemma ProxiedChars(p: Proxy, abs: string)
    requires B.Alphabet(p.headers)
    ensures var r := p.Proxied(abs); Printable(r) && OneLine(r) && '"' !in r && r[0] == 'h'
  {
    AlphabetChars(B.Encode(abs));
    AlphabetChars(p.headers);
    var u, h := B.Encode(abs), p.headers;
    assert p.Proxied(abs) == "hls?u=" + u + if h == "" then "" else "&h=" + h;
  }

  /** A proxied reference decodes to the URL it was made from. */
  lemma ProxiedDecodes(p: Proxy, abs: string)
    requires B.Alphabet(p.headers) && IsBytes(abs)
    ensures DecodeTarget(p.Proxied(abs)) == Some(abs)
  {
    hide B.Encode, B.Decode, B.Param;
    var u := B.Encode(abs);
    var rest := if p.headers == "" then "" else "&h=" + p.headers;
    assert p.Proxied(abs)[4..] == ['u', '='] + u + rest;
    assert p.Proxied(abs)[..4] == "hls?";
    B.FirstParam('u', u, rest);
    B.RoundTrip(abs);
  }

  // ---------------------------------------------------------------- trimming

  lemma SpaceNoLetter(s: string)
    ensures forall i | 0 <= i < LeadingSpace(s) :: s[i] != 'U'
  {
  }

  /** What TrimLeft drops is a prefix without letters; the rest is kept as it is. */
  lemma {:induction false} TrimLeftSuffix(s: string)
    ensures |TrimLeft(s)| <= |s| && TrimLeft(s) == s[|s| - |TrimLeft(s)|..]
    ensures forall i | 0 <= i < |s| - |TrimLeft(s)| :: s[i] != 'U'
    decreases |s|
  {
    var n := LeadingSpace(s);
    SpaceNoLetter(s);
    if n == 0 {
    } else {
      var r := s[n..];
      TrimLeftSuffix(r);
      assert forall i | n <= i < |s| - |TrimLeft(r)| :: s[i] == r[i - n];
    }
  }

  lemma TrimSpaceBytes(s: string)
    requires IsBytes(s)
    ensures IsBytes(TrimSpace(s))
  {
    TrimLeftSuffix(s);
    TrimRightClean(TrimLeft(s));
    hide TrimLeft, TrimRight;
    SuffixBytes(s, |s| - |TrimLeft(s)|);
    PrefixBytes(TrimLeft(s), TrimRight(TrimLeft(s)));
  }

  lemma SuffixBytes(s: string, n: nat)
    requires IsBytes(s) && n <= |s|
    ensures IsBytes(s[n..])
  {
  }

  lemma PrefixBytes(s: string, p: string)
    requires IsBytes(s) && p <= s
    ensures IsBytes(p)
  {
  }

  lemma {:induction false} TrimRightHash(s: string)
    requires s != "" && s[0] == '#'
    ensures TrimRight(s) != "" && TrimRight(s)[0] == '#'
    decreases |s|
  {
    var n := TrailingSpace(s);
    if n == 0 {
    } else {
      assert n < |s|;
      TrimRightHash(s[..|s| - n]);
    }
  }

  lemma LeadingSame(w: string, r: string, r': string)
    requires w != ""
    ensures LeadingSpace(w + "#" + r) == LeadingSpace(w + "#" + r') <= |w|
  {
    var s, s' := w + "#" + r, w + "#" + r';
    assert s[..|w| + 1] == s'[..|w| + 1] == w + "#";
    assert s[|w|] == s'[|w|] == '#';
  }

  /** White space in front of a '#' is dropped whatever follows the '#'. */
  lemma {:induction false} TrimLeftHash(w: string, r: string, r': string)
    requires TrimLeft(w + "#" + r) == "#" + r
    ensures TrimLeft(w + "#" + r') == "#" + r'
    decreases |w|
  {
    var s, s' := w + "#" + r, w + "#" + r';
    var n := LeadingSpace(s);
    if w == "" {
      assert s' == "#" + r';
    } else {
      assert |s| > |"#" + r|;
      LeadingSame(w, r, r');
      assert TrimLeft(s) == TrimLeft(s[n..]) && TrimLeft(s') == TrimLeft(s'[n..]);
      hide LeadingSpace, TrimLeft;
      Shortened(w, r, n);
      Shortened(w, r', n);
      TrimLeftHash(w[n..], r, r');
    }
  }

  lemma Shortened(w: string, r: string, n: nat)
    requires n <= |w|
    ensures (w + "#" + r)[n..] == w[n..] + "#" + r
  {
  }

  // ---------------------------------------------------------------- tags with a reference

  lemma {:induction false} FirstIndexStays(s: string, s': string, p: string, i: nat)
    requires i <= |s| && p != "" && IndexFrom(s, p, i) >= 0
    requires IndexFrom(s, p, i) + |p| <= |s'|
    requires s[..IndexFrom(s, p, i) + |p|] == s'[..IndexFrom(s, p, i) + |p|]
    ensures i <= |s'| && IndexFrom(s', p, i) == IndexFrom(s, p, i)
    decreases |s| - i
  {
    var r := IndexFrom(s, p, i);
    assert s[i..][..|p|] == s[..r + |p|][i..i + |p|];
    assert s'[i..][..|p|] == s'[..r + |p|][i..i + |p|];
    if HasPrefix(s[i..], p) {
    } else {
      FirstIndexStays(s, s', p, i + 1);
    }
  }

  lemma {:induction false} NextQuote(a: string, ref: string, b: string, i: nat)
    requires |a| <= i <= |a| + |ref| && '"' !in ref && b != "" && b[0] == '"'
    ensures IndexFrom(a + ref + b, "\"", i) == |a| + |ref|
    decreases |ref| + |a| - i
  {
    var s := a + ref + b;
    if i >= |a| + |ref| {
    } else {
      assert s[i] == ref[i - |a|];
      NextQuote(a, ref, b, i + 1);
    }
  }

  lemma Recompose(line: string, n: nat)
    requires n < |line| && line[n] == '#'
    ensures line == line[..n] + "#" + line[n + 1..] && line[n..] == "#" + line[n + 1..]
  {
  }

  /** Where the '#' of a tag line is: behind white space only. */
  lemma HashAt(line: string) returns (n: nat)
    requires HasPrefix(TrimSpace(line), "#")
    ensures n < |line| && line[n] == '#' && forall i | 0 <= i < n :: line[i] != 'U'
    ensures TrimLeft(line[..n] + "#" + line[n + 1..]) == "#" + line[n + 1..]
  {
    hide LeadingSpace, TrailingSpace, TrimLeft, TrimRight;
    var t := TrimLeft(line);
    TrimLeftSuffix(line);
    TrimRightClean(t);
    n := |line| - |t|;
    assert t[0] == TrimRight(t)[0] == '#';
    Recompose(line, n);
  }

  lemma HashStays(w: string, r: string, r': string)
    requires TrimLeft(w + "#" + r) == "#" + r
    ensures !IsReference(w + "#" + r')
  {
    hide LeadingSpace, TrailingSpace, TrimLeft, TrimRight;
    TrimLeftHash(w, r, r');
    TrimRightHash("#" + r');
  }

  lemma TagStays(line: string, at: nat, line': string)
    requires HasPrefix(TrimSpace(line), "#")
    requires at < |line| && line[at] == 'U' && at < |line'| && line'[..at + 1] == line[..at + 1]
    ensures !IsReference(line')
  {
    var n := HashAt(line);
    assert n < at && line'[n] == line'[..at + 1][n] == '#';
    assert line'[..n] == line'[..at + 1][..n] == line[..n];
    assert line' == line[..n] + "#" + line'[n + 1..];
    HashStays(line[..n], line[n + 1..], line'[n + 1..]);
  }

  /** Replacing the first URI attribute of a tag by one without quotes. */
  lemma AttributeReplaced(line: string, lo: nat, hi: nat, ref: string)
    requires HasPrefix(TrimSpace(line), "#") && UriAttribute(line) == Some((lo, hi))
    requires '"' !in ref
    ensures var line' := line[..lo] + ref + line[hi..];
            !IsReference(line') && UriAttribute(line') == Some((lo, lo + |ref|))
  {
    hide TrimSpace, IsReference, IndexFrom;
    var line' := line[..lo] + ref + line[hi..];
    var at := IndexFrom(line, "URI=\"", 0);
    assert line[at] == line[at..][0] == 'U';
    assert line'[..lo] == line[..lo];
    assert line'[..at + 1] == line'[..lo][..at + 1];
    assert line[hi..][0] == '"';
    FirstIndexStays(line, line', "URI=\"", 0);
    NextQuote(line[..lo], ref, line[hi..], lo);
    TagStays(line, at, line');
  }

  lemma OneLineReplaced(line: string, lo: nat, hi: nat, ref: string)
    requires lo <= hi <= |line| && OneLine(line) && OneLine(ref)
    ensures var line' := line[..lo] + ref + line[hi..];
            OneLine(line') && line'[lo..lo + |ref|] == ref
  {
  }

  /** line' is the tag `line` with ref, which decodes to abs, in place of its URI, and nothing else changed. */
  ghost predicate Carries(line: string, line': string, lo: nat, hi: nat, ref: string, abs: string) {
    && !IsReference(line') && OneLine(line') && lo <= hi <= |line| && lo + |ref| <= |line'|
    && line'[..lo] == line[..lo] && line'[lo + |ref|..] == line[hi..]
    && line'[lo..lo + |ref|] == ref && UriAttribute(line') == Some((lo, lo + |ref|))
    && DecodeTarget(ref) == Some(abs)
  }

  lemma TagCarries(line: string, lo: nat, hi: nat, ref: string, abs: string)
    requires OneLine(line) && OneLine(ref) && '"' !in ref && DecodeTarget(ref) == Some(abs)
    requires HasPrefix(TrimSpace(line), "#") && UriAttribute(line) == Some((lo, hi))
    ensures Carries(line, line[..lo] + ref + line[hi..], lo, hi, ref, abs)
  {
    OneLineReplaced(line, lo, hi, ref);
    AttributeReplaced(line, lo, hi, ref);
  }

  /** A rewritten tag is still a tag, its first URI attribute decodes to what the URI stands for, and the
      text around that is as it was. */
  lemma TagRewritten(p: Proxy, line: string)
    requires Encoded(p) && IsBytes(line) && OneLine(line) && Classify(p, line).UriTag?
    ensures var k := Classify(p, line);
            && FirstUri(line, k.lo, k.hi)
            && exists ref, abs :: ResolvesTo(p, line[k.lo..k.hi], abs)
                                  && Carries(line, Rewritten(p, line), k.lo, k.hi, ref, abs)
  {
    var k := Classify(p, line);
    var uri := line[k.lo..k.hi];
    var abs := p.Resolve(uri);
    assert HasPrefix(TrimSpace(line), "#") && UriAttribute(line) == Some((k.lo, k.hi));
    assert Rewritten(p, line) == line[..k.lo] + p.Proxied(abs) + line[k.hi..];
    hide *;
    ResolveBytes(p, uri);
    ProxiedChars(p, abs);
    ProxiedDecodes(p, abs);
    TagCarries(line, k.lo, k.hi, p.Proxied(abs), abs);
    Resolves(p, uri);
    UriExactly(line);
  }

  lemma ResolveBytes(p: Proxy, ref: string)
    requires Encoded(p) && IsBytes(ref)
    ensures IsBytes(p.Resolve(ref))
  {
  }

  // ---------------------------------------------------------------- the whole playlist

  lemma {:induction false} SplitBytes(s: string)
    requires IsBytes(s)
    ensures forall i | 0 <= i < |SplitLines(s)| :: IsBytes(SplitLines(s)[i])
  {
    if s == "" {
    } else {
      assert IsByte(s[0]);
      SplitBytes(s[1..]);
    }
  }

  /** What one line contributes before and after rewriting. */
  lemma LineTargets(p: Proxy, line: string)
    requires Encoded(p) && IsBytes(line) && OneLine(line)
    ensures RoleOf(Classify(p, line)) == Kept ==>
              OneLine(Rewritten(p, line)) && TargetOf(Rewritten(p, line)) == ContentOf(p, line)
    ensures RoleOf(Classify(p, line)) == Held ==>
              OneLine(Rewritten(p, line)) && TargetOf(Rewritten(p, line)) == []
    ensures RoleOf(Classify(p, line)) != Kept ==> ContentOf(p, line) == []
  {
    match Classify(p, line)
    case UriTag(lo, hi) => TagRewritten(p, line);
    case Uri =>
      var abs := p.Resolve(TrimSpace(line));
      TrimSpaceBytes(line);
      ResolveBytes(p, TrimSpace(line));
      ProxiedChars(p, abs);
      TrimPlain(p.Proxied(abs));
      ProxiedDecodes(p, abs);
    case _ =>
  }

  lemma {:induction false} FilteredTargets(roles: seq<Role>, texts: seq<string>,
                                           contents: seq<seq<Option<string>>>, n: nat)
    requires n <= |roles| == |texts| == |contents|
    requires forall i | 0 <= i < |roles| && roles[i] != Kept :: contents[i] == []
    requires forall i | 0 <= i < |roles| && roles[i] != Dropped ::
               OneLine(texts[i]) && TargetOf(texts[i]) == contents[i]
    ensures var s := Survivors(roles, texts, n);
            Targets(s) == Flat(contents[..n]) && forall i | 0 <= i < |s| :: OneLine(s[i])
  {
    hide Targets, TargetOf, OneLine, AllHeld;
    if n == 0 {
      TargetsNone();
    } else {
      FilteredTargets(roles, texts, contents, n - 1);
      assert contents[..n][..n - 1] == contents[..n - 1];
      if Vanishes(roles, n - 1) {
        VanishedNotKept(roles, n - 1);
      } else {
        DroppedVanishes(roles, n - 1);
        TargetsAppend(Survivors(roles, texts, n - 1), texts[n - 1]);
      }
    }
  }

  lemma VanishedNotKept(roles: seq<Role>, i: nat)
    requires i < |roles| && Vanishes(roles, i)
    ensures roles[i] != Kept
  {
  }

  lemma DroppedVanishes(roles: seq<Role>, i: nat)
    requires i < |roles|
    ensures roles[i] == Dropped ==> Vanishes(roles, i)
  {
    assert AllHeld(roles, i, i);
  }

  lemma TargetsNone()
    ensures Targets([]) == [] && Flat<Option<string>>([]) == []
  {
  }

  lemma TargetsAppend(s: seq<string>, l: string)
    ensures Targets(s + [l]) == Targets(s) + TargetOf(l)
  {
    var t := seq(|s + [l]|, i requires 0 <= i < |s + [l]| => TargetOf((s + [l])[i]));
    assert t[..|s|] == seq(|s|, i requires 0 <= i < |s| => TargetOf(s[i]));
  }

  /** The references of a playlist's lines, in order. */
  function References(lines: seq<string>): seq<string> {
    if lines == [] then []
    else
      var last := lines[|lines| - 1];
      References(lines[..|lines| - 1]) + if IsReference(last) then [TrimSpace(last)] else []
  }

  ghost predicate AllResolve(p: Proxy, refs: seq<string>, urls: seq<string>) {
    |urls| == |refs| && forall i | 0 <= i < |refs| :: ResolvesTo(p, refs[i], urls[i])
  }

  /** The URLs that are no ads. */
  ghost function Delivered(urls: seq<string>): seq<Option<string>> {
    if urls == [] then []
    else
      var last := urls[|urls| - 1];
      Delivered(urls[..|urls| - 1]) + if AdUrl(last) then [] else [Some(last)]
  }

  lemma {:induction false} ContentsResolve(p: Proxy, lines: seq<string>) returns (urls: seq<string>)
    ensures AllResolve(p, References(lines), urls) && Flat(Contents(p, lines)) == Delivered(urls)
    decreases |lines|
  {
    hide ResolvesTo, AdUrl, ContentOf, Classify, IsReference, TrimSpace, Proxy.Resolve, AllResolve, Delivered;
    if lines == [] {
      urls := [];
      NothingResolves(p);
      TargetsNone();
      assert Contents(p, lines) == [];
    } else {
      var n := |lines| - 1;
      var before := ContentsResolve(p, lines[..n]);
      assert Contents(p, lines)[..n] == Contents(p, lines[..n]);
      ReferenceContent(p, lines[n]);
      if IsReference(lines[n]) {
        var abs := p.Resolve(TrimSpace(lines[n]));
        Resolves(p, TrimSpace(lines[n]));
        urls := before + [abs];
        OneMoreResolves(p, References(lines[..n]), before, TrimSpace(lines[n]), abs);
      } else {
        urls := before;
        assert References(lines) == References(lines[..n]);
      }
    }
  }

  lemma NothingResolves(p: Proxy)
    ensures AllResolve(p, [], []) && Delivered([]) == []
  {
  }

  lemma OneMoreResolves(p: Proxy, refs: seq<string>, urls: seq<string>, ref: string, abs: string)
    requires AllResolve(p, refs, urls) && ResolvesTo(p, ref, abs)
    ensures AllResolve(p, refs + [ref], urls + [abs])
    ensures Delivered(urls + [abs]) == Delivered(urls) + if AdUrl(abs) then [] else [Some(abs)]
  {
    hide ResolvesTo, AdUrl;
    assert (urls + [abs])[..|urls|] == urls;
    assert AdUrl(abs) ==> Delivered(urls) + [] == Delivered(urls);
    forall i | 0 <= i < |refs| + 1 ensures ResolvesTo(p, (refs + [ref])[i], (urls + [abs])[i]) {
      if i < |refs| { assert ResolvesTo(p, refs[i], urls[i]); }
    }
  }

  lemma ReferenceContent(p: Proxy, line: string)
    ensures ContentOf(p, line) == if IsReference(line) && !AdUrl(p.Resolve(TrimSpace(line)))
                                  then [Some(p.Resolve(TrimSpace(line)))] else []
  {
    AdExactly(p.Resolve(TrimSpace(line)));
    TagPrefixes(TrimSpace(line));
    hide TrimSpace, UriAttribute, IsAdSegment, AdUrl, Proxy.Resolve;
  }

  /** Splitting the rewritten playlist and decoding its references gives exactly what the references of
      the original stand for, ads left out, in order. */
  lemma PlaylistTargets(p: Proxy, body: string)
    requires Encoded(p) && IsBytes(body)
    ensures exists urls :: AllResolve(p, References(SplitLines(body)), urls)
                           && Targets(SplitLines(Playlist(p, body))) == Delivered(urls)
  {
    PlaylistContents(p, body);
    var urls := ContentsResolve(p, SplitLines(body));
  }

  /** ... and its lines are the rewritten lines of the original that survive, and an empty one. */
  lemma PlaylistContents(p: Proxy, body: string)
    requires Encoded(p) && IsBytes(body)
    ensures var lines := SplitLines(body);
            SplitLines(Playlist(p, body)) == Survivors(Roles(p, lines), Rewrites(p, lines), |lines|) + [""]
    ensures Targets(SplitLines(Playlist(p, body))) == Flat(Contents(p, SplitLines(body)))
  {
    var lines := SplitLines(body);
    var roles, texts, contents := Roles(p, lines), Rewrites(p, lines), Contents(p, lines);
    SplitBytes(body);
    SplitOneLines(body);
    forall i | 0 <= i < |lines|
      ensures roles[i] != Kept ==> contents[i] == []
      ensures roles[i] != Dropped ==> OneLine(texts[i]) && TargetOf(texts[i]) == contents[i]
    {
      LineTargets(p, lines[i]);
    }
    FilteredTargets(roles, texts, contents, |lines|);
    var s := Survivors(roles, texts, |lines|);
    SplitJoined(s);
    TargetsAppend(s, "");
    TrimPlain("");
    assert contents[..|lines|] == contents;
  }

  /** A playlist with no reference and no ad passes through; a line break is added at its end. */
  lemma PlainPlaylist(p: Proxy, body: string)
    requires forall i | 0 <= i < |SplitLines(body)| ::
               Classify(p, SplitLines(body)[i]) in {Blank, SegTag, OtherTag}
    ensures Playlist(p, body) == body + "\n"
  {
    var lines := SplitLines(body);
    var roles, texts := Roles(p, lines), Rewrites(p, lines);
    forall i | 0 <= i < |lines| ensures roles[i] != Dropped && texts[i] == lines[i] {
      assert Classify(p, lines[i]) in {Blank, SegTag, OtherTag};
    }
    NothingVanishes(roles, texts, |lines|);
    assert texts[..|lines|] == lines;
    JoinSplit(body);
  }

  lemma {:induction false} NothingVanishes(roles: seq<Role>, lines: seq<string>, n: nat)
    requires n <= |lines| == |roles| && Dropped !in roles
    ensures Survivors(roles, lines, n) == lines[..n]
  {
    if n == 0 {
    } else {
      NothingVanishes(roles, lines, n - 1);
    }
  }
}
