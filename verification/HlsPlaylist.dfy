/** The playlist rewriter of `backend/internal/api/rest/content.go`: ad segments go, with the tags
    that belong to them, and every other reference is sent through the proxy. */
module HlsPlaylist {
  import opened Text
  import opened LineFilter
  import Base64Url

  // ---------------------------------------------------------------- references

  /** The playlist's own URL, when there is one; `parse` is the general resolution of a reference
      against it (`url.Parse` and `ResolveReference`), None being a parse error. */
  datatype Base = NoBase | Base(scheme: string, host: string, path: string)

  datatype Proxy = Proxy(base: Base, headers: string, parse: string -> Option<string>) {

    function Resolve(ref: string): string {
      if base.NoBase? then ref
      else if !Contains(ref, "://") && !HasPrefix(ref, "/") && !Contains(ref, "../") && !Contains(ref, "./")
      then
        var i := LastIndexOf(base.path, '/');
        base.scheme + "://" + base.host + (if i >= 0 then base.path[..i + 1] else "/") + ref
      else match parse(ref)
        case Some(abs) => abs
        case None => ref
    }

    function Proxied(abs: string): string {
      var u := Base64Url.Encode(abs);
      if headers == "" then "hls?u=" + u else "hls?u=" + u + "&h=" + headers
    }
  }

  const AD_MARKS := ["ibyteimg.com", "ad-site-i18n", "/ads/", "/adserver", "doubleclick",
                     "googlesyndication", "2mdn.net", "adsafeprotected", "imasdk"]

  predicate IsAdSegment(uri: string) {
    exists i | 0 <= i < |AD_MARKS| :: Contains(Lower(uri), AD_MARKS[i])
  }

  predicate PerSegmentTag(t: string) {
    || HasPrefix(t, "#EXTINF")
    || HasPrefix(t, "#EXT-X-DISCONTINUITY")
    || HasPrefix(t, "#EXT-X-PROGRAM-DATE-TIME")
    || HasPrefix(t, "#EXT-X-BYTERANGE")
  }

  /** What the pattern URI="([^"]*)" captures first in a line, as a half-open range. */
  function UriAttribute(line: string): (r: Option<(nat, nat)>)
    ensures r.Some? ==> r.value.0 <= r.value.1 < |line|
  {
    var i := IndexFrom(line, "URI=\"", 0);
    if i == -1 then None
    else
      var j := IndexFrom(line, "\"", i + 5);
      if j == -1 then None else Some((i + 5, j))
  }

  datatype Kind = Blank | UriTag(lo: nat, hi: nat) | SegTag | OtherTag | Ad | Uri

  function Classify(p: Proxy, line: string): (k: Kind)
    ensures k.UriTag? ==> k.lo < k.hi < |line|
  {
    var t := TrimSpace(line);
    if t == "" then Blank
    else if HasPrefix(t, "#") then
      var m := UriAttribute(line);
      if m.Some? && m.value.0 != m.value.1 then UriTag(m.value.0, m.value.1)
      else if PerSegmentTag(t) then SegTag
      else OtherTag
    else if IsAdSegment(p.Resolve(t)) then Ad
    else Uri
  }

  /** What a surviving line becomes: only its reference changes. */
  function Rewritten(p: Proxy, line: string): string {
    match Classify(p, line)
    case UriTag(i, j) => line[..i] + p.Proxied(p.Resolve(line[i..j])) + line[j..]
    case Uri => p.Proxied(p.Resolve(TrimSpace(line)))
    case _ => line
  }

  // ---------------------------------------------------------------- the look-ahead filter

  function RoleOf(k: Kind): Role {
    match k
    case Ad => Dropped
    case SegTag => Held
    case _ => Kept
  }

  function Roles(p: Proxy, lines: seq<string>): seq<Role> {
    seq(|lines|, i requires 0 <= i < |lines| => RoleOf(Classify(p, lines[i])))
  }

  function Rewrites(p: Proxy, lines: seq<string>): seq<string> {
    seq(|lines|, i requires 0 <= i < |lines| => Rewritten(p, lines[i]))
  }

  /** The rewritten playlist, declared: the rewritten lines that the look-ahead filter keeps. */
  ghost function Playlist(p: Proxy, body: string): string {
    var lines := SplitLines(body);
    JoinLines(Survivors(Roles(p, lines), Rewrites(p, lines), |lines|))
  }

  /** `rewriteHLSPlaylist`: one pass that holds back per-segment tags until it knows what follows
      them. It computes the look-ahead filter. */
  method RewritePlaylist(p: Proxy, body: string) returns (out: string)
    ensures out == Playlist(p, body)
  {
    hide Classify, Streaming, Survivors, SplitLines, JoinLines;
    var lines := SplitLines(body);
    ghost var roles, rewrites := Roles(p, lines), Rewrites(p, lines);
    ghost var written: seq<string> := [];
    var pending: seq<string> := [];
    out := "";
    Start(roles, rewrites);
    JoinNone();
    for i := 0 to |lines|
      invariant Streaming(roles, rewrites, i, pending, written) && out == JoinLines(written)
    {
      var line := lines[i];
      match Classify(p, line) {
        case SegTag =>
          Hold(roles, rewrites, i, pending, written);
          pending := pending + [line];
        case Ad =>
          Drop(roles, rewrites, i, pending, written);
          pending := [];
        case _ =>
          out := Release(roles, rewrites, i, Rewritten(p, line), pending, out, written);
          pending, written := [], Survivors(roles, rewrites, i + 1);
      }
    }
    Finish(roles, rewrites, pending, written);
    out := Flush(out, pending, written);
  }
}
