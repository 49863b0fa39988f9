/** The path strings of downloaded pages: a loose image file, or an entry of an archive written as
    "zip://<archive>!<entry>" (`backend/internal/localsource/zippath.go`). */
module ZipPath {
  import opened Text

  const ZIP_PREFIX := "zip://"

  function ZipPagePath(archive: string, entry: string): string {
    ZIP_PREFIX + archive + "!" + entry
  }

  function Parse(p: string): Option<(string, string)> {
    match CutPrefix(p, ZIP_PREFIX)
    case None => None
    case Some(rest) =>
      var i := LastIndexOf(rest, '!');
      if i < 0 then None else Some((rest[..i], rest[i + 1..]))
  }

  /** An entry path reads back as its parts exactly when the entry name has no '!'. */
  lemma ParseFormat(archive: string, entry: string)
    ensures Parse(ZipPagePath(archive, entry)) == Some((archive, entry)) <==> '!' !in entry
  {
    var p := ZipPagePath(archive, entry);
    var rest := archive + ['!'] + entry;
    assert p[|ZIP_PREFIX|..] == rest && p[..|ZIP_PREFIX|] == ZIP_PREFIX;
    if '!' !in entry {
      LastIndexSplit(archive, '!', entry);
      assert rest[..|archive|] == archive && rest[|archive| + 1..] == entry;
    } else {
      var k :| 0 <= k < |entry| && entry[k] == '!';
      assert rest[|archive| + 1 + k] == '!';
    }
  }

  /** Whatever parses is the path of its parts. */
  lemma FormatParse(p: string)
    requires Parse(p).Some?
    ensures ZipPagePath(Parse(p).value.0, Parse(p).value.1) == p
    ensures '!' !in Parse(p).value.1
  {
    hide LastIndexOf;
    var rest := p[|ZIP_PREFIX|..];
    var i := LastIndexOf(rest, '!');
    Cut(rest, i);
    Glue(p, rest[..i], rest[i + 1..]);
  }

  lemma Cut(s: string, i: nat)
    requires i < |s| && s[i] == '!'
    ensures s == s[..i] + "!" + s[i + 1..]
  {
  }

  lemma Glue(p: string, archive: string, entry: string)
    requires HasPrefix(p, ZIP_PREFIX) && p[|ZIP_PREFIX|..] == archive + "!" + entry
    ensures ZipPagePath(archive, entry) == p
  {
    assert p == p[..|ZIP_PREFIX|] + p[|ZIP_PREFIX|..];
    assert (ZIP_PREFIX + archive) + "!" + entry == ZIP_PREFIX + (archive + "!" + entry);
  }

  // ---------------------------------------------------------------- clean file paths

  /** `filepath.Dir`, `Base` and `Join` on cleaned paths with a directory, and `filepath.Ext`. */
  function Dir(p: string): string {
    var i := LastIndexOf(p, '/');
    if i < 0 then "." else p[..i]
  }

  function Base(p: string): string { p[LastIndexOf(p, '/') + 1..] }

  function Join(dir: string, name: string): string { dir + "/" + name }

  function Ext(p: string): string {
    if p == "" || p[|p| - 1] == '/' then ""
    else if p[|p| - 1] == '.' then "."
    else
      var e := Ext(p[..|p| - 1]);
      if e == "" then "" else e + [p[|p| - 1]]
  }

  lemma SplitJoin(dir: string, name: string)
    requires '/' !in name
    ensures Dir(Join(dir, name)) == dir && Base(Join(dir, name)) == name
  {
    LastIndexSplit(dir, '/', name);
    assert Join(dir, name) == dir + ['/'] + name;
  }

  lemma ExtCbz(dir: string)
    ensures Ext(dir + ".cbz") == ".cbz" && (dir + ".cbz")[..|dir + ".cbz"| - 4] == dir
  {
    var p, q, r, d := dir + ".cbz", dir + ".cb", dir + ".c", dir + ".";
    assert p[..|p| - 1] == q && q[..|q| - 1] == r && r[..|r| - 1] == d;
    assert Ext(d) == ".";
    assert Ext(r) == ".c";
    assert Ext(q) == ".cb";
  }
}
