/** Moving a downloaded chapter between loose images and one CBZ archive
    (`backend/internal/download/format_migrate.go`): files, archive and page rows change in an order
    that never leaves a row without its page. */
module ChapterArchive {
  import opened Text
  import opened ZipPath

  datatype File = Plain(data: string) | Zip(entries: map<string, string>)

  type Files = map<string, File>

  /** A page row is named by chapter and page number. */
  type Key = (int, int)

  type Rows = map<Key, string>

  datatype State = State(files: Files, rows: Rows)

  /** The bytes a row's path leads to. */
  function Resolve(files: Files, path: string): Option<string> {
    match Parse(path)
    case Some((archive, entry)) =>
      if archive in files && files[archive].Zip? && entry in files[archive].entries
      then Some(files[archive].entries[entry]) else None
    case None => if path in files && files[path].Plain? then Some(files[path].data) else None
  }

  function LooseData(files: Files, path: string): Option<string> {
    if path in files && files[path].Plain? then Some(files[path].data) else None
  }

  function EntryData(files: Files, archive: string, entry: string): Option<string> {
    if archive in files && files[archive].Zip? && entry in files[archive].entries
    then Some(files[archive].entries[entry]) else None
  }

  /** Where the pages belong. A chapter has a directory, an archive beside it, and a name for the
      archive while it is made; a page has an entry name, its two paths, and its bytes. */
  datatype Layout = Layout(
    dir: map<int, string>, archive: map<int, string>, part: map<int, string>,
    entry: map<Key, string>, loose: map<Key, string>, packed: map<Key, string>,
    content: map<Key, string>)
  {
    ghost predicate Complete() {
      && dir.Keys == archive.Keys == part.Keys
      && entry.Keys == loose.Keys == packed.Keys == content.Keys
      && forall k | k in entry :: k.0 in dir
    }

    /** The names are the ones the code makes; entry names have no '/' and no '!'. */
    ghost predicate Spelled()
      requires Complete()
    {
      && (forall c | c in dir :: archive[c] == dir[c] + ".cbz" && part[c] == archive[c] + ".part")
      && (forall k | k in entry ::
            && '/' !in entry[k] && '!' !in entry[k]
            && loose[k] == Join(dir[k.0], entry[k])
            && packed[k] == ZipPagePath(archive[k.0], entry[k]))
      && (forall k | k in entry :: Parse(loose[k]) == None)
      && (forall c | c in dir :: Parse(archive[c]) == None && Parse(part[c]) == None)
    }

    /** Pages have files of their own, chapters have directories of their own, and no page is called
        like an archive or an archive in the making. */
    ghost predicate Apart()
      requires Complete()
    {
      && (forall j, k | j in entry && k in entry && loose[j] == loose[k] :: j == k)
      && (forall c, d | c in dir && d in dir && dir[c] == dir[d] :: c == d)
      && (forall c, k | c in dir && k in entry :: archive[c] != loose[k] && part[c] != loose[k])
    }

    /** What follows from the spelling, and is all the moves rely on. */
    ghost predicate Distinct()
      requires Complete()
    {
      && (forall j, k | j in entry && k in entry && loose[j] == loose[k] :: j == k)
      && (forall j, k | j in entry && k in entry && j.0 == k.0 && entry[j] == entry[k] :: j == k)
      && (forall c, d | c in dir && d in dir && archive[c] == archive[d] :: c == d)
      && (forall c, d | c in dir && d in dir :: archive[c] != part[d])
      && (forall c, k | c in dir && k in entry :: archive[c] != loose[k] && part[c] != loose[k])
      && (forall j, k | j in entry && k in entry :: loose[j] != packed[k])
      && (forall c, k | c in dir && k in entry :: archive[c] != packed[k] && part[c] != packed[k])
    }

    lemma SpelledDistinct()
      requires Complete() && Spelled() && Apart()
      ensures Distinct()
    {
      forall c, d | c in dir && d in dir
        ensures archive[c] == archive[d] ==> c == d
        ensures archive[c] != part[d]
      {
        assert dir[c] == archive[c][..|archive[c]| - 4] && dir[d] == archive[d][..|archive[d]| - 4];
        assert archive[c][|archive[c]| - 1] == 'z' && part[d][|part[d]| - 1] == 't';
      }
      forall j, k | j in entry && k in entry ensures loose[j] != packed[k] {
        ParseFormat(archive[k.0], entry[k]);
      }
      forall c, k | c in dir && k in entry ensures archive[c] != packed[k] && part[c] != packed[k] {
        ParseFormat(archive[k.0], entry[k]);
      }
    }

    /** Page k as a row at one of its two places leads to it. */
    function Fetch(files: Files, k: Key, path: string): Option<string>
      requires k in loose && k in entry && k.0 in archive
    {
      if path == loose[k] then LooseData(files, path) else EntryData(files, archive[k.0], entry[k])
    }

    /** Every row is at one of its page's two places and leads to the page's bytes. */
    ghost predicate Safe(st: State)
      requires Complete()
    {
      && st.rows.Keys == entry.Keys
      && (forall k | k in st.rows :: st.rows[k] == loose[k] || st.rows[k] == packed[k])
      && (forall k | k in st.rows :: Fetch(st.files, k, st.rows[k]) == Some(content[k]))
    }

    /** How the two paths of a page parse. */
    lemma PathsParse(k: Key)
      requires Complete() && Spelled() && k in entry
      ensures Parse(loose[k]) == None && Parse(packed[k]) == Some((archive[k.0], entry[k]))
      ensures loose[k] == Join(dir[k.0], entry[k]) && packed[k] != loose[k]
    {
      hide Parse, ZipPagePath, Join;
      ParseFormat(archive[k.0], entry[k]);
    }

    /** Safe rows resolve, by the paths' own syntax, to their pages. */
    lemma SafeResolves(st: State, k: Key)
      requires Complete() && Spelled() && Apart() && Safe(st) && k in st.rows
      ensures Resolve(st.files, st.rows[k]) == Some(content[k])
    {
      hide Parse, Join, Spelled, Apart;
      PathsParse(k);
    }

    /** Every page of chapter c is at its place in `at`. */
    ghost predicate Whole(rows: Rows, c: int, at: map<Key, string>) {
      forall k | k in rows && k.0 == c :: k in at && rows[k] == at[k]
    }

    ghost predicate Unmixed(rows: Rows, c: int) { Whole(rows, c, loose) || Whole(rows, c, packed) }

    ghost function Place(toCbz: bool): map<Key, string> { if toCbz then packed else loose }

    lemma AllMovedWhole(rows: Rows, c: int, toCbz: bool)
      requires Complete() && rows.Keys == entry.Keys
      ensures Whole(AllMoved(rows, c, Place(toCbz)), c, Place(toCbz))
    {
    }

    lemma WholeFirst(rows: Rows, c: int, pages: seq<Page>)
      requires Lists(rows, c, pages)
      ensures Whole(rows, c, loose) ==> (c, pages[0].number) in loose && pages[0].path == loose[(c, pages[0].number)]
      ensures Whole(rows, c, packed) ==> (c, pages[0].number) in packed && pages[0].path == packed[(c, pages[0].number)]
    {
      assert (c, pages[0].number) in rows;
    }

    /** What happens to a chapter when nothing fails: a page that cannot be read stops a packing, and
        nothing stops an unpacking. */
    ghost function Expected(toCbz: bool, rows: Rows, c: int, pages: seq<Page>): Outcome {
      if FirstAt(c, pages, Place(toCbz)) then Already
      else if toCbz && !Whole(rows, c, loose) then Failed
      else Migrated
    }

    /** Packing brings every unmixed chapter to the target; unpacking every chapter but those that
        start with a loose page and have a packed one. */
    ghost predicate Reaches(toCbz: bool, rows: Rows, c: int, pages: seq<Page>) {
      if toCbz then Unmixed(rows, c) else Whole(rows, c, loose) || FirstAt(c, pages, packed)
    }

    /** What a migration has done to the first chapters, and not done to the others. */
    ghost predicate Decided(toCbz: bool, reliable: bool, rows0: Rows, rows: Rows,
                            chapters: seq<(int, seq<Page>)>, outcomes: seq<Outcome>)
    {
      && |outcomes| <= |chapters|
      && (forall i | 0 <= i < |outcomes| ::
            outcomes[i] == Already <==> FirstAt(chapters[i].0, chapters[i].1, Place(toCbz)))
      && (forall i, t | |outcomes| <= i < |chapters| ::
            Whole(rows, chapters[i].0, Place(t)) == Whole(rows0, chapters[i].0, Place(t)))
      && (reliable ==> forall i | 0 <= i < |outcomes| ::
            && outcomes[i] == Expected(toCbz, rows0, chapters[i].0, chapters[i].1)
            && (Whole(rows, chapters[i].0, Place(toCbz)) <==>
                  Reaches(toCbz, rows0, chapters[i].0, chapters[i].1)))
    }

    lemma DecidedStep(toCbz: bool, reliable: bool, rows0: Rows, before: Rows, rows: Rows,
                      chapters: seq<(int, seq<Page>)>, outcomes: seq<Outcome>, outcome: Outcome)
      requires |outcomes| < |chapters| && Decided(toCbz, reliable, rows0, before, chapters, outcomes)
      requires var n := |outcomes|;
               && (forall i, t | 0 <= i < |chapters| && i != n ::
                     Whole(rows, chapters[i].0, Place(t)) == Whole(before, chapters[i].0, Place(t)))
               && (outcome == Already <==> FirstAt(chapters[n].0, chapters[n].1, Place(toCbz)))
               && (reliable ==>
                     && outcome == Expected(toCbz, before, chapters[n].0, chapters[n].1)
                     && (Whole(rows, chapters[n].0, Place(toCbz)) <==>
                           Reaches(toCbz, before, chapters[n].0, chapters[n].1)))
      ensures Decided(toCbz, reliable, rows0, rows, chapters, outcomes + [outcome])
    {
      hide Whole, FirstAt;
      var n := |outcomes|;
      assert loose == Place(false) && packed == Place(true);
      var (c, pages) := chapters[n];
      assert Expected(toCbz, before, c, pages) == Expected(toCbz, rows0, c, pages);
    }

    lemma FirstPage(st: State, c: int, pages: seq<Page>)
      requires Complete() && Distinct() && Spelled() && Good(st) && Lists(st.rows, c, pages)
      ensures var k := (c, pages[0].number);
              && k in entry && (pages[0].path == loose[k] || pages[0].path == packed[k])
              && packed[k] != loose[k]
              && (Parse(pages[0].path).Some? <==> pages[0].path == packed[k])
    {
      PageOf(st, (c, pages[0].number));
      PackedNotLoose((c, pages[0].number));
    }

    /** Moving pages of one chapter leaves the others as they are. */
    lemma OthersKept(rows: Rows, after: Rows, chapters: seq<(int, seq<Page>)>, n: nat, moved: set<int>, toCbz: bool)
      requires rows.Keys <= Place(toCbz).Keys && n < |chapters| && ListsRest(rows, chapters, n)
      requires after == Moved(rows, chapters[n].0, moved, Place(toCbz))
      ensures forall i | 0 <= i < |chapters| && i != n :: Unmixed(after, chapters[i].0) == Unmixed(rows, chapters[i].0)
      ensures forall i, t | 0 <= i < |chapters| && i != n ::
                Whole(after, chapters[i].0, Place(t)) == Whole(rows, chapters[i].0, Place(t))
    {
    }

    lemma BackAgain(rows: Rows, c: int, again: seq<Page>)
      requires Complete() && rows.Keys == entry.Keys && Whole(rows, c, loose)
      requires Lists(AllMoved(rows, c, packed), c, again)
      ensures AllMoved(AllMoved(rows, c, packed), c, loose) == rows
      ensures var k := (c, again[0].number); k in packed && again[0].path == packed[k]
    {
      assert (c, again[0].number) in AllMoved(rows, c, packed);
    }

    /** The files after a clean pack and a clean unpack are the ones before. */
    lemma Restored(st: State, c: int, pages: seq<Page>, again: seq<Page>, entries: map<string, string>, files: Files)
      requires Complete() && Distinct() && Good(st) && Whole(st.rows, c, loose) && c in dir
      requires archive[c] !in st.files && part[c] !in st.files
      requires Lists(st.rows, c, pages) && Lists(AllMoved(st.rows, c, packed), c, again)
      requires Extracted(c, again, |again|, files,
                 (st.files - {part[c]})[archive[c] := Zip(entries)] - Paths(pages, |pages|) - {archive[c]})
      ensures files == st.files
    {
      hide Distinct, Good, Lists, AllMoved, Whole;
      GoodRows(st);
      ListedKeys(st.rows, c, again, packed);
      var gone := st.files - Paths(pages, |pages|);
      assert (st.files - {part[c]})[archive[c] := Zip(entries)] - Paths(pages, |pages|) - {archive[c]} == gone;
      forall p ensures (p in files <==> p in st.files) && (p in files ==> files[p] == st.files[p]) {
        if i :| 0 <= i < |again| && At((c, again[i].number), p) {
          assert ExtractedPage((c, again[i].number), files);
          WasThere(st, c, (c, again[i].number));
        } else {
          if p in Paths(pages, |pages|) { PathIsPage(st.rows, c, pages, again, p); }
          assert p in files <==> p in gone;
        }
      }
    }

    /** A page that is loose has its file. */
    lemma WasThere(st: State, c: int, k: Key)
      requires Complete() && Good(st) && Whole(st.rows, c, loose) && k in st.rows && k.0 == c
      ensures ExtractedPage(k, st.files)
    {
      assert Fetch(st.files, k, st.rows[k]) == Some(content[k]);
    }

    lemma ListedKeys(rows: Rows, c: int, again: seq<Page>, at: map<Key, string>)
      requires rows.Keys <= at.Keys && Lists(AllMoved(rows, c, at), c, again)
      ensures forall i | 0 <= i < |again| :: (c, again[i].number) in rows
    {
    }

    lemma PathIsPage(rows: Rows, c: int, pages: seq<Page>, again: seq<Page>, p: string)
      requires Complete() && rows.Keys == entry.Keys && Whole(rows, c, loose)
      requires Lists(rows, c, pages) && Lists(AllMoved(rows, c, packed), c, again)
      requires p in Paths(pages, |pages|)
      ensures exists i :: 0 <= i < |again| && At((c, again[i].number), p)
    {
      var j :| 0 <= j < |pages| && pages[j].path == p;
      var k := (c, pages[j].number);
      assert k in AllMoved(rows, c, packed);
      var i :| 0 <= i < |again| && again[i].number == k.1;
      assert At((c, again[i].number), p);
    }

    /** An unpacking that stops between its first and its last page leaves a chapter that neither
        direction moves any more (see `MigrateChapter`): the first page is loose, another is not. */
    lemma StoppedUnpackIsMixed(rows: Rows, c: int, pages: seq<Page>, n: nat)
      requires Complete() && Distinct() && rows.Keys == entry.Keys && Lists(rows, c, pages) && 0 < n < |pages|
      requires Whole(rows, c, packed)
      ensures var after := Moved(rows, c, Numbers(pages, n), loose);
              && after[(c, pages[0].number)] == loose[(c, pages[0].number)]
              && !Unmixed(after, c)
    {
      hide Distinct, Whole;
      assert pages[0].number in Numbers(pages, n) && pages[n].number !in Numbers(pages, n);
      WholeAt(rows, c, pages, 0);
      WholeAt(rows, c, pages, n);
      PackedNotLoose((c, pages[0].number));
      PackedNotLoose((c, pages[n].number));
      var after := Moved(rows, c, Numbers(pages, n), loose);
      NotWhole(after, (c, pages[0].number), packed);
      NotWhole(after, (c, pages[n].number), loose);
    }

    lemma WholeAt(rows: Rows, c: int, pages: seq<Page>, i: nat)
      requires Lists(rows, c, pages) && i < |pages| && Whole(rows, c, packed)
      ensures var k := (c, pages[i].number); k in rows && k in packed && rows[k] == packed[k]
    {
      assert (c, pages[i].number) in rows;
    }

    lemma NotWhole(rows: Rows, k: Key, at: map<Key, string>)
      requires k in rows && k in at && rows[k] != at[k]
      ensures !Whole(rows, k.0, at)
    {
    }

    /** The file row k needs. */
    ghost function Needs(rows: Rows, k: Key): string
      requires Complete() && k in rows && k in entry
    {
      if rows[k] == loose[k] then loose[k] else archive[k.0]
    }

    /** No row needs the file p, and it is not called like an entry path. */
    ghost predicate Spare(rows: Rows, p: string)
      requires Complete() && rows.Keys == entry.Keys
    {
      forall k | k in rows :: Needs(rows, k) != p && packed[k] != p
    }

    /** No file is called like an entry path: only an archive's own reader gets at an entry. */
    ghost predicate NoEntryFiles(files: Files)
      requires Complete()
    {
      forall k | k in entry :: packed[k] !in files
    }

    ghost predicate Good(st: State)
      requires Complete()
    {
      Safe(st) && NoEntryFiles(st.files)
    }

    /** Changing or removing a spare file is safe. */
    lemma GoodWithout(st: State, p: string, f: File)
      requires Complete() && Good(st) && Spare(st.rows, p)
      ensures Good(st.(files := st.files[p := f])) && Good(st.(files := st.files - {p}))
    {
      hide Fetch;
      forall k | k in st.rows
        ensures packed[k] != p
        ensures Fetch(st.files[p := f], k, st.rows[k]) == Some(content[k])
        ensures Fetch(st.files - {p}, k, st.rows[k]) == Some(content[k])
      {
        FetchKept(st.files, k, st.rows[k], p, f);
      }
    }

    lemma FetchKept(files: Files, k: Key, path: string, p: string, f: File)
      requires k in loose && k in entry && k.0 in archive
      requires (if path == loose[k] then loose[k] else archive[k.0]) != p
      ensures Fetch(files[p := f], k, path) == Fetch(files, k, path) == Fetch(files - {p}, k, path)
    {
    }

    /** The first n pages were loose, and are in the archive's entries. */
    ghost predicate Copied(c: int, pages: seq<Page>, n: nat, entries: map<string, string>)
      requires Complete() && n <= |pages|
    {
      forall i | 0 <= i < n :: CopiedPage((c, pages[i].number), pages[i].path, entries)
    }

    ghost predicate CopiedPage(k: Key, path: string, entries: map<string, string>)
      requires Complete()
    {
      k in entry && path == loose[k] && entry[k] in entries && entries[entry[k]] == content[k]
    }

    lemma CopiedNone(c: int, pages: seq<Page>)
      requires Complete()
      ensures Copied(c, pages, 0, map[])
    {
    }

    lemma CopiedStep(rows: Rows, c: int, pages: seq<Page>, n: nat, entries: map<string, string>)
      requires Complete() && Spelled() && Distinct() && n < |pages| && Copied(c, pages, n, entries)
      requires Lists(rows, c, pages)
      requires var k := (c, pages[n].number); k in entry && pages[n].path == loose[k]
      ensures var k := (c, pages[n].number);
              Copied(c, pages, n + 1, entries[Base(pages[n].path) := content[k]])
    {
      hide Spelled, Distinct, Lists, Base, Dir, LastIndexOf, ZipPagePath;
      var k := (c, pages[n].number);
      SplitPage(k);
      forall i | 0 <= i < n
        ensures CopiedPage((c, pages[i].number), pages[i].path, entries[entry[k] := content[k]])
      {
        var j := (c, pages[i].number);
        ListedOnce(rows, c, pages, i, n);
        assert CopiedPage(j, pages[i].path, entries);
        EntriesDiffer(j, k);
      }
    }

    lemma EntriesDiffer(j: Key, k: Key)
      requires Complete() && Distinct() && j in entry && k in entry && j.0 == k.0 && j != k
      ensures entry[j] != entry[k]
    {
    }

    lemma GoodRows(st: State)
      requires Complete() && Good(st)
      ensures st.rows.Keys == entry.Keys
      ensures forall k | k in st.rows :: k.0 in dir && (st.rows[k] == loose[k] || st.rows[k] == packed[k])
    {
    }

    lemma ArchiveNotPart(c: int)
      requires Complete() && Distinct() && c in dir
      ensures archive[c] != part[c]
    {
    }

    lemma PackedNotLoose(k: Key)
      requires Complete() && Distinct() && k in entry
      ensures packed[k] != loose[k]
    {
    }

    lemma PackedSafe(st: State, k: Key, entries: map<string, string>)
      requires Complete() && Distinct() && Good(st) && k in entry && archive[k.0] in st.files
      requires st.files[archive[k.0]] == Zip(entries) && CopiedPage(k, loose[k], entries)
      ensures k in st.rows && Good(st.(rows := st.rows[k := packed[k]]))
    {
      PackedNotLoose(k);
      RowSafe(st, k, packed[k]);
    }

    lemma ArchiveSpelled(c: int)
      requires Complete() && Spelled() && c in dir
      ensures archive[c] == dir[c] + ".cbz" && part[c] == archive[c] + ".part"
    {
    }

    lemma CopiedLoose(rows: Rows, c: int, pages: seq<Page>, entries: map<string, string>)
      requires Complete() && Lists(rows, c, pages) && Copied(c, pages, |pages|, entries)
      ensures Whole(rows, c, loose)
    {
      forall k | k in rows && k.0 == c ensures k in entry && rows[k] == loose[k] {
        var i :| 0 <= i < |pages| && pages[i].number == k.1;
        assert CopiedPage((c, pages[i].number), pages[i].path, entries);
        assert k == (c, pages[i].number);
      }
    }

    lemma CopiedRows(rows: Rows, c: int, pages: seq<Page>, entries: map<string, string>)
      requires Complete() && Copied(c, pages, |pages|, entries) && rows.Keys == entry.Keys
      requires Whole(rows, c, packed)
      ensures forall i | 0 <= i < |pages| :: var k := (c, pages[i].number);
                k in rows && rows[k] == packed[k] && pages[i].path == loose[k]
    {
      forall i | 0 <= i < |pages|
        ensures var k := (c, pages[i].number); k in rows && pages[i].path == loose[k]
      {
        assert CopiedPage((c, pages[i].number), pages[i].path, entries);
      }
    }

    /** The first n pages of the chapter are loose files; elsewhere nothing changed from `before`. */
    ghost predicate Extracted(c: int, pages: seq<Page>, n: nat, files: Files, before: Files)
      requires Complete() && n <= |pages|
    {
      && (forall i | 0 <= i < n :: ExtractedPage((c, pages[i].number), files))
      && forall p | !(exists i :: 0 <= i < n && At((c, pages[i].number), p)) ::
           (p in files <==> p in before) && (p in files ==> files[p] == before[p])
    }

    /** The files a chapter's moves may touch: its archive, the archive in the making, its page files. */
    ghost predicate Own(c: int, p: string)
      requires Complete() && c in dir
    {
      p == archive[c] || p == part[c] || exists k :: k in loose && k.0 == c && loose[k] == p
    }

    /** All other files are the same. */
    ghost predicate OthersSame(c: int, a: Files, b: Files)
      requires Complete() && c in dir
    {
      forall p | !Own(c, p) :: (p in a <==> p in b) && (p in a ==> a[p] == b[p])
    }

    /** No chapter's move may touch the file. */
    ghost predicate Stranger(p: string)
      requires Complete()
    {
      forall c | c in dir :: !Own(c, p)
    }

    ghost predicate StrangersSame(a: Files, b: Files)
      requires Complete()
    {
      forall p | Stranger(p) :: (p in a <==> p in b) && (p in a ==> a[p] == b[p])
    }

    lemma StrangersStep(c: int, x: Files, y: Files, z: Files)
      requires Complete() && c in dir && StrangersSame(x, y) && OthersSame(c, y, z)
      ensures StrangersSame(x, z)
    {
      hide Own;
    }

    lemma OneOwn(c: int, p: string, a: Files, b: Files)
      requires Complete() && c in dir && Own(c, p) && a - {p} == b - {p}
      ensures OthersSame(c, a, b)
    {
      forall q | q != p ensures (q in a <==> q in b) && (q in a ==> a[q] == b[q]) {
        assert (q in a <==> q in a - {p}) && (q in b <==> q in b - {p});
        assert q in a ==> a[q] == (a - {p})[q] && (q in b ==> b[q] == (b - {p})[q]);
      }
    }

    lemma OwnPage(c: int, k: Key)
      requires Complete() && c in dir && k in loose && k.0 == c
      ensures Own(c, loose[k])
    {
    }

    lemma OthersNone(c: int, a: Files)
      requires Complete() && c in dir
      ensures OthersSame(c, a, a) && Own(c, archive[c]) && Own(c, part[c])
    {
    }

    lemma OthersTwice(c: int, x: Files, y: Files, z: Files)
      requires Complete() && c in dir && OthersSame(c, x, y) && OthersSame(c, y, z)
      ensures OthersSame(c, x, z)
    {
      hide Own;
    }

    ghost predicate At(k: Key, p: string) { k in loose && loose[k] == p }

    ghost predicate ExtractedPage(k: Key, files: Files)
      requires Complete()
    {
      k in loose && loose[k] in files && files[loose[k]] == Plain(content[k])
    }

    lemma ExtractedStart(c: int, pages: seq<Page>, files: Files)
      requires Complete()
      ensures Extracted(c, pages, 0, files, files)
    {
    }

    lemma ExtractedStep(c: int, pages: seq<Page>, n: nat, a: Files, b: Files, before: Files)
      requires Complete() && Distinct() && n < |pages| && Extracted(c, pages, n, a, before)
      requires ExtractedPage((c, pages[n].number), b)
      requires var p := loose[(c, pages[n].number)]; a - {p} == b - {p}
      ensures Extracted(c, pages, n + 1, b, before)
    {
      hide Distinct;
      var k := (c, pages[n].number);
      assert forall q | q != loose[k] :: (q in a <==> q in a - {loose[k]}) && (q in b <==> q in b - {loose[k]});
      assert forall q | q != loose[k] && q in a :: a[q] == (a - {loose[k]})[q] == b[q];
      forall i | 0 <= i < n ensures ExtractedPage((c, pages[i].number), b) {
        assert ExtractedPage((c, pages[i].number), a);
        LooseApart((c, pages[i].number), k);
      }
      forall p | !(exists i :: 0 <= i < n + 1 && At((c, pages[i].number), p))
        ensures (p in b <==> p in before) && (p in b ==> b[p] == before[p])
      {
        assert !At((c, pages[n].number), p);
      }
    }

    lemma ExtractedWithout(c: int, pages: seq<Page>, files: Files, before: Files)
      requires Complete() && Distinct() && c in dir && Extracted(c, pages, |pages|, files, before)
      ensures Extracted(c, pages, |pages|, files - {archive[c]}, before - {archive[c]})
    {
      hide Distinct;
      forall i | 0 <= i < |pages| ensures ExtractedPage((c, pages[i].number), files - {archive[c]}) {
        assert ExtractedPage((c, pages[i].number), files);
        ArchiveNotLoose(c, (c, pages[i].number));
      }
    }

    lemma LooseApart(j: Key, k: Key)
      requires Complete() && Distinct() && j in loose && k in loose
      ensures loose[j] == loose[k] ==> j == k
    {
    }

    lemma ArchiveNotLoose(c: int, k: Key)
      requires Complete() && Distinct() && c in dir && k in loose
      ensures archive[c] != loose[k]
    {
    }

    /** How a row's path parses, and what its page is. */
    lemma PageOf(st: State, k: Key)
      requires Complete() && Distinct() && Spelled() && Good(st) && k in st.rows
      ensures k in entry && k.0 in dir && Join(dir[k.0], entry[k]) == loose[k]
      ensures st.rows[k] == loose[k] ==> Parse(st.rows[k]) == None && ExtractedPage(k, st.files)
      ensures st.rows[k] != loose[k] ==>
                && st.rows[k] == packed[k] && Parse(st.rows[k]) == Some((archive[k.0], entry[k]))
                && EntryData(st.files, archive[k.0], entry[k]) == Some(content[k])
    {
      hide Parse, Join, Spelled, Distinct;
      PathsParse(k);
    }

    lemma SplitPage(k: Key)
      requires Complete() && Spelled() && k in entry
      ensures Dir(loose[k]) == dir[k.0] && Base(loose[k]) == entry[k]
      ensures packed[k] == ZipPagePath(archive[k.0], entry[k])
    {
      SplitJoin(dir[k.0], entry[k]);
    }

    lemma NeedsPart(rows: Rows, k: Key, c: int)
      requires Complete() && Distinct() && k in rows && k in entry && c in dir
      ensures Needs(rows, k) != part[c] && part[c] != packed[k]
    {
      var d := k.0;
      assert d in dir && archive[d] != part[c];

    }

    lemma NeedsArchive(rows: Rows, k: Key, c: int)
      requires Complete() && Distinct() && k in rows && k in entry && c in dir
      ensures Needs(rows, k) == archive[c] <==> k.0 == c && rows[k] != loose[k]
      ensures archive[c] != packed[k]
    {
      assert k.0 in dir;
    }

    lemma NeedsLoose(rows: Rows, j: Key, k: Key)
      requires Complete() && Distinct() && j in rows && j in entry && k in entry
      ensures Needs(rows, j) == loose[k] <==> j == k && rows[k] == loose[k]
      ensures loose[k] != packed[j]
    {
      assert j.0 in dir;
    }

    lemma PartSpare(rows: Rows, c: int)
      requires Complete() && Distinct() && rows.Keys == entry.Keys && c in dir
      ensures Spare(rows, part[c])
    {
      forall k | k in rows ensures Needs(rows, k) != part[c] && part[c] != packed[k] {
        NeedsPart(rows, k, c);
      }
    }

    lemma ArchiveSpare(rows: Rows, c: int)
      requires Complete() && Distinct() && rows.Keys == entry.Keys && c in dir
      requires forall k | k in rows && k.0 == c :: rows[k] == loose[k]
      ensures Spare(rows, archive[c])
    {
      forall k | k in rows ensures Needs(rows, k) != archive[c] && archive[c] != packed[k] {
        NeedsArchive(rows, k, c);
      }
    }

    lemma LooseSpare(rows: Rows, k: Key)
      requires Complete() && Distinct() && rows.Keys == entry.Keys && k in rows
      requires rows[k] != loose[k]
      ensures Spare(rows, loose[k])
    {
      forall j | j in rows ensures Needs(rows, j) != loose[k] && loose[k] != packed[j] {
        NeedsLoose(rows, j, k);
      }
    }

    lemma RowSafe(st: State, k: Key, path: string)
      requires Complete() && Good(st) && k in st.rows && (path == loose[k] || path == packed[k])
      requires Fetch(st.files, k, path) == Some(content[k])
      ensures Good(st.(rows := st.rows[k := path]))
    {
    }
  }

  datatype Page = Page(number: int, path: string)

  datatype Outcome = Already | Migrated | Failed

  /** The first page is at its place in `at`. */
  ghost predicate FirstAt(c: int, pages: seq<Page>, at: map<Key, string>) {
    pages != [] && (c, pages[0].number) in at && pages[0].path == at[(c, pages[0].number)]
  }

  /** The totals of some outcomes: each chapter counts once, and its pages if it was migrated. */
  function Tally(chapters: seq<(int, seq<Page>)>, outcomes: seq<Outcome>): Totals
    requires |outcomes| <= |chapters|
  {
    if outcomes == [] then Totals(0, 0, 0, 0)
    else
      var n := |outcomes| - 1;
      Tally(chapters, outcomes[..n]).Count(outcomes[n], |chapters[n].1|)
  }

  lemma TallyNone(chapters: seq<(int, seq<Page>)>)
    ensures Tally(chapters, []) == Totals(0, 0, 0, 0)
  {
  }

  lemma TallyMore(chapters: seq<(int, seq<Page>)>, outcomes: seq<Outcome>, o: Outcome)
    requires |outcomes| < |chapters|
    ensures Tally(chapters, outcomes + [o]) == Tally(chapters, outcomes).Count(o, |chapters[|outcomes|].1|)
  {
    assert (outcomes + [o])[..|outcomes|] == outcomes;
  }

  datatype Totals = Totals(migrated: nat, pages: nat, failed: nat, already: nat) {
    function Count(o: Outcome, n: nat): Totals {
      match o
      case Already => this.(already := already + 1)
      case Migrated => this.(migrated := migrated + 1, pages := pages + n)
      case Failed => this.(failed := failed + 1)
    }
  }

  /** The places of an outcome. */
  ghost function With(outcomes: seq<Outcome>, o: Outcome): set<nat> {
    set i: nat | i < |outcomes| && outcomes[i] == o
  }

  function Sum(ns: seq<nat>): nat { if ns == [] then 0 else Sum(ns[..|ns| - 1]) + ns[|ns| - 1] }

  ghost function PagesMoved(chapters: seq<(int, seq<Page>)>, outcomes: seq<Outcome>): seq<nat>
    requires |outcomes| <= |chapters|
  {
    seq(|outcomes|, i requires 0 <= i < |outcomes| => if outcomes[i] == Migrated then |chapters[i].1| else 0)
  }

  /** Each total is the number of outcomes of its kind, and the pages are those of the migrated chapters. */
  lemma {:induction false} TallyIs(chapters: seq<(int, seq<Page>)>, outcomes: seq<Outcome>)
    requires |outcomes| <= |chapters|
    ensures var r := Tally(chapters, outcomes);
            && r.migrated == |With(outcomes, Migrated)| && r.failed == |With(outcomes, Failed)|
            && r.already == |With(outcomes, Already)| && r.migrated + r.failed + r.already == |outcomes|
            && r.pages == Sum(PagesMoved(chapters, outcomes))
    decreases |outcomes|
  {
    hide With, Sum, PagesMoved;
    if outcomes == [] {
      NoneWith(chapters);
    } else {
      var n := |outcomes| - 1;
      TallyIs(chapters, outcomes[..n]);
      WithMore(outcomes, Migrated);
      WithMore(outcomes, Failed);
      WithMore(outcomes, Already);
      PagesMore(chapters, outcomes);
    }
  }

  lemma NoneWith(chapters: seq<(int, seq<Page>)>)
    ensures forall o :: With([], o) == {}
    ensures Sum(PagesMoved(chapters, [])) == 0
  {
  }

  lemma PagesMore(chapters: seq<(int, seq<Page>)>, outcomes: seq<Outcome>)
    requires 0 < |outcomes| <= |chapters|
    ensures var n := |outcomes| - 1;
            Sum(PagesMoved(chapters, outcomes)) == Sum(PagesMoved(chapters, outcomes[..n]))
                                                   + if outcomes[n] == Migrated then |chapters[n].1| else 0
  {
    var n := |outcomes| - 1;
    assert PagesMoved(chapters, outcomes)[..n] == PagesMoved(chapters, outcomes[..n]);
  }

  lemma WithMore(outcomes: seq<Outcome>, o: Outcome)
    requires outcomes != []
    ensures var n := |outcomes| - 1;
            n !in With(outcomes[..n], o)
            && With(outcomes, o) == With(outcomes[..n], o) + if outcomes[n] == o then {n} else {}
  {
  }

  /** `pages` lists every row of chapter c once, as the query returned it. */
  ghost predicate Lists(rows: Rows, c: int, pages: seq<Page>) {
    && pages != []
    && (forall i | 0 <= i < |pages| :: (c, pages[i].number) in rows && rows[(c, pages[i].number)] == pages[i].path)
    && (forall i, j | 0 <= i < j < |pages| :: pages[i].number != pages[j].number)
    && (forall k | k in rows && k.0 == c :: exists i :: 0 <= i < |pages| && pages[i].number == k.1)
  }

  lemma ListedOnce(rows: Rows, c: int, pages: seq<Page>, i: nat, j: nat)
    requires Lists(rows, c, pages) && i < j < |pages|
    ensures pages[i].number != pages[j].number
  {
  }

  ghost function Paths(pages: seq<Page>, n: nat): set<string>
    requires n <= |pages|
  {
    set i | 0 <= i < n :: pages[i].path
  }

  ghost function Numbers(pages: seq<Page>, n: nat): set<int>
    requires n <= |pages|
  {
    set i | 0 <= i < n :: pages[i].number
  }

  /** The rows after the pages `moved` of chapter c went to their place in `to`. */
  ghost function Moved(rows: Rows, c: int, moved: set<int>, to: map<Key, string>): Rows
    requires rows.Keys <= to.Keys
  {
    map k | k in rows :: if k.0 == c && k.1 in moved then to[k] else rows[k]
  }

  /** ... and after all of them did. */
  ghost function AllMoved(rows: Rows, c: int, to: map<Key, string>): Rows
    requires rows.Keys <= to.Keys
  {
    map k | k in rows :: if k.0 == c then to[k] else rows[k]
  }

  lemma MovedStep(rows: Rows, c: int, pages: seq<Page>, n: nat, to: map<Key, string>)
    requires rows.Keys <= to.Keys && Lists(rows, c, pages) && n < |pages|
    ensures Moved(rows, c, Numbers(pages, n), to)[(c, pages[n].number) := to[(c, pages[n].number)]]
            == Moved(rows, c, Numbers(pages, n + 1), to)
  {
    hide Moved, Lists;
    NumbersStep(pages, n);
    MovedAt(rows, c, pages, n, to);
    MovedMore(rows, c, Numbers(pages, n), pages[n].number, to);
  }

  lemma NumbersStep(pages: seq<Page>, n: nat)
    requires n < |pages|
    ensures Numbers(pages, n + 1) == Numbers(pages, n) + {pages[n].number}
  {
  }

  lemma MovedMore(rows: Rows, c: int, moved: set<int>, x: int, to: map<Key, string>)
    requires rows.Keys <= to.Keys && (c, x) in rows
    ensures Moved(rows, c, moved, to)[(c, x) := to[(c, x)]] == Moved(rows, c, moved + {x}, to)
  {
  }

  lemma MovedAt(rows: Rows, c: int, pages: seq<Page>, n: nat, to: map<Key, string>)
    requires rows.Keys <= to.Keys && Lists(rows, c, pages) && n < |pages|
    ensures var k := (c, pages[n].number);
            k in rows && Moved(rows, c, Numbers(pages, n), to).Keys == rows.Keys
            && Moved(rows, c, Numbers(pages, n), to)[k] == pages[n].path
  {
    assert pages[n].number !in Numbers(pages, n);
  }

  lemma MovedAll(rows: Rows, c: int, pages: seq<Page>, to: map<Key, string>)
    requires rows.Keys <= to.Keys && Lists(rows, c, pages)
    ensures Moved(rows, c, Numbers(pages, |pages|), to) == AllMoved(rows, c, to)
    ensures Moved(rows, c, Numbers(pages, 0), to) == rows
  {
    assert Numbers(pages, 0) == {};
    forall k | k in rows && k.0 == c ensures k.1 in Numbers(pages, |pages|) {
      var i :| 0 <= i < |pages| && pages[i].number == k.1;
    }
    MovedNoneOrAll(rows, c, Numbers(pages, |pages|), to);
  }

  lemma MovedNoneOrAll(rows: Rows, c: int, all: set<int>, to: map<Key, string>)
    requires rows.Keys <= to.Keys && forall k | k in rows && k.0 == c :: k.1 in all
    ensures Moved(rows, c, all, to) == AllMoved(rows, c, to) && Moved(rows, c, {}, to) == rows
  {
  }

  /** `chapters` lists every chapter once, each with its pages. */
  ghost predicate ListsAll(rows: Rows, chapters: seq<(int, seq<Page>)>) {
    && ListsRest(rows, chapters, 0)
    && forall k | k in rows :: exists i :: 0 <= i < |chapters| && chapters[i].0 == k.0
  }

  ghost predicate ListsRest(rows: Rows, chapters: seq<(int, seq<Page>)>, n: nat) {
    && (forall i | n <= i < |chapters| :: Lists(rows, chapters[i].0, chapters[i].1))
    && (forall i, j | 0 <= i < j < |chapters| :: chapters[i].0 != chapters[j].0)
  }

  lemma OthersListed(rows: Rows, chapters: seq<(int, seq<Page>)>, n: nat, moved: set<int>, to: map<Key, string>)
    requires rows.Keys <= to.Keys && n < |chapters| && ListsRest(rows, chapters, n)
    ensures ListsRest(Moved(rows, chapters[n].0, moved, to), chapters, n + 1)
  {
    var after := Moved(rows, chapters[n].0, moved, to);
    forall i | n + 1 <= i < |chapters| ensures Lists(after, chapters[i].0, chapters[i].1) {
      StillListed(rows, chapters[n].0, moved, to, chapters[i].0, chapters[i].1);
    }
  }

  lemma StillListed(rows: Rows, c: int, moved: set<int>, to: map<Key, string>, d: int, pages: seq<Page>)
    requires rows.Keys <= to.Keys && c != d && Lists(rows, d, pages)
    ensures Lists(Moved(rows, c, moved, to), d, pages)
  {
  }

  ghost predicate AllSafe(lay: Layout, states: seq<State>)
    requires lay.Complete()
  {
    forall i | 0 <= i < |states| :: lay.Safe(states[i])
  }

  lemma AllSafeMore(lay: Layout, states: seq<State>, st: State)
    requires lay.Complete() && AllSafe(lay, states) && lay.Good(st)
    ensures AllSafe(lay, states + [st])
  {
  }

  lemma SameElsewhere(a: Files, b: Files, p: string, f: File)
    requires a - {p} == b - {p}
    ensures a[p := f] == b[p := f]
  {
    assert forall q | q in a && q != p :: q in a - {p} && a[q] == (a - {p})[q];
    assert forall q | q in b && q != p :: q in b - {p} && b[q] == (b - {p})[q];
  }

  lemma SameAfter(a: Files, b: Files, p: string, f: File)
    requires b == a[p := f]
    ensures a - {p} == b - {p}
  {
  }

  class Library {
    ghost const lay: Layout
    const reliable: bool  // no call to the disk or the database fails
    var files: Files
    var rows: Rows
    ghost var trace: seq<State>  // every state gone through, the present one last

    ghost function View(): State
      reads this
    {
      State(files, rows)
    }

    ghost predicate Valid()
      reads this
    {
      lay.Complete() && lay.Good(View()) && AllSafe(lay, trace) && trace != [] && trace[|trace| - 1] == View()
    }

    constructor (ghost lay: Layout, reliable: bool, files: Files, rows: Rows)
      requires lay.Complete() && lay.Good(State(files, rows))
      ensures Valid() && this.lay == lay && this.reliable == reliable && View() == State(files, rows)
    {
      this.lay, this.reliable, this.files, this.rows := lay, reliable, files, rows;
      AllSafeMore(lay, [], State(files, rows));
      trace := [State(files, rows)];
    }

    // -------------------------------------------------------------- the single steps

    /** One step on the disk: the only way files change, and only from safe to safe. */
    method SetFiles(fs: Files)
      requires Valid() && lay.Good(State(fs, rows))
      modifies this`files, this`trace
      ensures Valid() && files == fs && trace == old(trace) + [View()]
    {
      hide Layout.Good, AllSafe;
      files := fs;
      AllSafeMore(lay, trace, View());
      trace := trace + [View()];
    }

    method PutFile(p: string, f: File)
      requires Valid() && rows.Keys == lay.entry.Keys && lay.Spare(rows, p)
      modifies this`files, this`trace
      ensures Valid() && files == old(files)[p := f] && trace == old(trace) + [View()]
    {
      hide Layout.Good, Layout.Spare, AllSafe;
      lay.GoodWithout(View(), p, f);
      SetFiles(files[p := f]);
    }

    method RemoveFile(p: string)
      requires Valid() && rows.Keys == lay.entry.Keys && lay.Spare(rows, p)
      modifies this`files, this`trace
      ensures Valid() && files == old(files) - {p} && trace == old(trace) + [View()]
    {
      hide Layout.Good, Layout.Spare, AllSafe;
      lay.GoodWithout(View(), p, Plain(""));
      SetFiles(files - {p});
    }

    method RenameFile(from: string, to_: string)
      requires Valid() && rows.Keys == lay.entry.Keys && lay.Spare(rows, from) && lay.Spare(rows, to_)
      requires from in files && from != to_
      modifies this`files, this`trace
      ensures Valid() && files == (old(files) - {from})[to_ := old(files)[from]] && trace == old(trace) + [View()]
    {
      hide Layout.Good, Layout.Spare, AllSafe;
      var f := files[from];
      ghost var st := View();
      lay.GoodWithout(st, from, f);
      lay.GoodWithout(st.(files := files - {from}), to_, f);
      SetFiles((files - {from})[to_ := f]);
    }

    /** `SetMangaPagePath`: the only way rows change. */
    method SetRow(k: Key, path: string)
      requires Valid() && k in rows && lay.Good(State(files, rows[k := path]))
      modifies this`rows, this`trace
      ensures Valid() && rows == old(rows)[k := path] && trace == old(trace) + [View()]
    {
      hide Layout.Good, AllSafe;
      rows := rows[k := path];
      AllSafeMore(lay, trace, View());
      trace := trace + [View()];
    }

    // -------------------------------------------------------------- packing

    /** Whether the next outside call succeeds; nothing else is known about it. */
    method Succeeds() returns (ok: bool)
      ensures reliable ==> ok
    {
      ok := *;
      ok := ok || reliable;
    }

    /** The first half of `packChapterToCBZ`: copy the pages into an archive under a temporary name.
        A page that is not a loose file cannot be opened, and ends it. */
    method BuildArchive(c: int, part: string, pages: seq<Page>)
      returns (ok: bool, entries: map<string, string>)
      requires Valid() && lay.Distinct() && lay.Spelled() && Lists(rows, c, pages)
      requires c in lay.dir && part == lay.part[c]
      modifies this`files, this`trace
      ensures Valid() && old(trace) <= trace
      ensures ok ==> files == old(files)[part := Zip(entries)] && lay.Copied(c, pages, |pages|, entries)
      ensures !ok ==> files - {part} == old(files) - {part}
      ensures reliable && lay.Whole(rows, c, lay.loose) ==> ok
    {
      hide Layout.Spelled, Layout.Distinct, Layout.Good, AllSafe, Layout.Spare, Layout.Copied, Layout.Whole, Lists;
      entries := map[];
      lay.CopiedNone(c, pages);
      ok := Succeeds();
      if !ok { return; }
      PutPart(c, part, Plain(""));
      for n := 0 to |pages|
        invariant Valid() && old(trace) <= trace && files - {part} == old(files) - {part}
        invariant lay.Copied(c, pages, n, entries)
      {
        ok, entries := AddPage(c, part, pages, n, entries);
        if !ok {
          AbandonPart(c, part);
          return;
        }
      }
      ok := Succeeds();
      if !ok {
        AbandonPart(c, part);
        return;
      }
      SameElsewhere(files, old(files), part, Zip(entries));
      PutPart(c, part, Zip(entries));
    }

    method AddPage(c: int, part: string, pages: seq<Page>, n: nat, before: map<string, string>)
      returns (ok: bool, entries: map<string, string>)
      requires Valid() && lay.Distinct() && lay.Spelled() && Lists(rows, c, pages) && n < |pages|
      requires c in lay.dir && part == lay.part[c] && lay.Copied(c, pages, n, before)
      modifies this`files, this`trace
      ensures Valid() && old(trace) <= trace && files - {part} == old(files) - {part}
      ensures ok ==> lay.Copied(c, pages, n + 1, entries)
      ensures reliable && lay.Whole(rows, c, lay.loose) ==> ok
    {
      hide Layout.Spelled, Layout.Distinct, Layout.Good, AllSafe, Layout.Spare, Layout.Copied, Layout.Whole, Lists;
      hide Base, Dir, LastIndexOf;
      entries := before;
      var page := ReadPage(c, pages, n);
      ok := Succeeds();
      if page.None? || !ok { return false, before; }
      lay.CopiedStep(rows, c, pages, n, before);
      entries := entries[Base(pages[n].path) := page.value];
      var written: string := *;
      PutPart(c, part, Plain(written));
    }

    method PutPart(c: int, part: string, f: File)
      requires Valid() && lay.Distinct() && c in lay.dir && part == lay.part[c]
      modifies this`files, this`trace
      ensures Valid() && old(trace) <= trace && files == old(files)[part := f]
    {
      hide Layout.Distinct, Layout.Good, AllSafe, Layout.Spare;
      lay.GoodRows(View());
      lay.PartSpare(rows, c);
      PutFile(part, f);
    }

    /** `os.Open` and reading page n: only a loose file can be opened. */
    method ReadPage(c: int, pages: seq<Page>, n: nat) returns (r: Option<string>)
      requires Valid() && Lists(rows, c, pages) && n < |pages|
      ensures (c, pages[n].number) in lay.entry
      ensures r.Some? ==> pages[n].path == lay.loose[(c, pages[n].number)]
                          && r.value == lay.content[(c, pages[n].number)]
      ensures pages[n].path == lay.packed[(c, pages[n].number)] ==> r == None
      ensures lay.Whole(rows, c, lay.loose) ==> r.Some?
    {
      ghost var k := (c, pages[n].number);
      assert rows[k] == pages[n].path;
      var path := pages[n].path;
      if path in files && files[path].Plain? { return Some(files[path].data); }
      return None;
    }

    /** The temporary archive is removed, if that works. */
    method AbandonPart(c: int, part: string)
      requires Valid() && lay.Distinct() && c in lay.dir && part == lay.part[c]
      modifies this`files, this`trace
      ensures Valid() && old(trace) <= trace && files - {part} == old(files) - {part}
    {
      hide Layout.Distinct, Layout.Good, AllSafe, Layout.Spare;
      var ok := Succeeds();
      if ok {
        lay.GoodRows(View());
        lay.PartSpare(rows, c);
        RemoveFile(part);
      }
    }

    /** `os.Rename` of the finished archive; every row of the chapter is still loose. */
    method Publish(c: int, part: string, archive: string)
      requires Valid() && lay.Distinct() && c in lay.dir
      requires part == lay.part[c] && archive == lay.archive[c] && part in files
      requires forall k | k in rows && k.0 == c :: rows[k] == lay.loose[k]
      modifies this`files, this`trace
      ensures Valid() && old(trace) <= trace
      ensures files == (old(files) - {part})[archive := old(files)[part]]
    {
      hide Layout.Good, AllSafe, Layout.Spare;
      lay.GoodRows(View());
      lay.ArchiveSpare(rows, c);
      lay.PartSpare(rows, c);
      lay.ArchiveNotPart(c);
      hide Layout.Distinct;
      RenameFile(part, archive);
    }

    method RepointPage(c: int, archive: string, p: Page, ghost entries: map<string, string>)
      requires Valid() && lay.Distinct() && lay.Spelled() && c in lay.dir
      requires archive == lay.archive[c] && archive in files && files[archive] == Zip(entries)
      requires lay.CopiedPage((c, p.number), p.path, entries)
      modifies this`rows, this`trace
      ensures Valid() && old(trace) <= trace
      ensures rows == old(rows)[(c, p.number) := lay.packed[(c, p.number)]]
    {
      hide Layout.Spelled, Layout.Distinct, Layout.Good, AllSafe, Layout.Spare;
      lay.SplitPage((c, p.number));
      lay.PackedSafe(View(), (c, p.number), entries);
      SetRow((c, p.number), ZipPagePath(archive, Base(p.path)));
    }

    /** The rows of a packed chapter are pointed into the archive, one by one. */
    method Repoint(c: int, archive: string, pages: seq<Page>, ghost entries: map<string, string>)
      returns (ok: bool, ghost done: nat)
      requires Valid() && lay.Distinct() && lay.Spelled() && Lists(rows, c, pages) && c in lay.dir
      requires archive == lay.archive[c] && archive in files && files[archive] == Zip(entries)
      requires lay.Copied(c, pages, |pages|, entries)
      modifies this`rows, this`trace
      ensures Valid() && old(trace) <= trace
      ensures done <= |pages| && rows == Moved(old(rows), c, Numbers(pages, done), lay.packed)
      ensures ok ==> done == |pages| && rows == AllMoved(old(rows), c, lay.packed)
      ensures reliable ==> ok
    {
      hide Layout.Spelled, Layout.Distinct, Layout.Good, AllSafe, Layout.Spare, Lists, Moved;
      ghost var rows0 := rows;
      lay.GoodRows(View());
      MovedAll(rows0, c, pages, lay.packed);
      done := 0;
      for n := 0 to |pages|
        invariant Valid() && old(trace) <= trace
        invariant done == n && rows == Moved(rows0, c, Numbers(pages, n), lay.packed)
      {
        ok := Succeeds();
        if !ok { return; }
        assert lay.CopiedPage((c, pages[n].number), pages[n].path, entries);
        MovedStep(rows0, c, pages, n, lay.packed);
        RepointPage(c, archive, pages[n], entries);
        done := n + 1;
      }
      ok := true;
    }

    /** The loose file of a packed page goes, if that works. */
    method RemovePage(c: int, p: Page) returns (ok: bool)
      requires Valid() && lay.Distinct() && c in lay.dir
      requires var k := (c, p.number); k in rows && rows[k] == lay.packed[k] && p.path == lay.loose[k]
      modifies this`files, this`trace
      ensures Valid() && old(trace) <= trace && lay.OthersSame(c, old(files), files)
      ensures files == if ok then old(files) - {p.path} else old(files)
      ensures reliable ==> ok
    {
      hide Layout.Distinct, Layout.Good, AllSafe, Layout.Spare, Layout.Own, Layout.OthersSame;
      lay.OthersNone(c, files);
      ok := Succeeds();
      if !ok { return; }
      ghost var k := (c, p.number);
      lay.GoodRows(View());
      lay.PackedNotLoose(k);
      lay.LooseSpare(rows, k);
      lay.OwnPage(c, k);
      RemoveFile(p.path);
      lay.OneOwn(c, p.path, old(files), files);
    }

    /** The loose files of a packed chapter go; a failure is only logged. */
    method RemoveLoose(c: int, pages: seq<Page>) returns (clean: bool)
      requires Valid() && lay.Distinct()
      requires c in lay.dir && forall i | 0 <= i < |pages| :: var k := (c, pages[i].number);
                 k in rows && rows[k] == lay.packed[k] && pages[i].path == lay.loose[k]
      modifies this`files, this`trace
      ensures Valid() && old(trace) <= trace && lay.OthersSame(c, old(files), files)
      ensures clean ==> files == old(files) - Paths(pages, |pages|)
      ensures reliable ==> clean
    {
      hide Layout.Distinct, Layout.Good, AllSafe, Layout.Spare, Layout.Own, Layout.OthersSame;
      clean := true;
      lay.OthersNone(c, files);
      assert files == old(files) - Paths(pages, 0);
      for n := 0 to |pages|
        invariant Valid() && old(trace) <= trace
        invariant clean ==> files == old(files) - Paths(pages, n)
        invariant reliable ==> clean
        invariant lay.OthersSame(c, old(files), files)
      {
        ghost var before := files;
        var ok := RemovePage(c, pages[n]);
        if !ok { clean := false; }
        lay.OthersTwice(c, old(files), before, files);
        assert Paths(pages, n + 1) == Paths(pages, n) + {pages[n].path};
      }
    }

    /** Both halves up to the removal of the old page files. */
    method MoveIn(c: int, archive: string, part: string, pages: seq<Page>)
      returns (ok: bool, ghost done: nat, ghost entries: map<string, string>)
      requires Valid() && lay.Distinct() && lay.Spelled() && Lists(rows, c, pages) && c in lay.dir
      requires archive == lay.archive[c] && part == lay.part[c]
      modifies this
      ensures Valid() && old(trace) <= trace && lay.OthersSame(c, old(files), files)
      ensures ok ==>
          && lay.Copied(c, pages, |pages|, entries)
          && done == |pages| && rows == AllMoved(old(rows), c, lay.packed)
          && files == (old(files) - {part})[archive := Zip(entries)]
      ensures done <= |pages| && rows == Moved(old(rows), c, Numbers(pages, done), lay.packed)
      ensures done > 0 ==> lay.Whole(old(rows), c, lay.loose)
      ensures reliable && lay.Whole(old(rows), c, lay.loose) ==> ok
    {
      hide Layout.Spelled, Layout.Distinct, Layout.Good, AllSafe, Layout.Spare, Layout.Copied, AllMoved, Moved,
        Layout.Own, Layout.OthersSame;
      done := 0;
      lay.GoodRows(View());
      MovedAll(rows, c, pages, lay.packed);
      lay.OthersNone(c, files);
      var es;
      ok, es := BuildArchive(c, part, pages);
      entries := es;
      ghost var built := files;
      assert files - {part} == old(files) - {part} by { if ok { SameAfter(old(files), files, part, Zip(es)); } }
      lay.OneOwn(c, part, old(files), built);
      if !ok { return; }
      lay.CopiedLoose(rows, c, pages, es);
      ok := Succeeds();
      if !ok { return; }
      Publish(c, part, archive);
      ghost var hidden := built - {part};
      assert hidden - {part} == built - {part};
      lay.OneOwn(c, part, built, hidden);
      SameAfter(hidden, files, archive, Zip(es));
      lay.OneOwn(c, archive, hidden, files);
      lay.OthersTwice(c, old(files), built, hidden);
      lay.OthersTwice(c, old(files), hidden, files);
      assert (old(files)[part := Zip(es)] - {part})[archive := Zip(es)]
          == (old(files) - {part})[archive := Zip(es)];
      ok, done := Repoint(c, archive, pages, es);
    }

    /** ... and with their removal. */
    method PackInto(c: int, archive: string, part: string, pages: seq<Page>)
      returns (ok: bool, ghost clean: bool, ghost done: nat, ghost entries: map<string, string>)
      requires Valid() && lay.Distinct() && lay.Spelled() && Lists(rows, c, pages) && c in lay.dir
      requires archive == lay.archive[c] && part == lay.part[c]
      modifies this
      ensures Valid() && old(trace) <= trace && lay.OthersSame(c, old(files), files)
      ensures done <= |pages| && rows == Moved(old(rows), c, Numbers(pages, done), lay.packed)
      ensures done > 0 ==> lay.Whole(old(rows), c, lay.loose)
      ensures ok ==> lay.Copied(c, pages, |pages|, entries) && rows == AllMoved(old(rows), c, lay.packed)
      ensures ok && clean ==> files == (old(files) - {part})[archive := Zip(entries)] - Paths(pages, |pages|)
      ensures ok ==> lay.Whole(old(rows), c, lay.loose)
      ensures reliable && lay.Whole(old(rows), c, lay.loose) ==> ok && clean
    {
      hide Layout.Spelled, Layout.Distinct, Layout.Good, AllSafe, Layout.Spare, Layout.Copied, Layout.Whole, Moved,
        AllMoved, Layout.Own, Layout.OthersSame, Lists, Paths;
      clean := false;
      lay.GoodRows(View());
      lay.AllMovedWhole(rows, c, true);
      ok, done, entries := MoveIn(c, archive, part, pages);
      if !ok { return; }
      ghost var moved := files;
      lay.GoodRows(View());
      lay.CopiedLoose(old(rows), c, pages, entries);
      lay.CopiedRows(rows, c, pages, entries);
      clean := RemoveLoose(c, pages);
      lay.OthersTwice(c, old(files), moved, files);
    }

    /** `packChapterToCBZ`. `clean` tells whether every old page file could be removed. */
    method Pack(c: int, pages: seq<Page>)
      returns (ok: bool, ghost clean: bool, ghost done: nat, ghost entries: map<string, string>)
      requires Valid() && lay.Spelled() && lay.Apart() && Lists(rows, c, pages)
      requires pages[0].path == lay.loose[(c, pages[0].number)]
      modifies this
      ensures Valid() && old(trace) <= trace && c in lay.dir && lay.OthersSame(c, old(files), files)
      ensures done <= |pages| && rows == Moved(old(rows), c, Numbers(pages, done), lay.packed)
      ensures done > 0 ==> lay.Whole(old(rows), c, lay.loose)
      ensures ok ==> lay.Copied(c, pages, |pages|, entries) && rows == AllMoved(old(rows), c, lay.packed)
      ensures ok && clean ==>
          files == (old(files) - {lay.part[c]})[lay.archive[c] := Zip(entries)] - Paths(pages, |pages|)
      ensures ok ==> lay.Whole(old(rows), c, lay.loose)
      ensures reliable && lay.Whole(old(rows), c, lay.loose) ==> ok && clean
    {
      hide Layout.Spelled, Layout.Apart, Layout.Distinct, Layout.Good, AllSafe, Layout.Spare, Layout.Copied,
        Layout.Whole, Moved, AllMoved, Dir, Base, Join, LastIndexOf, Layout.Own, Layout.OthersSame, Paths;
      lay.SpelledDistinct();
      lay.GoodRows(View());
      lay.SplitPage((c, pages[0].number));
      lay.ArchiveSpelled(c);
      var archive := Dir(pages[0].path) + ".cbz";
      ok, clean, done, entries := PackInto(c, archive, archive + ".part", pages);
    }

    // -------------------------------------------------------------- unpacking

    method WritePage(k: Key, path: string, data: string) returns (ok: bool)
      requires Valid() && lay.Distinct() && k in rows && rows[k] == lay.packed[k]
      requires path == lay.loose[k]
      modifies this`files, this`trace
      ensures Valid() && old(trace) <= trace && files - {path} == old(files) - {path}
      ensures forall q | q != path && q in old(files) :: q in files && files[q] == old(files)[q]
      ensures ok ==> path in files && files[path] == Plain(data)
      ensures reliable ==> ok
    {
      hide Layout.Distinct, Layout.Good, AllSafe, Layout.Spare;
      lay.GoodRows(View());
      lay.PackedNotLoose(k);
      lay.LooseSpare(rows, k);
      ok := Succeeds();
      if !ok { return; }
      PutFile(path, Plain(""));
      ok := Succeeds();
      var written: string := *;
      if ok { written := data; }
      PutFile(path, Plain(written));
    }

    /** One turn of the loop of `unpackChapterFromCBZ`: a page that is loose already is passed over. */
    method UnpackPage(c: int, dir: string, archive: string, entries: map<string, string>, p: Page)
      returns (ok: bool)
      requires Valid() && lay.Distinct() && lay.Spelled() && c in lay.dir && dir == lay.dir[c]
      requires archive == lay.archive[c] && archive in files && files[archive] == Zip(entries)
      requires (c, p.number) in rows && rows[(c, p.number)] == p.path
      modifies this
      ensures Valid() && old(trace) <= trace
      ensures (c, p.number) in lay.loose && archive in files && files[archive] == Zip(entries)
      ensures var path := lay.loose[(c, p.number)]; files - {path} == old(files) - {path}
      ensures rows == if ok then old(rows)[(c, p.number) := lay.loose[(c, p.number)]] else old(rows)
      ensures ok ==> var k := (c, p.number);
                lay.loose[k] in files && files[lay.loose[k]] == Plain(lay.content[k])
      ensures reliable ==> ok
    {
      hide Layout.Spelled, Layout.Distinct, Layout.Good, AllSafe, Layout.Spare;
      ghost var k := (c, p.number);
      lay.PageOf(View(), k);
      lay.ArchiveNotLoose(c, k);
      match Parse(p.path) {
        case None =>
          ok := true;
        case Some(parts) =>
          if parts.1 !in entries { return false; }
          var path := Join(dir, parts.1);
          ok := WritePage((c, p.number), path, entries[parts.1]);
          if !ok { return; }
          ok := Succeeds();
          if !ok { return; }
          lay.RowSafe(View(), k, path);
          SetRow((c, p.number), path);
      }
    }

    /** `unpackChapterFromCBZ`. `clean` tells whether the archive could be removed. */
    method Unpack(c: int, pages: seq<Page>) returns (ok: bool, ghost clean: bool, ghost done: nat)
      requires Valid() && lay.Spelled() && lay.Apart() && Lists(rows, c, pages)
      modifies this
      ensures Valid() && old(trace) <= trace && c in lay.dir && lay.OthersSame(c, old(files), files)
      ensures done <= |pages| && rows == Moved(old(rows), c, Numbers(pages, done), lay.loose)
      ensures ok ==> rows == AllMoved(old(rows), c, lay.loose)
      ensures ok && clean ==> lay.Extracted(c, pages, |pages|, files, old(files) - {lay.archive[c]})
      ensures pages[0].path == lay.loose[(c, pages[0].number)] ==> !ok && rows == old(rows)
      ensures reliable && pages[0].path == lay.packed[(c, pages[0].number)] ==> ok && clean
    {
      hide Layout.Spelled, Layout.Apart, Layout.Distinct, Layout.Good, AllSafe, Layout.Spare, Moved, Layout.Extracted,
        Parse, Ext, Join, AllMoved, Layout.Own, Layout.OthersSame;
      lay.SpelledDistinct();
      clean, done := false, 0;
      lay.GoodRows(View());
      MovedAll(rows, c, pages, lay.loose);
      lay.PageOf(View(), (c, pages[0].number));
      lay.ArchiveSpelled(c);
      lay.OthersNone(c, files);
      match Parse(pages[0].path) {
        case None => return false, false, 0;
        case Some(parts) =>
          ExtCbz(lay.dir[c]);
          var archive := parts.0;
          var dir := archive[..|archive| - |Ext(archive)|];
          ok, clean, done := UnpackArchive(c, dir, archive, pages);
      }
    }

    /** ... from the opening of the archive on. */
    method UnpackArchive(c: int, dir: string, archive: string, pages: seq<Page>)
      returns (ok: bool, ghost clean: bool, ghost done: nat)
      requires Valid() && lay.Distinct() && lay.Spelled() && c in lay.dir && dir == lay.dir[c]
      requires archive == lay.archive[c] && Lists(rows, c, pages)
      modifies this
      ensures Valid() && old(trace) <= trace && lay.OthersSame(c, old(files), files)
      ensures done <= |pages| && rows == Moved(old(rows), c, Numbers(pages, done), lay.loose)
      ensures ok ==> rows == AllMoved(old(rows), c, lay.loose)
      ensures ok && clean ==> lay.Extracted(c, pages, |pages|, files, old(files) - {archive})
      ensures reliable && archive in old(files) && old(files)[archive].Zip? ==> ok && clean
    {
      hide Layout.Spelled, Layout.Distinct, Layout.Good, AllSafe, Layout.Spare, Moved, Layout.Extracted, AllMoved,
        Layout.Own, Layout.OthersSame;
      clean, done := false, 0;
      lay.OthersNone(c, files);
      lay.GoodRows(View());
      MovedAll(rows, c, pages, lay.loose);
      ok := Succeeds();
      if archive !in files || files[archive].Plain? || !ok { return false, false, 0; }
      ok, done := UnpackPages(c, dir, archive, files[archive].entries, pages);
      if !ok { return; }
      ok := Succeeds();
      if !ok { return; }
      var removed := Succeeds();
      if removed {
        clean := true;
        lay.ExtractedWithout(c, pages, files, old(files));
        lay.AllMovedWhole(old(rows), c, false);
        ghost var moved := files;
        RemoveArchive(c, archive);
        assert files - {archive} == moved - {archive};
        lay.OneOwn(c, archive, moved, files);
        lay.OthersTwice(c, old(files), moved, files);
      }
    }

    method RemoveArchive(c: int, archive: string)
      requires Valid() && lay.Distinct() && c in lay.dir && archive == lay.archive[c]
      requires lay.Whole(rows, c, lay.loose)
      modifies this`files, this`trace
      ensures Valid() && old(trace) <= trace && files == old(files) - {archive}
    {
      hide Layout.Distinct, Layout.Good, AllSafe, Layout.Spare;
      lay.GoodRows(View());
      lay.ArchiveSpare(rows, c);
      RemoveFile(archive);
    }

    method UnpackPages(c: int, dir: string, archive: string, entries: map<string, string>, pages: seq<Page>)
      returns (ok: bool, ghost done: nat)
      requires Valid() && lay.Distinct() && lay.Spelled() && c in lay.dir && dir == lay.dir[c]
      requires archive == lay.archive[c] && archive in files && files[archive] == Zip(entries)
      requires Lists(rows, c, pages)
      modifies this
      ensures Valid() && old(trace) <= trace && lay.OthersSame(c, old(files), files)
      ensures done <= |pages| && rows == Moved(old(rows), c, Numbers(pages, done), lay.loose)
      ensures ok ==> rows == AllMoved(old(rows), c, lay.loose)
      ensures ok ==> lay.Extracted(c, pages, |pages|, files, old(files))
      ensures reliable ==> ok
    {
      hide Layout.Spelled, Layout.Distinct, Layout.Good, AllSafe, Layout.Spare, Moved, Layout.Extracted,
        Layout.Own, Layout.OthersSame;
      ghost var rows0, files0 := rows, files;
      lay.OthersNone(c, files);
      lay.GoodRows(View());
      MovedAll(rows0, c, pages, lay.loose);
      lay.ExtractedStart(c, pages, files);
      done := 0;
      for n := 0 to |pages|
        invariant Valid() && old(trace) <= trace
        invariant archive in files && files[archive] == Zip(entries)
        invariant done == n && rows == Moved(rows0, c, Numbers(pages, n), lay.loose)
        invariant lay.Extracted(c, pages, n, files, files0) && lay.OthersSame(c, files0, files)
      {
        MovedAt(rows0, c, pages, n, lay.loose);
        MovedStep(rows0, c, pages, n, lay.loose);
        ghost var before := files;
        ok := UnpackPage(c, dir, archive, entries, pages[n]);
        lay.OwnPage(c, (c, pages[n].number));
        lay.OneOwn(c, lay.loose[(c, pages[n].number)], before, files);
        lay.OthersTwice(c, files0, before, files);
        if !ok { return; }
        lay.ExtractedStep(c, pages, n, before, files, files0);
        done := n + 1;
      }
      ok := true;
    }

    // -------------------------------------------------------------- both ways, and the whole library

    /** Packing a loose chapter and unpacking it from a new listing restores rows and files. */
    method PackThenUnpack(c: int, pages: seq<Page>, again: seq<Page>) returns (ok: bool, ghost clean: bool)
      requires Valid() && lay.Spelled() && lay.Apart() && c in lay.dir
      requires Lists(rows, c, pages) && lay.Whole(rows, c, lay.loose)
      requires lay.archive[c] !in files && lay.part[c] !in files
      requires Lists(AllMoved(rows, c, lay.packed), c, again)
      modifies this
      ensures Valid() && old(trace) <= trace
      ensures ok && clean ==> files == old(files) && rows == old(rows)
      ensures reliable ==> ok && clean
    {
      hide Layout.Spelled, Layout.Apart, Layout.Distinct, Layout.Good, AllSafe, Layout.Spare, Layout.Copied,
        Layout.Extracted, Moved;
      lay.SpelledDistinct();
      ghost var st := View();
      lay.GoodRows(st);
      lay.WholeFirst(rows, c, pages);
      lay.BackAgain(rows, c, again);
      ghost var done, entries, away;
      ok, clean, done, entries := Pack(c, pages);
      if !ok { return; }
      ok, away, done := Unpack(c, again);
      if ok && clean && away { lay.Restored(st, c, pages, again, entries, files); }
      clean := clean && away;
    }

    /** One turn of the loop of `MigrateMangaFormat`. The first page decides what is tried. */
    method MigrateChapter(toCbz: bool, c: int, pages: seq<Page>) returns (outcome: Outcome, ghost done: nat)
      requires Valid() && lay.Spelled() && lay.Apart() && Lists(rows, c, pages)
      modifies this
      ensures Valid() && old(trace) <= trace && c in lay.dir && lay.OthersSame(c, old(files), files)
      ensures done <= |pages| && rows == Moved(old(rows), c, Numbers(pages, done), lay.Place(toCbz))
      ensures outcome == Already <==> FirstAt(c, pages, lay.Place(toCbz))
      ensures outcome == Already ==> View() == old(View())
      ensures outcome == Migrated ==> lay.Whole(rows, c, lay.Place(toCbz))
      ensures reliable ==> outcome == lay.Expected(toCbz, old(rows), c, pages)
      ensures reliable ==> (lay.Whole(rows, c, lay.Place(toCbz)) <==> lay.Reaches(toCbz, old(rows), c, pages))
      ensures toCbz && !lay.Unmixed(old(rows), c) ==> outcome != Migrated && rows == old(rows)
    {
      hide Layout.Spelled, Layout.Apart, Layout.Distinct, Layout.Good, AllSafe, Layout.Spare, Moved, AllMoved,
        Layout.Whole, Parse, Layout.Own, Layout.OthersSame;
      lay.SpelledDistinct();
      done := 0;
      lay.GoodRows(View());
      lay.PageOf(View(), (c, pages[0].number));
      lay.OthersNone(c, files);
      lay.FirstPage(View(), c, pages);
      MovedAll(rows, c, pages, lay.Place(toCbz));
      lay.AllMovedWhole(rows, c, toCbz);
      lay.WholeFirst(rows, c, pages);
      if toCbz == Parse(pages[0].path).Some? { return Already, 0; }
      var ok;
      ok, done := TryMove(toCbz, c, pages);
      outcome := if ok then Migrated else Failed;
    }

    method TryMove(toCbz: bool, c: int, pages: seq<Page>) returns (ok: bool, ghost done: nat)
      requires Valid() && lay.Spelled() && lay.Apart() && Lists(rows, c, pages)
      requires (c, pages[0].number) in lay.loose && (c, pages[0].number) in lay.packed
      requires pages[0].path == lay.Place(!toCbz)[(c, pages[0].number)]
      modifies this
      ensures Valid() && old(trace) <= trace && c in lay.dir && lay.OthersSame(c, old(files), files)
      ensures done <= |pages| && rows == Moved(old(rows), c, Numbers(pages, done), lay.Place(toCbz))
      ensures ok ==> rows == AllMoved(old(rows), c, lay.Place(toCbz))
      ensures reliable && (toCbz ==> lay.Whole(old(rows), c, lay.loose)) ==> ok
      ensures toCbz && !lay.Whole(old(rows), c, lay.loose) ==> !ok && rows == old(rows)
    {
      hide Layout.Spelled, Layout.Apart, Layout.Distinct, Layout.Good, AllSafe, Layout.Spare, Layout.Copied,
        Layout.Extracted,
        Moved, AllMoved, Layout.Whole;
      lay.GoodRows(View());
      MovedAll(rows, c, pages, lay.Place(toCbz));
      ghost var clean;
      if toCbz {
        ghost var entries;
        ok, clean, done, entries := Pack(c, pages);
      } else {
        ok, clean, done := Unpack(c, pages);
      }
    }

    /** `MigrateMangaFormat`, over the listing made at its start, chapters in any order. With nothing
        failing, a chapter ends at the target exactly if it `Reaches` it. */
    method Migrate(toCbz: bool, chapters: seq<(int, seq<Page>)>)
      returns (r: Totals, stopped: bool, ghost outcomes: seq<Outcome>)
      requires Valid() && lay.Spelled() && lay.Apart() && ListsAll(rows, chapters)
      modifies this
      ensures Valid() && old(trace) <= trace && lay.StrangersSame(old(files), files)
      ensures rows.Keys == old(rows).Keys
      ensures |outcomes| <= |chapters| && (!stopped ==> |outcomes| == |chapters|)
      ensures r == Tally(chapters, outcomes)
      ensures r.migrated == |With(outcomes, Migrated)| && r.failed == |With(outcomes, Failed)|
      ensures r.already == |With(outcomes, Already)| && r.pages == Sum(PagesMoved(chapters, outcomes))
      ensures forall i | 0 <= i < |outcomes| ::
                outcomes[i] == Already <==> FirstAt(chapters[i].0, chapters[i].1, lay.Place(toCbz))
      ensures reliable ==> !stopped
      ensures reliable ==> forall i | 0 <= i < |chapters| ::
                && outcomes[i] == lay.Expected(toCbz, old(rows), chapters[i].0, chapters[i].1)
                && (lay.Whole(rows, chapters[i].0, lay.Place(toCbz)) <==>
                      lay.Reaches(toCbz, old(rows), chapters[i].0, chapters[i].1))
    {
      hide Layout.Spelled, Layout.Apart, Layout.Distinct, Layout.Good, AllSafe, Layout.Spare, Layout.Copied,
        Layout.Extracted,
        Moved, Lists, Layout.Whole, FirstAt, With, Sum, PagesMoved, Layout.OthersSame, Layout.Expected,
        Layout.Reaches, Layout.Stranger, Numbers, Tally;
      TallyNone(chapters);
      assert lay.StrangersSame(files, files);
      hide Layout.StrangersSame;
      r, outcomes := Totals(0, 0, 0, 0), [];
      lay.GoodRows(View());
      ghost var rows0 := rows;
      for n := 0 to |chapters|
        invariant Valid() && old(trace) <= trace && rows.Keys == rows0.Keys
        invariant ListsRest(rows, chapters, n) && lay.StrangersSame(old(files), files)
        invariant |outcomes| == n && r == Tally(chapters, outcomes)
        invariant lay.Decided(toCbz, reliable, rows0, rows, chapters, outcomes)
      {
        var live := Succeeds();
        if !live {
          TallyIs(chapters, outcomes);
          return r, true, outcomes;
        }
        var (c, pages) := chapters[n];
        ghost var before, was, done := rows, files, 0;
        var outcome;
        outcome, done := MigrateChapter(toCbz, c, pages);
        lay.StrangersStep(c, old(files), was, files);
        r := r.Count(outcome, |pages|);
        lay.GoodRows(View());
        OthersListed(before, chapters, n, Numbers(pages, done), lay.Place(toCbz));
        lay.OthersKept(before, rows, chapters, n, Numbers(pages, done), toCbz);
        lay.DecidedStep(toCbz, reliable, rows0, before, rows, chapters, outcomes, outcome);
        TallyMore(chapters, outcomes, outcome);
        outcomes := outcomes + [outcome];
      }
      TallyIs(chapters, outcomes);
      stopped := false;
    }
  }
}
