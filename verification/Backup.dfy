/** Writing the library to a Mihon backup and reading one back (`backend/internal/backup/export.go`,
    `backend/internal/backup/import.go`). */
module Backup {
  import opened Text
  import opened Float32

  // ---------------------------------------------------------------- rows and messages

  /** A chapter row under its source's url; the number is in hundredths, kept as the float64 `Stored`. */
  datatype Row = Row(title: Option<string>, number: Option<int>, uploaded: Option<int>, order: Option<int>,
                     scanlator: string, completed: bool)

  /** An entry's optional texts. */
  datatype Texts = Texts(cover: Option<string>, description: Option<string>, author: Option<string>,
                         artist: Option<string>)

  datatype BackupChapter = BackupChapter(url: string, name: string, number: real, order: int, date: int,
                                         scanlator: Option<string>, read: bool)

  /** An entry's link to a tracker; its progress and score are float64s. */
  datatype Link = Link(remoteId: string, libraryId: Option<string>, title: string, url: string, status: int,
                       last: real, total: int, score: real, started: Option<int>, finished: Option<int>,
                       private_: int, sync: bool)

  datatype BackupTracking = BackupTracking(syncId: int, mediaId: int, mediaIdInt: int, libraryId: int, title: string,
                                           url: string, status: int, last: real, total: int, score: real,
                                           private_: bool)

  datatype BackupManga = BackupManga(source: int, url: string, title: string, texts: Texts, status: int,
                                     chapters: seq<BackupChapter>, categories: seq<int>,
                                     tracking: seq<BackupTracking>)

  datatype Backup = Backup(manga: seq<BackupManga>, categories: seq<string>)

  /** What `Export` reads: library entries with their chapters and their links under the trackers' names,
      and the folder rows of the entries. */
  datatype Media = Media(id: int, ext: Option<int>, url: string, title: string, texts: Texts,
                         status: Option<string>, chapters: seq<(string, Row)>, links: seq<(string, Link)>)

  datatype FolderRow = FolderRow(media: int, folder: int, custom: bool)

  datatype Snapshot = Snapshot(media: seq<Media>, sourceOf: map<int, int>, folderRows: seq<FolderRow>,
                               folderName: map<int, string>)
  {
    /** The source id an entry is exported under: 0 when its extension is gone. */
    function Source(m: Media): int {
      if m.ext.Some? && m.ext.value in sourceOf then sourceOf[m.ext.value] else 0
    }

    ghost predicate Valid() {
      && (forall i | 0 <= i < |folderRows| :: folderRows[i].folder in folderName)
      && (forall i, a, b | 0 <= i < |media| && 0 <= a < b < |media[i].chapters| ::
            media[i].chapters[a].0 != media[i].chapters[b].0)
      && (forall i, a, b | 0 <= i < |media| && 0 <= a < b < |media[i].links| ::
            media[i].links[a].0 != media[i].links[b].0)
    }

    /** No two extensions have one source id, and no two entries one extension and url. */
    ghost predicate Identified() {
      forall i, j | 0 <= i < j < |media| && Source(media[i]) == Source(media[j]) != 0 :: media[i].url != media[j].url
    }

    /** The names of an entry's own (not built-in) folders. */
    ghost function CategoriesOf(id: int): set<string>
      requires Valid()
    {
      set i | 0 <= i < |folderRows| && folderRows[i].media == id && folderRows[i].custom ::
        folderName[folderRows[i].folder]
    }

    /** The names of all own folders among the first n rows. */
    ghost function CustomNames(n: nat): set<string>
      requires Valid() && n <= |folderRows|
    {
      set i | 0 <= i < n && folderRows[i].custom :: folderName[folderRows[i].folder]
    }
  }

  /** What `Import` writes to. */
  datatype Entry = Entry(title: string, texts: Texts, status: Option<string>, inLibrary: bool,
                         chapters: map<string, Row>, folders: set<int>, links: map<string, Link>)

  type Key = (int, string)

  // ---------------------------------------------------------------- fields

  function NullString(s: string): Option<string> { if s == "" then None else Some(s) }

  function OrEmpty(s: Option<string>): string { if s.Some? then s.value else "" }

  /** A text, with the empty one meaning none. */
  function Clean(s: Option<string>): Option<string> { NullString(OrEmpty(s)) }

  function CleanTexts(t: Texts): Texts {
    Texts(Clean(t.cover), Clean(t.description), Clean(t.author), Clean(t.artist))
  }

  /** `COALESCE(NULLIF(new, ''), old)`. */
  function Coalesce(new_: Option<string>, was: Option<string>): Option<string> {
    if new_.Some? && new_.value != "" then new_ else was
  }

  function CoalesceTexts(t: Texts, was: Texts): Texts {
    Texts(Coalesce(t.cover, was.cover), Coalesce(t.description, was.description),
          Coalesce(t.author, was.author), Coalesce(t.artist, was.artist))
  }

  const STATUS_NAMES: seq<string> :=
    ["Ongoing", "Completed", "Licensed", "Publishing Finished", "Cancelled", "On Hiatus"]
  const STATUS_KEYS: seq<string> :=
    ["ongoing", "completed", "licensed", "publishing finished", "cancelled", "on hiatus"]

  function IndexOf(keys: seq<string>, k: string): (i: nat)
    ensures i < |keys| ==> keys[i] == k
    ensures i <= |keys|
  {
    if keys == [] then 0 else if keys[0] == k then 0 else 1 + IndexOf(keys[1..], k)
  }

  /** `statusToInt`: 0 for a status that is not one of the six. */
  function StatusToInt(status: string): int {
    var i := IndexOf(STATUS_KEYS, Lower(TrimSpace(status)));
    if i < |STATUS_KEYS| then i + 1 else 0
  }

  function StatusFromInt(i: int): string { if 1 <= i <= 6 then STATUS_NAMES[i - 1] else "" }

  /** What an export and an import make of a status. */
  function StatusBack(status: Option<string>): Option<string> {
    NullString(StatusFromInt(StatusToInt(OrEmpty(status))))
  }

  lemma LowerTo(n: string, k: string)
    requires |n| == |k| > 0 && '!' <= n[0] <= '~' && '!' <= n[|n| - 1] <= '~'
    requires forall i | 0 <= i < |n| :: n[i] < '\U{80}' && LowerChar(n[i]) == k[i]
    ensures Lower(TrimSpace(n)) == k
  {
    EndsPlain(n);
    TrimSpaceIdempotent(n);
    LowerAscii(n);
  }

  lemma StatusKept(i: nat)
    requires i < 6
    ensures StatusToInt(STATUS_NAMES[i]) == i + 1
  {
    hide Lower, TrimSpace, IndexOf;
    KeyOrder(i);
    if i == 0 {
      LowerTo("Ongoing", "ongoing");
    } else if i == 1 {
      LowerTo("Completed", "completed");
    } else if i == 2 {
      LowerTo("Licensed", "licensed");
    } else if i == 3 {
      LowerTo("Publishing Finished", "publishing finished");
    } else if i == 4 {
      LowerTo("Cancelled", "cancelled");
    } else {
      LowerTo("On Hiatus", "on hiatus");
    }
  }

  lemma KeyOrder(i: nat)
    requires i < 6
    ensures IndexOf(STATUS_KEYS, STATUS_KEYS[i]) == i
  {
    KeysDiffer();
    var k := STATUS_KEYS[i];
    IndexFirst(STATUS_KEYS, k, i);
  }

  lemma KeysDiffer()
    ensures forall i, j | 0 <= i < j < 6 :: STATUS_KEYS[i] != STATUS_KEYS[j]
  {
    assert STATUS_KEYS[0][0] == 'o' && STATUS_KEYS[1][0] == 'c' && STATUS_KEYS[2][0] == 'l';
    assert STATUS_KEYS[3][0] == 'p' && STATUS_KEYS[4][1] == 'a' && STATUS_KEYS[5][1] == 'n';
    assert STATUS_KEYS[1][1] == 'o' && STATUS_KEYS[0][2] == 'g' && STATUS_KEYS[5][2] == ' ';
    assert STATUS_KEYS[4][0] == 'c' && STATUS_KEYS[5][0] == 'o';
  }

  lemma IndexFirst(keys: seq<string>, k: string, i: nat)
    requires i < |keys| && keys[i] == k && forall j | 0 <= j < i :: keys[j] != k
    ensures IndexOf(keys, k) == i
  {
    if i == 0 {
    } else {
      IndexFirst(keys[1..], k, i - 1);
    }
  }

  /** The six known statuses come back as they are, whatever was kept of others stays that way. */
  lemma StatusBackStable(status: Option<string>)
    ensures forall i | 0 <= i < 6 :: StatusBack(Some(STATUS_NAMES[i])) == Some(STATUS_NAMES[i])
    ensures StatusBack(StatusBack(status)) == StatusBack(status)
    ensures StatusBack(status) == None || StatusBack(status).value in STATUS_NAMES
  {
    forall i | 0 <= i < 6 ensures StatusBack(Some(STATUS_NAMES[i])) == Some(STATUS_NAMES[i]) { StatusKept(i); }
    assert StatusToInt("") == 0 by { NotAStatus(); }
  }

  /** Case and surrounding white space do not matter, and nothing else is a status. */
  lemma StatusBackIs(status: string)
    ensures forall i | 0 <= i < 6 && Lower(TrimSpace(status)) == STATUS_KEYS[i] ::
              StatusBack(Some(status)) == Some(STATUS_NAMES[i])
    ensures Lower(TrimSpace(status)) !in STATUS_KEYS ==> StatusBack(Some(status)) == None
  {
    hide Lower, TrimSpace;
    KeysDiffer();
    forall i | 0 <= i < 6 && Lower(TrimSpace(status)) == STATUS_KEYS[i]
      ensures StatusBack(Some(status)) == Some(STATUS_NAMES[i])
    {
      IndexFirst(STATUS_KEYS, STATUS_KEYS[i], i);
    }
    if Lower(TrimSpace(status)) !in STATUS_KEYS { IndexMissing(STATUS_KEYS, Lower(TrimSpace(status))); }
  }

  lemma NotAStatus()
    ensures IndexOf(STATUS_KEYS, "") == 6 && Lower(TrimSpace("")) == ""
  {
    assert forall i | 0 <= i < 6 :: STATUS_KEYS[i] != "";
    IndexMissing(STATUS_KEYS, "");
  }

  lemma IndexMissing(keys: seq<string>, k: string)
    requires forall j | 0 <= j < |keys| :: keys[j] != k
    ensures IndexOf(keys, k) == |keys|
  {
  }

  function OrZero(n: Option<int>): int { if n.Some? then n.value else 0 }

  function ExportChapter(c: (string, Row)): BackupChapter {
    var r := c.1;
    BackupChapter(c.0, OrEmpty(r.title), F32(Stored(OrZero(r.number))), OrZero(r.order),
                  Wrap64(OrZero(r.uploaded) * 1000), NullString(r.scanlator), r.completed)
  }

  /** The row an imported chapter leaves; a read mark is never taken back. */
  function ImportChapter(bc: BackupChapter, was: Option<Row>): Row {
    Row(NullString(bc.name), Some(Hundredths(bc.number)), if bc.date > 0 then Some(bc.date / 1000) else None,
        Some(bc.order), OrEmpty(bc.scanlator), bc.read || (was.Some? && was.value.completed))
  }

  /** The trackers a backup can name, by their numbers there. */
  function SyncIdOf(tracker: string): Option<int> {
    if tracker == "mal" then Some(1) else if tracker == "anilist" then Some(2) else None
  }

  function TrackerOf(syncId: int): Option<string> {
    if syncId == 1 then Some("mal") else if syncId == 2 then Some("anilist") else None
  }

  lemma TrackerNumbers(tracker: string, id: int)
    ensures SyncIdOf("mal") == Some(1) && SyncIdOf("anilist") == Some(2)
    ensures SyncIdOf(tracker) == Some(id) <==> TrackerOf(id) == Some(tracker)
  {
  }

  function ExportLink(syncId: int, l: Link): BackupTracking {
    BackupTracking(syncId, ParseInt(l.remoteId), 0, ParseInt(OrEmpty(l.libraryId)), l.title, l.url, Wrap32(l.status),
                   F32(l.last), Wrap32(l.total), F32(l.score), l.private_ != 0)
  }

  function RemoteId(bt: BackupTracking): string {
    if bt.mediaId != 0 then Itoa(bt.mediaId) else if bt.mediaIdInt != 0 then Itoa(bt.mediaIdInt) else ""
  }

  /** The link an imported one leaves; whether progress is synced is never changed. */
  function ImportLink(bt: BackupTracking, was: Option<Link>): Link {
    Link(RemoteId(bt), NullString(Itoa(bt.libraryId)), bt.title, bt.url, bt.status, bt.last, bt.total, bt.score,
         None, None, if bt.private_ then 1 else 0, was.Some? ==> was.value.sync)
  }

  // ---------------------------------------------------------------- export

  /** Categories are numbered as their folders first appear. */
  ghost predicate Indexed(s: Snapshot, n: nat, categories: seq<string>, index: map<int, int>)
    requires s.Valid() && n <= |s.folderRows|
  {
    && (forall i | 0 <= i < n && s.folderRows[i].custom :: s.folderRows[i].folder in index)
    && (forall f | f in index ::
          f in s.folderName && 0 <= index[f] < |categories| && categories[index[f]] == s.folderName[f])
    && (forall f, g | f in index && g in index && index[f] == index[g] :: f == g)
  }

  /** The categories an entry is exported with, in row order. */
  function CategoryIndices(rows: seq<FolderRow>, index: map<int, int>, id: int): seq<int> {
    if rows == [] then []
    else
      var last := rows[|rows| - 1];
      CategoryIndices(rows[..|rows| - 1], index, id)
      + if last.media == id && last.custom && last.folder in index then [index[last.folder]] else []
  }

  function ExportMedia(s: Snapshot, m: Media, index: map<int, int>): BackupManga {
    BackupManga(s.Source(m), m.url, m.title, CleanTexts(m.texts), StatusToInt(OrEmpty(m.status)),
                ExportChapters(m.chapters), CategoryIndices(s.folderRows, index, m.id), ExportLinks(m.links))
  }

  /** The links to trackers a backup can name. */
  function ExportLinks(links: seq<(string, Link)>): seq<BackupTracking> {
    if links == [] then []
    else
      var last := links[|links| - 1];
      ExportLinks(links[..|links| - 1])
      + match SyncIdOf(last.0) case None => [] case Some(id) => [ExportLink(id, last.1)]
  }

  function ExportChapters(cs: seq<(string, Row)>): (out: seq<BackupChapter>)
    ensures |out| == |cs| && forall i | 0 <= i < |cs| :: out[i] == ExportChapter(cs[i])
  {
    seq(|cs|, i requires 0 <= i < |cs| => ExportChapter(cs[i]))
  }

  /** b is an export of s. */
  ghost predicate Exported(s: Snapshot, b: Backup, index: map<int, int>)
    requires s.Valid()
  {
    && Indexed(s, |s.folderRows|, b.categories, index)
    && First(b.categories, |b.categories|) == s.CustomNames(|s.folderRows|)
    && |b.manga| == |s.media|
    && forall i | 0 <= i < |s.media| :: b.manga[i] == ExportMedia(s, s.media[i], index)
  }

  /** The indices later rows bring in do not change earlier rows' categories. */
  lemma IndicesGrow(rows: seq<FolderRow>, index: map<int, int>, more: map<int, int>, id: int)
    requires forall f | f in index :: f in more && more[f] == index[f]
    requires forall i | 0 <= i < |rows| && rows[i].custom :: rows[i].folder in index
    ensures CategoryIndices(rows, index, id) == CategoryIndices(rows, more, id)
  {
    if rows == [] {
    } else {
      IndicesGrow(rows[..|rows| - 1], index, more, id);
    }
  }

  lemma IndicesStep(rows: seq<FolderRow>, n: nat, index: map<int, int>, id: int)
    requires n < |rows|
    ensures CategoryIndices(rows[..n + 1], index, id) ==
            if rows[n].media == id && rows[n].custom && rows[n].folder in index
            then CategoryIndices(rows[..n], index, id) + [index[rows[n].folder]]
            else CategoryIndices(rows[..n], index, id)
  {
    assert rows[..n + 1][..n] == rows[..n];
  }

  /** `byMedia` holds every entry's category numbers, as far as the rows were read. */
  ghost predicate Collected(byMedia: map<int, seq<int>>, rows: seq<FolderRow>, index: map<int, int>) {
    forall id :: Numbered(byMedia, id) == CategoryIndices(rows, index, id)
  }

  function Numbered(byMedia: map<int, seq<int>>, id: int): seq<int> {
    if id in byMedia then byMedia[id] else []
  }

  lemma CollectedStep(byMedia: map<int, seq<int>>, s: Snapshot, n: nat, before: map<int, int>, index: map<int, int>)
    requires s.Valid() && n < |s.folderRows| && Collected(byMedia, s.folderRows[..n], before)
    requires forall f | f in before :: f in index && index[f] == before[f]
    requires forall i | 0 <= i < n && s.folderRows[i].custom :: s.folderRows[i].folder in before
    requires var row := s.folderRows[n]; row.custom ==> row.folder in index
    ensures var row := s.folderRows[n];
            if row.custom
            then Collected(byMedia[row.media := Numbered(byMedia, row.media) + [index[row.folder]]],
                           s.folderRows[..n + 1], index)
            else Collected(byMedia, s.folderRows[..n + 1], index)
  {
    hide CategoryIndices;
    forall id ensures CategoryIndices(s.folderRows[..n], before, id) == CategoryIndices(s.folderRows[..n], index, id) {
      IndicesGrow(s.folderRows[..n], before, index, id);
    }
    forall id ensures CategoryIndices(s.folderRows[..n + 1], index, id) ==
            if s.folderRows[n].media == id && s.folderRows[n].custom && s.folderRows[n].folder in index
            then CategoryIndices(s.folderRows[..n], index, id) + [index[s.folderRows[n].folder]]
            else CategoryIndices(s.folderRows[..n], index, id)
    {
      IndicesStep(s.folderRows, n, index, id);
    }
    var row := s.folderRows[n];
    if row.custom {
      var more := byMedia[row.media := Numbered(byMedia, row.media) + [index[row.folder]]];
      forall id ensures Numbered(more, id) == CategoryIndices(s.folderRows[..n + 1], index, id) {
        assert Numbered(byMedia, id) == CategoryIndices(s.folderRows[..n], index, id);
      }
    }
  }

  lemma IndexedNew(s: Snapshot, n: nat, categories: seq<string>, index: map<int, int>)
    requires s.Valid() && n < |s.folderRows| && Indexed(s, n, categories, index)
    requires s.folderRows[n].folder !in index
    ensures var f := s.folderRows[n].folder;
            Indexed(s, n + 1, categories + [s.folderName[f]], index[f := |categories|])
  {
  }

  /** A folder that has a category brings no new name. */
  lemma NamesStep(s: Snapshot, n: nat, categories: seq<string>, index: map<int, int>)
    requires s.Valid() && n < |s.folderRows| && Indexed(s, n, categories, index)
    ensures s.CustomNames(n + 1) ==
            s.CustomNames(n) + if s.folderRows[n].custom then {s.folderName[s.folderRows[n].folder]} else {}
    ensures s.folderRows[n].folder in index ==>
              s.folderName[s.folderRows[n].folder] in First(categories, |categories|)
  {
    var f := s.folderRows[n].folder;
    if f in index { assert categories[index[f]] == s.folderName[f]; }
  }

  lemma FirstMore(categories: seq<string>, name: string)
    ensures First(categories + [name], |categories| + 1) == First(categories, |categories|) + {name}
  {
    var more := categories + [name];
    assert more[|categories|] == name;
    assert forall i | 0 <= i < |categories| :: more[i] == categories[i];
  }

  /** The folder loop of `Export`. */
  method IndexCategories(s: Snapshot)
    returns (categories: seq<string>, index: map<int, int>, byMedia: map<int, seq<int>>)
    requires s.Valid()
    ensures Indexed(s, |s.folderRows|, categories, index) && Collected(byMedia, s.folderRows, index)
    ensures First(categories, |categories|) == s.CustomNames(|s.folderRows|)
  {
    hide Collected, CategoryIndices, First, Snapshot.CustomNames;
    assert First([], 0) == s.CustomNames(0) by { NoNames(s); }
    categories, index, byMedia := [], map[], map[];
    assert Collected(byMedia, s.folderRows[..0], index) by { NothingCollected(); }
    for n := 0 to |s.folderRows|
      invariant Indexed(s, n, categories, index) && Collected(byMedia, s.folderRows[..n], index)
      invariant First(categories, |categories|) == s.CustomNames(n)
    {
      NamesStep(s, n, categories, index);
      var row := s.folderRows[n];
      ghost var before := index;
      if !row.custom {
        CollectedStep(byMedia, s, n, before, index);
        continue;
      }
      if row.folder !in index {
        IndexedNew(s, n, categories, index);
        FirstMore(categories, s.folderName[row.folder]);
        index := index[row.folder := |categories|];
        categories := categories + [s.folderName[row.folder]];
      }
      CollectedStep(byMedia, s, n, before, index);
      byMedia := byMedia[row.media := Numbered(byMedia, row.media) + [index[row.folder]]];
    }
    assert s.folderRows[..|s.folderRows|] == s.folderRows;
  }

  lemma NoNames(s: Snapshot)
    requires s.Valid()
    ensures First([], 0) == s.CustomNames(0) == {}
  {
  }

  lemma NothingCollected()
    ensures Collected(map[], [], map[])
  {
  }

  method ExportEach(cs: seq<(string, Row)>) returns (out: seq<BackupChapter>)
    ensures out == ExportChapters(cs)
  {
    hide ExportChapter;
    out := [];
    for i := 0 to |cs|
      invariant |out| == i && forall k | 0 <= k < i :: out[k] == ExportChapter(cs[k])
    {
      out := out + [ExportChapter(cs[i])];
    }
  }

  method ExportTracking(links: seq<(string, Link)>) returns (out: seq<BackupTracking>)
    ensures out == ExportLinks(links)
  {
    hide ExportLink;
    out := [];
    for i := 0 to |links|
      invariant out == ExportLinks(links[..i])
    {
      assert links[..i + 1][..i] == links[..i];
      var id := SyncIdOf(links[i].0);
      if id.None? { continue; }
      out := out + [ExportLink(id.value, links[i].1)];
    }
    assert links[..|links|] == links;
  }

  method Export(s: Snapshot) returns (b: Backup)
    requires s.Valid()
    ensures exists index :: Exported(s, b, index)
  {
    hide CategoryIndices, StatusToInt, ExportChapters, ExportLinks, CleanTexts, Indexed, First, Snapshot.CustomNames;
    var categories, index, byMedia := IndexCategories(s);
    var manga := [];
    for i := 0 to |s.media|
      invariant |manga| == i && forall j | 0 <= j < i :: manga[j] == ExportMedia(s, s.media[j], index)
    {
      var m := s.media[i];
      var chapters := ExportEach(m.chapters);
      var tracking := ExportTracking(m.links);
      manga := manga + [BackupManga(s.Source(m), m.url, m.title, CleanTexts(m.texts), StatusToInt(OrEmpty(m.status)),
                                    chapters, Numbered(byMedia, m.id), tracking)];
    }
    b := Backup(manga, categories);
    assert Exported(s, b, index);
  }

  // ---------------------------------------------------------------- import

  function RowIn(chapters: map<string, Row>, url: string): Option<Row> {
    if url in chapters then Some(chapters[url]) else None
  }

  function WithChapters(chapters: map<string, Row>, bcs: seq<BackupChapter>): map<string, Row> {
    if bcs == [] then chapters
    else
      var before := WithChapters(chapters, bcs[..|bcs| - 1]);
      var bc := bcs[|bcs| - 1];
      before[bc.url := ImportChapter(bc, RowIn(before, bc.url))]
  }

  /** An entry before an import that may make it. */
  function Before(e: Option<Entry>): Entry {
    match e
    case Some(x) => x
    case None => Entry("", Texts(None, None, None, None), None, false, map[], {}, map[])
  }

  /** `UpsertMediaDetails`, and `AddMediaToLibrary`. */
  function Upserted(e: Option<Entry>, bm: BackupManga): Entry {
    var status := NullString(StatusFromInt(bm.status));
    match e
    case None => Before(None).(title := bm.title, texts := CleanTexts(bm.texts), status := status, inLibrary := true)
    case Some(was) =>
      was.(title := if bm.title != "" then bm.title else was.title,
           texts := CoalesceTexts(bm.texts, was.texts),
           status := Coalesce(status, was.status),
           inLibrary := true)
  }

  function LinkIn(links: map<string, Link>, tracker: string): Option<Link> {
    if tracker in links then Some(links[tracker]) else None
  }

  /** A link is taken if there is an account with its tracker and it has a remote id. */
  predicate Taken(bt: BackupTracking, accounts: set<string>) {
    var tracker := TrackerOf(bt.syncId);
    tracker.Some? && tracker.value in accounts && RemoteId(bt) != ""
  }

  function WithLinks(links: map<string, Link>, bts: seq<BackupTracking>, accounts: set<string>): map<string, Link> {
    if bts == [] then links
    else
      var before := WithLinks(links, bts[..|bts| - 1], accounts);
      var bt := bts[|bts| - 1];
      if !Taken(bt, accounts) then before
      else
        var tracker := TrackerOf(bt.syncId).value;
        before[tracker := ImportLink(bt, LinkIn(before, tracker))]
  }

  function CountTaken(bts: seq<BackupTracking>, accounts: set<string>): nat {
    if bts == [] then 0 else CountTaken(bts[..|bts| - 1], accounts) + if Taken(bts[|bts| - 1], accounts) then 1 else 0
  }

  datatype Warning = NotInstalled(title: string) | NotLoggedIn(title: string, tracker: string)

  function LinkWarnings(title: string, bts: seq<BackupTracking>, accounts: set<string>): seq<Warning> {
    if bts == [] then []
    else
      var tracker := TrackerOf(bts[|bts| - 1].syncId);
      LinkWarnings(title, bts[..|bts| - 1], accounts)
      + if tracker.Some? && tracker.value !in accounts then [NotLoggedIn(title, tracker.value)] else []
  }

  /** ... with the folders, the chapters and the links. */
  function Loaded(was: Option<Entry>, bm: BackupManga, folders: set<int>, accounts: set<string>): Entry {
    var e := Upserted(was, bm);
    e.(chapters := WithChapters(e.chapters, bm.chapters), folders := e.folders + folders,
       links := WithLinks(e.links, bm.tracking, accounts))
  }

  /** The folders an entry's category numbers lead to; a number without a category leads nowhere. */
  function FoldersOf(categories: seq<int>, folderOf: map<int, int>): set<int> {
    set c | c in categories && c in folderOf :: folderOf[c]
  }

  function EntryIn(library: map<Key, Entry>, k: Key): Option<Entry> {
    if k in library then Some(library[k]) else None
  }

  function WithManga(library: map<Key, Entry>, bm: BackupManga, installed: map<int, int>, accounts: set<string>,
                     folderOf: map<int, int>): map<Key, Entry>
  {
    if bm.source !in installed then library
    else
      var k := (installed[bm.source], bm.url);
      library[k := Loaded(EntryIn(library, k), bm, FoldersOf(bm.categories, folderOf), accounts)]
  }

  function WithAll(library: map<Key, Entry>, bms: seq<BackupManga>, installed: map<int, int>, accounts: set<string>,
                   folderOf: map<int, int>): map<Key, Entry>
  {
    if bms == [] then library
    else
      var before := WithAll(library, bms[..|bms| - 1], installed, accounts, folderOf);
      WithManga(before, bms[|bms| - 1], installed, accounts, folderOf)
  }

  /** What an import reports: entries taken, entries left, links taken, and the warnings. */
  datatype Report = Report(imported: nat, skipped: nat, tracked: nat, warnings: seq<Warning>)

  function WithReport(r: Report, bm: BackupManga, installed: map<int, int>, accounts: set<string>): Report {
    if bm.source !in installed then r.(skipped := r.skipped + 1, warnings := r.warnings + [NotInstalled(bm.title)])
    else
      r.(imported := r.imported + 1, tracked := r.tracked + CountTaken(bm.tracking, accounts),
         warnings := r.warnings + LinkWarnings(bm.title, bm.tracking, accounts))
  }

  function Reported(bms: seq<BackupManga>, installed: map<int, int>, accounts: set<string>): Report {
    if bms == [] then Report(0, 0, 0, [])
    else WithReport(Reported(bms[..|bms| - 1], installed, accounts), bms[|bms| - 1], installed, accounts)
  }

  lemma OneMore(library: map<Key, Entry>, bms: seq<BackupManga>, n: nat, installed: map<int, int>,
                accounts: set<string>, folderOf: map<int, int>)
    requires n < |bms|
    ensures WithAll(library, bms[..n + 1], installed, accounts, folderOf)
            == WithManga(WithAll(library, bms[..n], installed, accounts, folderOf), bms[n], installed, accounts,
                         folderOf)
    ensures Reported(bms[..n + 1], installed, accounts)
            == WithReport(Reported(bms[..n], installed, accounts), bms[n], installed, accounts)
  {
    hide WithManga, WithReport;
    assert bms[..n + 1][..n] == bms[..n];
  }

  lemma NoneYet(library: map<Key, Entry>, bms: seq<BackupManga>, installed: map<int, int>, accounts: set<string>,
                folderOf: map<int, int>)
    ensures WithAll(library, bms[..0], installed, accounts, folderOf) == library
    ensures Reported(bms[..0], installed, accounts) == Report(0, 0, 0, [])
  {
  }

  /** Every link to a tracker a backup can name has an account. */
  ghost predicate LoggedIn(bts: seq<BackupTracking>, accounts: set<string>) {
    forall i | 0 <= i < |bts| && TrackerOf(bts[i].syncId).Some? :: TrackerOf(bts[i].syncId).value in accounts
  }

  lemma NoneLoggedIn(accounts: set<string>)
    ensures LoggedIn([], accounts)
  {
  }

  lemma {:induction false} LinkWarningsExactly(title: string, bts: seq<BackupTracking>, accounts: set<string>)
    ensures LinkWarnings(title, bts, accounts) == [] <==> LoggedIn(bts, accounts)
    decreases |bts|
  {
    hide TrackerOf, LoggedIn;
    if bts == [] {
      assert LoggedIn([], accounts) by { NoneLoggedIn(accounts); }
    } else {
      var n := |bts| - 1;
      LinkWarningsExactly(title, bts[..n], accounts);
      LoggedInMore(bts[..n], bts[n], accounts);
      assert bts[..n] + [bts[n]] == bts;
    }
  }

  /** Every entry is counted, and an import warns exactly about missing sources and missing accounts. */
  lemma {:induction false} ReportIs(bms: seq<BackupManga>, installed: map<int, int>, accounts: set<string>)
    ensures var r := Reported(bms, installed, accounts);
            && r.imported + r.skipped == |bms|
            && (r.skipped == 0 <==> forall i | 0 <= i < |bms| :: bms[i].source in installed)
            && (r.warnings == [] <==>
                forall i | 0 <= i < |bms| :: bms[i].source in installed && LoggedIn(bms[i].tracking, accounts))
    decreases |bms|
  {
    hide LoggedIn, LinkWarnings, CountTaken;
    if bms == [] {
    } else {
      var n := |bms| - 1;
      ReportIs(bms[..n], installed, accounts);
      LinkWarningsExactly(bms[n].title, bms[n].tracking, accounts);
      assert forall i | 0 <= i < n :: bms[..n][i] == bms[i];
    }
  }

  class Target {
    const installed: map<int, int>  // the installed extension of each source id
    const accounts: set<string>     // the trackers logged in to
    var library: map<Key, Entry>
    var folders: map<int, string>   // the custom folders
    var nextFolder: int

    ghost predicate Valid()
      reads this
    {
      forall f | f in folders :: f < nextFolder
    }

    constructor (installed: map<int, int>, accounts: set<string>, library: map<Key, Entry>, folders: map<int, string>,
                 nextFolder: int)
      requires forall f | f in folders :: f < nextFolder
      ensures Valid() && this.installed == installed && this.accounts == accounts
      ensures this.library == library && this.folders == folders
    {
      this.installed, this.accounts, this.library := installed, accounts, library;
      this.folders, this.nextFolder := folders, nextFolder;
    }

    /** `GetCustomFolderByName`, and `CreateFolder` when there is none. */
    method FolderNamed(name: string) returns (id: int, created: bool)
      requires Valid()
      modifies this`folders, this`nextFolder
      ensures Valid() && id in folders && folders[id] == name
      ensures created <==> name !in Names(old(folders))
      ensures folders == if created then old(folders)[id := name] else old(folders)
      ensures created ==> id !in old(folders)
    {
      if f :| f in folders && folders[f] == name { return f, false; }
      id, created := nextFolder, true;
      folders := folders[id := name];
      nextFolder := nextFolder + 1;
    }

    /** The category loop of `Import`. */
    method MapCategories(categories: seq<string>) returns (folderOf: map<int, int>, made: nat)
      requires Valid()
      modifies this`folders, this`nextFolder
      ensures Valid() && Mapped(categories, folderOf, folders)
      ensures forall f | f in old(folders) :: f in folders && folders[f] == old(folders)[f]
      ensures Names(folders) == Names(old(folders)) + First(categories, |categories|)
      ensures |folders| == |old(folders)| + made
    {
      hide Mapped, Names;
      folderOf, made := map[], 0;
      assert Mapped(categories[..0], folderOf, folders) by { NothingMapped(folders); }
      for i := 0 to |categories|
        invariant Valid() && Mapped(categories[..i], folderOf, folders)
        invariant forall f | f in old(folders) :: f in folders && folders[f] == old(folders)[f]
        invariant Names(folders) == Names(old(folders)) + First(categories, i)
        invariant |folders| == |old(folders)| + made
      {
        ghost var before := folders;
        var id, created := FolderNamed(categories[i]);
        if created { made := made + 1; }
        NamesGrow(before, folders, id, categories[i]);
        MappedStep(categories, i, folderOf, before, folders, id);
        folderOf := folderOf[i := id];
      }
      assert categories[..|categories|] == categories;
    }

    method LoadManga(ext: int, bm: BackupManga, folderOf: map<int, int>) returns (tracked: nat, warnings: seq<Warning>)
      modifies this`library
      ensures library == old(library)[(ext, bm.url) :=
                Loaded(EntryIn(old(library), (ext, bm.url)), bm, FoldersOf(bm.categories, folderOf), accounts)]
      ensures tracked == CountTaken(bm.tracking, accounts)
      ensures warnings == LinkWarnings(bm.title, bm.tracking, accounts)
    {
      hide Upserted, WithChapters, WithLinks, FoldersOf, CountTaken, LinkWarnings;
      var k := (ext, bm.url);
      var e := Upserted(EntryIn(library, k), bm);
      var folders := AddFolders(e.folders, bm.categories, folderOf);
      var chapters := AddChapters(e.chapters, bm.chapters);
      var links;
      links, tracked, warnings := AddLinks(e.links, bm.title, bm.tracking, accounts);
      library := library[k := e.(chapters := chapters, folders := folders, links := links)];
    }

    /** `AddMediaToFolder` for each category that has a folder. */
    static method AddFolders(folders: set<int>, categories: seq<int>, folderOf: map<int, int>) returns (r: set<int>)
      ensures r == folders + FoldersOf(categories, folderOf)
    {
      r := folders;
      for i := 0 to |categories|
        invariant r == folders + FoldersOf(categories[..i], folderOf)
      {
        var c := categories[i];
        assert categories[..i + 1] == categories[..i] + [c];
        if c !in folderOf { continue; }
        r := r + {folderOf[c]};
      }
      assert categories[..|categories|] == categories;
    }

    /** `CreateChapter` for each chapter, and its read mark. */
    static method AddChapters(chapters: map<string, Row>, bcs: seq<BackupChapter>) returns (r: map<string, Row>)
      ensures r == WithChapters(chapters, bcs)
    {
      r := chapters;
      for i := 0 to |bcs|
        invariant r == WithChapters(chapters, bcs[..i])
      {
        assert bcs[..i + 1][..i] == bcs[..i];
        r := r[bcs[i].url := ImportChapter(bcs[i], RowIn(r, bcs[i].url))];
      }
      assert bcs[..|bcs|] == bcs;
    }

    /** `UpsertTrackerLink` for each link that can be taken. */
    static method AddLinks(links: map<string, Link>, title: string, bts: seq<BackupTracking>, accounts: set<string>)
      returns (r: map<string, Link>, tracked: nat, warnings: seq<Warning>)
      ensures r == WithLinks(links, bts, accounts) && tracked == CountTaken(bts, accounts)
      ensures warnings == LinkWarnings(title, bts, accounts)
    {
      hide ImportLink, RemoteId;
      r, tracked, warnings := links, 0, [];
      for i := 0 to |bts|
        invariant r == WithLinks(links, bts[..i], accounts) && tracked == CountTaken(bts[..i], accounts)
        invariant warnings == LinkWarnings(title, bts[..i], accounts)
      {
        assert bts[..i + 1][..i] == bts[..i];
        var bt := bts[i];
        var tracker := TrackerOf(bt.syncId);
        if tracker.None? { continue; }
        if tracker.value !in accounts {
          warnings := warnings + [NotLoggedIn(title, tracker.value)];
          continue;
        }
        if RemoteId(bt) == "" { continue; }
        r := r[tracker.value := ImportLink(bt, LinkIn(r, tracker.value))];
        tracked := tracked + 1;
      }
      assert bts[..|bts|] == bts;
    }

    method Import(b: Backup) returns (report: Report, made: nat, ghost folderOf: map<int, int>)
      requires Valid()
      modifies this
      ensures Valid() && Mapped(b.categories, folderOf, folders)
      ensures library == WithAll(old(library), b.manga, installed, accounts, folderOf)
      ensures forall f | f in old(folders) :: f in folders && folders[f] == old(folders)[f]
      ensures AllKept(old(library), library)
      ensures Names(folders) == Names(old(folders)) + First(b.categories, |b.categories|)
      ensures |folders| == |old(folders)| + made
      ensures report == Reported(b.manga, installed, accounts) && report.imported + report.skipped == |b.manga|
    {
      hide Mapped, Names, First, Loaded, FoldersOf, CountTaken, LinkWarnings, WithAll, Reported, AllKept;
      var toFolder;
      toFolder, made := MapCategories(b.categories);
      folderOf := toFolder;
      report := Report(0, 0, 0, []);
      ghost var fs, nf := folders, nextFolder;
      NoneYet(library, b.manga, installed, accounts, toFolder);
      for n := 0 to |b.manga|
        invariant folders == fs && nextFolder == nf
        invariant library == WithAll(old(library), b.manga[..n], installed, accounts, folderOf)
        invariant report == Reported(b.manga[..n], installed, accounts)
      {
        OneMore(old(library), b.manga, n, installed, accounts, toFolder);
        var bm := b.manga[n];
        if bm.source !in installed {
          report := report.(skipped := report.skipped + 1, warnings := report.warnings + [NotInstalled(bm.title)]);
          continue;
        }
        var tracked, warnings := LoadManga(installed[bm.source], bm, toFolder);
        report := Report(report.imported + 1, report.skipped, report.tracked + tracked, report.warnings + warnings);
      }
      assert b.manga[..|b.manga|] == b.manga;
      ReportIs(b.manga, installed, accounts);
      AllLoadedKeep(old(library), b.manga, installed, accounts, toFolder);
    }
  }

  /** Each category number leads to a folder of its name. */
  ghost predicate Mapped(categories: seq<string>, folderOf: map<int, int>, folders: map<int, string>) {
    && (forall c | c in folderOf :: 0 <= c < |categories|)
    && forall i | 0 <= i < |categories| ::
         i in folderOf && folderOf[i] in folders && folders[folderOf[i]] == categories[i]
  }

  lemma NothingMapped(folders: map<int, string>)
    ensures Mapped([], map[], folders)
  {
  }

  lemma MappedStep(categories: seq<string>, i: nat, folderOf: map<int, int>, before: map<int, string>,
                   folders: map<int, string>, id: int)
    requires i < |categories| && Mapped(categories[..i], folderOf, before)
    requires folders == before[id := categories[i]] && (id in before ==> before[id] == categories[i])
    ensures Mapped(categories[..i + 1], folderOf[i := id], folders)
    ensures First(categories, i + 1) == First(categories, i) + {categories[i]}
  {
  }

  ghost function First(categories: seq<string>, n: nat): set<string>
    requires n <= |categories|
  {
    set i | 0 <= i < n :: categories[i]
  }

  ghost function Names(folders: map<int, string>): set<string> { set f | f in folders :: folders[f] }

  lemma NamesGrow(before: map<int, string>, after: map<int, string>, id: int, name: string)
    requires after == before[id := name] && (id in before ==> before[id] == name)
    ensures Names(after) == Names(before) + {name}
  {
    assert id in after && after[id] == name;
    forall f | f in before ensures f in after && after[f] == before[f] {}
  }

  // ---------------------------------------------------------------- there and back

  /** What a row is after a backup, if there was none at the target. */
  function RowBack(r: Row): Row { ImportChapter(ExportChapter(("", r)), None) }

  lemma Upload(u: int)
    ensures var d := Wrap64(u * 1000); d > 0 && d / 1000 == u <==> 0 < u <= 9223372036854775
  {
  }

  /** A row comes back as it was exactly when it has a number and a place, no empty title, an upload
      second that is positive and fits in milliseconds (or none), and a number that survives, as all up
      to 131072 do. */
  lemma RowBackExactly(r: Row)
    ensures RowBack(r) == r <==>
            && r.title != Some("") && r.number.Some? && r.order.Some?
            && (r.uploaded.Some? ==> 0 < r.uploaded.value <= 9223372036854775)
            && Returned(OrZero(r.number)) == OrZero(r.number)
    ensures -13107200 <= OrZero(r.number) <= 13107200 ==> Returned(OrZero(r.number)) == OrZero(r.number)
  {
    hide Hundredths, F32, Stored;
    if -13107200 <= OrZero(r.number) <= 13107200 { ReturnsExactly(OrZero(r.number)); }
    Upload(OrZero(r.uploaded));
  }

  /** A row after a backup, field by field, over the one at the target: read if either is read, and the
      rest from the exported one. */
  ghost predicate RowOver(r: Row, was: Option<Row>, now: Row) {
    && (now.completed <==> r.completed || (was.Some? && was.value.completed))
    && now.title == (if r.title == Some("") then None else r.title)
    && now.number == Some(Returned(OrZero(r.number)))
    && now.order == Some(if r.order.Some? then r.order.value else 0)
    && now.scanlator == r.scanlator
    && (r.uploaded.Some? && 0 < r.uploaded.value <= 9223372036854775 ==> now.uploaded == r.uploaded)
    && (r.uploaded.None? || -9223372036854775 <= r.uploaded.value <= 0 ==> now.uploaded == None)
  }

  lemma RowOverHolds(c: (string, Row), was: Option<Row>)
    ensures RowOver(c.1, was, ImportChapter(ExportChapter(c), was))
  {
    hide Hundredths, F32, Stored;
    Upload(OrZero(c.1.uploaded));
  }

  /** A text after a backup: the exported one, unless that is empty. */
  ghost predicate TextOver(sent: Option<string>, was: Option<string>, now: Option<string>) {
    now == if sent.Some? && sent.value != "" then sent else was
  }

  ghost predicate TextsOver(sent: Texts, was: Texts, now: Texts) {
    && TextOver(sent.cover, was.cover, now.cover) && TextOver(sent.description, was.description, now.description)
    && TextOver(sent.author, was.author, now.author) && TextOver(sent.artist, was.artist, now.artist)
  }

  /** A link after a backup, field by field, over the one at the target. */
  ghost predicate LinkFields(l: Link, was: Option<Link>, now: Link) {
    && now.remoteId == Itoa(ParseInt(l.remoteId))
    && now.libraryId == Some(if l.libraryId.Some? then Itoa(ParseInt(l.libraryId.value)) else "0")
    && now.title == l.title && now.url == l.url && now.status == Wrap32(l.status) && now.total == Wrap32(l.total)
    && now.last == F32(l.last) && now.score == F32(l.score) && now.started == None && now.finished == None
    && (now.private_ == 0 <==> l.private_ == 0) && 0 <= now.private_ <= 1
    && now.sync == (if was.Some? then was.value.sync else true)
  }

  lemma LinkFieldsHold(l: Link, was: Option<Link>)
    requires ParseInt(l.remoteId) != 0
    ensures LinkFields(l, was, LinkOver(l, was))
  {
    hide F32, ParseInt, Wrap32, Itoa;
    Written(ParseInt(OrEmpty(l.libraryId)));
    WrittenZero();
    assert ParseInt("") == 0 by { NoNumber(); }
  }

  lemma NoNumber()
    ensures ParseInt("") == 0
  {
  }

  /** What a link is after a backup, over the one at the target. */
  function LinkOver(l: Link, was: Option<Link>): Link { ImportLink(ExportLink(0, l), was) }

  /** A link that has a remote number and no counterpart at the target comes back as it was exactly when
      both of its ids are decimal integers, what is kept in 32 bits fits them, it has no dates, and its
      progress is synced. */
  lemma LinkBackExactly(l: Link)
    requires Finite(l.last) && Finite(l.score)
    ensures ParseInt(l.remoteId) != 0 && LinkOver(l, None) == l <==>
            && Decimal(l.remoteId) && l.remoteId != "0" && l.libraryId.Some? && Decimal(l.libraryId.value)
            && Int32(l.status) && Int32(l.total) && Single(l.last) && Single(l.score)
            && l.started == None && l.finished == None && 0 <= l.private_ <= 1 && l.sync
  {
    hide F32, Single, Itoa, ParseInt, Decimal, Finite, Wrap32;
    SingleExactly(l.last);
    SingleExactly(l.score);
    Wrap32Exactly(l.status);
    Wrap32Exactly(l.total);
    IdsBack(l);
  }

  lemma Wrap32Exactly(n: int)
    ensures Wrap32(n) == n <==> Int32(n)
  {
  }

  lemma IdsBack(l: Link)
    ensures ParseInt(l.remoteId) != 0 && LinkOver(l, None).remoteId == l.remoteId <==>
            Decimal(l.remoteId) && l.remoteId != "0"
    ensures LinkOver(l, None).libraryId == l.libraryId <==> l.libraryId.Some? && Decimal(l.libraryId.value)
  {
    hide F32, Itoa, ParseInt, Decimal, Wrap32;
    WrittenZero();
    DecimalExactly(l.remoteId);
    DecimalExactly(OrEmpty(l.libraryId));
    Written(ParseInt(OrEmpty(l.libraryId)));
  }

  predicate Int32(n: int) { -0x8000_0000 <= n < 0x8000_0000 }

  lemma Written(n: int)
    ensures Itoa(n) != ""
  {
  }

  lemma WrittenZero()
    ensures Itoa(0) == "0" && ParseInt("0") == 0
  {
    ParseItoa(0);
  }

  /** A link without a library id comes back with the id 0. */
  lemma LibraryIdAppears(l: Link, was: Option<Link>)
    requires l.libraryId == None
    ensures LinkOver(l, was).libraryId == Some("0")
  {
    WrittenZero();
  }

  lemma WithChaptersOther(chapters: map<string, Row>, bcs: seq<BackupChapter>, url: string)
    requires forall i | 0 <= i < |bcs| :: bcs[i].url != url
    ensures RowIn(WithChapters(chapters, bcs), url) == RowIn(chapters, url)
  {
    if bcs == [] {
    } else {
      WithChaptersOther(chapters, bcs[..|bcs| - 1], url);
    }
  }

  lemma {:induction false} WithChaptersAt(chapters: map<string, Row>, bcs: seq<BackupChapter>, i: nat)
    requires i < |bcs| && forall a, b | 0 <= a < b < |bcs| :: bcs[a].url != bcs[b].url
    ensures RowIn(WithChapters(chapters, bcs), bcs[i].url) == Some(ImportChapter(bcs[i], RowIn(chapters, bcs[i].url)))
    decreases |bcs|
  {
    hide ImportChapter;
    var rest := bcs[..|bcs| - 1];
    if i < |rest| {
      WithChaptersAt(chapters, rest, i);
      assert bcs[i].url != bcs[|bcs| - 1].url;
    } else {
      WithChaptersOther(chapters, rest, bcs[i].url);
    }
  }

  ghost function BackupUrls(bcs: seq<BackupChapter>): set<string> { set i | 0 <= i < |bcs| :: bcs[i].url }

  lemma BackupUrlsStep(bcs: seq<BackupChapter>)
    requires bcs != []
    ensures BackupUrls(bcs) == BackupUrls(bcs[..|bcs| - 1]) + {bcs[|bcs| - 1].url}
  {
    var rest := bcs[..|bcs| - 1];
    forall i | 0 <= i < |rest| ensures rest[i] == bcs[i] {}
  }

  lemma WithChaptersKeys(chapters: map<string, Row>, bcs: seq<BackupChapter>)
    ensures WithChapters(chapters, bcs).Keys == chapters.Keys + BackupUrls(bcs)
  {
    hide BackupUrls, ImportChapter;
    if bcs == [] {
      assert BackupUrls([]) == {} by { NoBackupUrls(); }
    } else {
      WithChaptersKeys(chapters, bcs[..|bcs| - 1]);
      BackupUrlsStep(bcs);
    }
  }

  lemma NoBackupUrls()
    ensures BackupUrls([]) == {}
  {
  }

  function KeyOf(bm: BackupManga, installed: map<int, int>): Key
    requires bm.source in installed
  {
    (installed[bm.source], bm.url)
  }

  lemma WithAllOther(library: map<Key, Entry>, bms: seq<BackupManga>, installed: map<int, int>,
                     accounts: set<string>, folderOf: map<int, int>, k: Key)
    requires forall i | 0 <= i < |bms| && bms[i].source in installed :: KeyOf(bms[i], installed) != k
    ensures EntryIn(WithAll(library, bms, installed, accounts, folderOf), k) == EntryIn(library, k)
  {
    if bms == [] {
    } else {
      var rest := bms[..|bms| - 1];
      assert forall i | 0 <= i < |rest| :: rest[i] == bms[i];
      WithAllOther(library, rest, installed, accounts, folderOf, k);
    }
  }

  lemma {:induction false} WithAllAt(library: map<Key, Entry>, bms: seq<BackupManga>, installed: map<int, int>,
                                     accounts: set<string>, folderOf: map<int, int>, i: nat)
    requires i < |bms| && bms[i].source in installed
    requires forall a, b | 0 <= a < b < |bms| && bms[a].source in installed && bms[b].source in installed ::
               KeyOf(bms[a], installed) != KeyOf(bms[b], installed)
    ensures var k := KeyOf(bms[i], installed);
            EntryIn(WithAll(library, bms, installed, accounts, folderOf), k)
            == Some(Loaded(EntryIn(library, k), bms[i], FoldersOf(bms[i].categories, folderOf), accounts))
    decreases |bms|
  {
    hide Loaded;
    var rest, last := bms[..|bms| - 1], bms[|bms| - 1];
    assert forall j | 0 <= j < |rest| :: rest[j] == bms[j];
    if i < |rest| {
      WithAllAt(library, rest, installed, accounts, folderOf, i);
      if last.source in installed {
        assert KeyOf(bms[i], installed) != KeyOf(bms[|bms| - 1], installed);
      }
    } else {
      WithAllOther(library, rest, installed, accounts, folderOf, KeyOf(last, installed));
    }
  }

  lemma IndicesAre(rows: seq<FolderRow>, index: map<int, int>, id: int, c: int)
    ensures c in CategoryIndices(rows, index, id) <==>
            exists i :: 0 <= i < |rows| && rows[i].media == id && rows[i].custom
                        && rows[i].folder in index && index[rows[i].folder] == c
  {
    if rows == [] {
    } else {
      var rest := rows[..|rows| - 1];
      IndicesAre(rest, index, id, c);
      forall i | 0 <= i < |rest| ensures rest[i] == rows[i] {}
    }
  }

  /** An exported entry's categories lead to folders of its categories' names, and to no others. */
  lemma CategoriesBack(s: Snapshot, b: Backup, index: map<int, int>, id: int, folderOf: map<int, int>,
                       folders: map<int, string>)
    requires s.Valid() && Indexed(s, |s.folderRows|, b.categories, index) && Mapped(b.categories, folderOf, folders)
    ensures var fs := FoldersOf(CategoryIndices(s.folderRows, index, id), folderOf);
            && (forall f | f in fs :: f in folders)
            && (set f | f in fs && f in folders :: folders[f]) == s.CategoriesOf(id)
  {
    var cs := CategoryIndices(s.folderRows, index, id);
    var fs := FoldersOf(cs, folderOf);
    var names := set f | f in fs && f in folders :: folders[f];
    forall f | f in fs ensures f in folders && folders[f] in s.CategoriesOf(id) {
      var c :| c in cs && c in folderOf && folderOf[c] == f;
      IndicesAre(s.folderRows, index, id, c);
    }
    forall n | n in s.CategoriesOf(id) ensures n in names {
      var i :| 0 <= i < |s.folderRows| && s.folderRows[i].media == id && s.folderRows[i].custom
               && s.folderName[s.folderRows[i].folder] == n;
      var c := index[s.folderRows[i].folder];
      IndicesAre(s.folderRows, index, id, c);
      assert b.categories[c] == n;
      var f := folderOf[c];
      assert f in fs && f in folders && folders[f] == n;
      assert folders[f] in names;
    }
  }

  // ---------------------------------------------------------------- any import, whatever the message

  ghost predicate InMessage(bcs: seq<BackupChapter>, u: string) { exists i :: 0 <= i < |bcs| && bcs[i].url == u }

  ghost predicate ReadInMessage(bcs: seq<BackupChapter>, u: string) {
    exists i :: 0 <= i < |bcs| && bcs[i].url == u && bcs[i].read
  }

  lemma MessageMore(bcs: seq<BackupChapter>, bc: BackupChapter, u: string)
    ensures InMessage(bcs + [bc], u) <==> InMessage(bcs, u) || bc.url == u
    ensures ReadInMessage(bcs + [bc], u) <==> ReadInMessage(bcs, u) || (bc.url == u && bc.read)
  {
    var more := bcs + [bc];
    assert more[|bcs|] == bc && forall i | 0 <= i < |bcs| :: more[i] == bcs[i];
  }

  /** A chapter is there if it was or is in the message, and read if it was or any of its mentions there is. */
  lemma {:induction false} ImportedRead(chapters: map<string, Row>, bcs: seq<BackupChapter>, u: string)
    ensures var now := WithChapters(chapters, bcs);
            && (u in now <==> u in chapters || InMessage(bcs, u))
            && (u in now ==> (now[u].completed <==>
                (u in chapters && chapters[u].completed) || ReadInMessage(bcs, u)))
    decreases |bcs|
  {
    if bcs == [] {
    } else {
      var n := |bcs| - 1;
      ImportedRead(chapters, bcs[..n], u);
      MessageMore(bcs[..n], bcs[n], u);
      assert bcs[..n] + [bcs[n]] == bcs;
      hide InMessage, ReadInMessage;
    }
  }

  /** ... and the rest of it is what its last mention says. */
  lemma ImportedLast(chapters: map<string, Row>, bcs: seq<BackupChapter>, i: nat)
    requires i < |bcs| && forall j | i < j < |bcs| :: bcs[j].url != bcs[i].url
    ensures var now, bc := WithChapters(chapters, bcs), bcs[i];
            bc.url in now
            && var r := now[bc.url];
               && r.title == (if bc.name == "" then None else Some(bc.name)) && r.order == Some(bc.order)
               && r.number == Some(Hundredths(bc.number)) && r.scanlator == OrEmpty(bc.scanlator)
               && r.uploaded == if bc.date > 0 then Some(bc.date / 1000) else None
    decreases |bcs|
  {
    hide Hundredths;
    if i < |bcs| - 1 {
      assert bcs[..|bcs| - 1][i] == bcs[i];
      ImportedLast(chapters, bcs[..|bcs| - 1], i);
    }
  }

  /** The last link message of a tracker with an account and an id, the 64-bit one or else the 32-bit one,
      is the link then. */
  lemma {:induction false} LastLinkWins(links: map<string, Link>, bts: seq<BackupTracking>, accounts: set<string>,
                                        i: nat, tracker: string)
    requires i < |bts| && tracker in accounts && TrackerOf(bts[i].syncId) == Some(tracker)
    requires bts[i].mediaId != 0 || bts[i].mediaIdInt != 0
    requires forall j | i < j < |bts| :: TrackerOf(bts[j].syncId) != Some(tracker)
    ensures var now, bt := WithLinks(links, bts, accounts), bts[i];
            && tracker in now && now[tracker].remoteId == Itoa(if bt.mediaId != 0 then bt.mediaId else bt.mediaIdInt)
            && now[tracker].title == bt.title && now[tracker].url == bt.url && now[tracker].status == bt.status
            && now[tracker].last == bt.last && now[tracker].total == bt.total && now[tracker].score == bt.score
    decreases |bts|
  {
    hide Itoa, TrackerOf;
    Written(bts[i].mediaId);
    Written(bts[i].mediaIdInt);
    if i < |bts| - 1 {
      assert bts[..|bts| - 1][i] == bts[i];
      LastLinkWins(links, bts[..|bts| - 1], accounts, i, tracker);
    }
  }

  /** Nothing of an entry is taken away: it stays in the library and in its folders, no chapter is lost or
      un-read, no link is lost and none changes whether it is synced. */
  ghost predicate Kept(was: Entry, now: Entry) {
    && (was.inLibrary ==> now.inLibrary) && was.folders <= now.folders
    && (forall u | u in was.chapters ::
          u in now.chapters && (was.chapters[u].completed ==> now.chapters[u].completed))
    && (forall t | t in was.links :: t in now.links && now.links[t].sync == was.links[t].sync)
  }

  ghost predicate AllKept(was: map<Key, Entry>, now: map<Key, Entry>) {
    forall k | k in was :: k in now && Kept(was[k], now[k])
  }

  lemma {:induction false} LinksKept(links: map<string, Link>, bts: seq<BackupTracking>, accounts: set<string>)
    ensures var now := WithLinks(links, bts, accounts);
            forall t | t in links :: t in now && now[t].sync == links[t].sync
    decreases |bts|
  {
    hide RemoteId, Taken, TrackerOf;
    if bts == [] {
    } else {
      LinksKept(links, bts[..|bts| - 1], accounts);
    }
  }

  lemma LoadedKeeps(was: Entry, bm: BackupManga, fs: set<int>, accounts: set<string>)
    ensures Kept(was, Loaded(Some(was), bm, fs, accounts))
  {
    hide WithChapters, WithLinks;
    LoadedIs(Some(was), bm, fs, accounts);
    forall u | u in was.chapters { ImportedRead(was.chapters, bm.chapters, u); }
    LinksKept(was.links, bm.tracking, accounts);
  }

  lemma {:induction false} AllLoadedKeep(library: map<Key, Entry>, bms: seq<BackupManga>, installed: map<int, int>,
                                         accounts: set<string>, folderOf: map<int, int>)
    ensures AllKept(library, WithAll(library, bms, installed, accounts, folderOf))
    decreases |bms|
  {
    hide Kept, Loaded, FoldersOf;
    if bms == [] {
      forall k | k in library ensures Kept(library[k], library[k]) { KeptSelf(library[k]); }
    } else {
      var n := |bms| - 1;
      AllLoadedKeep(library, bms[..n], installed, accounts, folderOf);
      var before := WithAll(library, bms[..n], installed, accounts, folderOf);
      if bms[n].source in installed {
        var k := KeyOf(bms[n], installed);
        if k in library {
          var fs := FoldersOf(bms[n].categories, folderOf);
          LoadedKeeps(before[k], bms[n], fs, accounts);
          KeptTwice(library[k], before[k], Loaded(Some(before[k]), bms[n], fs, accounts));
        }
      }
    }
  }

  lemma KeptSelf(e: Entry)
    ensures Kept(e, e)
  {
  }

  lemma KeptTwice(a: Entry, b: Entry, c: Entry)
    requires Kept(a, b) && Kept(b, c)
    ensures Kept(a, c)
  {
  }

  /** One import: the messages, and what the target has then. */
  datatype Received = Received(manga: seq<BackupManga>, installed: map<int, int>, accounts: set<string>,
                               folderOf: map<int, int>)

  function Imports(library: map<Key, Entry>, rs: seq<Received>): map<Key, Entry> {
    if rs == [] then library
    else
      var r := rs[|rs| - 1];
      WithAll(Imports(library, rs[..|rs| - 1]), r.manga, r.installed, r.accounts, r.folderOf)
  }

  /** No run of imports, of whatever backups, takes anything away or un-reads a chapter. */
  lemma {:induction false} ImportsKeep(library: map<Key, Entry>, rs: seq<Received>)
    ensures AllKept(library, Imports(library, rs))
    decreases |rs|
  {
    hide Kept, WithAll;
    if rs == [] {
      forall k | k in library ensures Kept(library[k], library[k]) { KeptSelf(library[k]); }
    } else {
      var r, before := rs[|rs| - 1], Imports(library, rs[..|rs| - 1]);
      ImportsKeep(library, rs[..|rs| - 1]);
      AllLoadedKeep(before, r.manga, r.installed, r.accounts, r.folderOf);
      var now := Imports(library, rs);
      forall k | k in library ensures k in now && Kept(library[k], now[k]) {
        KeptTwice(library[k], before[k], now[k]);
      }
    }
  }

  ghost predicate TextIn(sent: Option<string>, now: Option<string>) {
    sent.Some? && sent.value != "" ==> now == sent
  }

  ghost predicate TextsIn(sent: Texts, now: Texts) {
    && TextIn(sent.cover, now.cover) && TextIn(sent.description, now.description)
    && TextIn(sent.author, now.author) && TextIn(sent.artist, now.artist)
  }

  /** The last message of an entry decides its title and texts, where it has any. */
  lemma {:induction false} LastMangaWins(library: map<Key, Entry>, bms: seq<BackupManga>, installed: map<int, int>,
                                         accounts: set<string>, folderOf: map<int, int>, i: nat)
    requires i < |bms| && bms[i].source in installed
    requires forall j | i < j < |bms| && bms[j].source in installed ::
               KeyOf(bms[j], installed) != KeyOf(bms[i], installed)
    ensures var k, now := KeyOf(bms[i], installed), WithAll(library, bms, installed, accounts, folderOf);
            k in now && now[k].inLibrary && (bms[i].title != "" ==> now[k].title == bms[i].title)
            && TextsIn(bms[i].texts, now[k].texts)
            && FoldersOf(bms[i].categories, folderOf) <= now[k].folders
    decreases |bms|
  {
    hide FoldersOf, WithChapters, WithLinks, StatusFromInt;
    var n := |bms| - 1;
    var before := WithAll(library, bms[..n], installed, accounts, folderOf);
    if i < n {
      assert bms[..n][i] == bms[i];
      LastMangaWins(library, bms[..n], installed, accounts, folderOf, i);
    } else {
      hide WithAll;
      var was := EntryIn(before, KeyOf(bms[n], installed));
      LoadedIs(was, bms[n], FoldersOf(bms[n].categories, folderOf), accounts);
      WithAllLast(library, bms, installed, accounts, folderOf);
    }
  }

  lemma WithAllLast(library: map<Key, Entry>, bms: seq<BackupManga>, installed: map<int, int>,
                    accounts: set<string>, folderOf: map<int, int>)
    requires bms != [] && bms[|bms| - 1].source in installed
    ensures var n := |bms| - 1;
            var k, before := KeyOf(bms[n], installed), WithAll(library, bms[..n], installed, accounts, folderOf);
            WithAll(library, bms, installed, accounts, folderOf)
            == before[k := Loaded(EntryIn(before, k), bms[n], FoldersOf(bms[n].categories, folderOf), accounts)]
  {
  }

  /** Sources are told apart at the target too, and 0 is none of them. */
  ghost predicate Distinguished(installed: map<int, int>) {
    0 !in installed && forall a, b | a in installed && b in installed && installed[a] == installed[b] :: a == b
  }

  ghost predicate AllKeysApart(bms: seq<BackupManga>, installed: map<int, int>) {
    forall x, y | 0 <= x < y < |bms| && bms[x].source in installed && bms[y].source in installed ::
      KeyOf(bms[x], installed) != KeyOf(bms[y], installed)
  }

  lemma KeysApart(s: Snapshot, b: Backup, index: map<int, int>, installed: map<int, int>)
    requires s.Valid() && s.Identified() && Exported(s, b, index) && Distinguished(installed)
    ensures AllKeysApart(b.manga, installed)
  {
  }

  /** The target has an entry of s under k, once s is imported. */
  ghost predicate Sent(s: Snapshot, installed: map<int, int>, k: Key) {
    exists i | 0 <= i < |s.media| ::
      s.Source(s.media[i]) in installed && (installed[s.Source(s.media[i])], s.media[i].url) == k
  }

  /** Export, then import: every entry whose source is installed at the target gets back its place in
      the library, its texts, its chapters, its categories and its links, whether the target knew it or
      not; no other entry changes, no folder is lost, and the folders made are those of the categories. */
  method RoundTrip(s: Snapshot, t: Target) returns (report: Report)
    requires s.Valid() && s.Identified() && t.Valid() && Distinguished(t.installed)
    modifies t
    ensures forall i | 0 <= i < |s.media| && s.Source(s.media[i]) in t.installed ::
              var k := (t.installed[s.Source(s.media[i])], s.media[i].url);
              k in t.library && Back(s, s.media[i], EntryIn(old(t.library), k), t.library[k], t.folders, t.accounts)
    ensures forall k | !Sent(s, t.installed, k) :: EntryIn(t.library, k) == EntryIn(old(t.library), k)
    ensures forall f | f in old(t.folders) :: f in t.folders && t.folders[f] == old(t.folders)[f]
    ensures Names(t.folders) == Names(old(t.folders)) + s.CustomNames(|s.folderRows|)
    ensures report.imported + report.skipped == |s.media|
    ensures report.warnings == [] <==>
            forall i | 0 <= i < |s.media| ::
              s.Source(s.media[i]) in t.installed && Connected(s.media[i].links, t.accounts)
  {
    hide Mapped, Names, First, Snapshot.CustomNames, Back, WithAll, Snapshot.Identified, ExportMedia, Reported;
    var b := Export(s);
    ghost var index :| Exported(s, b, index);
    var made;
    ghost var folderOf;
    report, made, folderOf := t.Import(b);
    ReportIs(b.manga, t.installed, t.accounts);
    Quiet(s, b, index, t.installed, t.accounts);
    KeysApart(s, b, index, t.installed);
    forall i | 0 <= i < |s.media| && s.Source(s.media[i]) in t.installed
      ensures var k := (t.installed[s.Source(s.media[i])], s.media[i].url);
              k in t.library && Back(s, s.media[i], EntryIn(old(t.library), k), t.library[k], t.folders, t.accounts)
    {
      BackAgain(s, b, index, i, old(t.library), t.library, t.folders, folderOf, t.installed, t.accounts);
    }
    forall k | !Sent(s, t.installed, k) ensures EntryIn(t.library, k) == EntryIn(old(t.library), k) {
      NotSent(s, b, index, t.installed, k);
      WithAllOther(old(t.library), b.manga, t.installed, t.accounts, folderOf, k);
    }
  }

  ghost function NamesOf(fs: set<int>, folders: map<int, string>): set<string> {
    set f | f in fs && f in folders :: folders[f]
  }

  /** What one entry has after export and import, over what the target had of it before: every text
      that is not empty, every chapter, every category and every link that can be taken comes back, and
      nothing else changes. */
  ghost predicate Back(s: Snapshot, m: Media, before: Option<Entry>, now: Entry, folders: map<int, string>,
                       accounts: set<string>)
    requires s.Valid()
  {
    var was := Before(before);
    && now.inLibrary
    && now.title == (if m.title != "" then m.title else was.title)
    && TextsOver(m.texts, was.texts, now.texts)
    && TextOver(StatusBack(m.status), was.status, now.status)
    && ChaptersBack(m.chapters, was.chapters, now.chapters)
    && LinksBack(m.links, was.links, now.links, accounts)
    && was.folders <= now.folders
    && (forall f | f in now.folders - was.folders :: f in folders && folders[f] in s.CategoriesOf(m.id))
    && s.CategoriesOf(m.id) <= NamesOf(now.folders, folders)
  }

  /** The exported rows are there, over the rows that were; the others are as they were. */
  ghost predicate ChaptersBack(cs: seq<(string, Row)>, was: map<string, Row>, now: map<string, Row>) {
    && now.Keys == was.Keys + Urls(cs)
    && (forall u | u in was && u !in Urls(cs) :: now[u] == was[u])
    && (forall i | 0 <= i < |cs| ::
          cs[i].0 in now
          && RowOver(cs[i].1, RowIn(was, cs[i].0), now[cs[i].0])
          && (cs[i].0 !in was ==> now[cs[i].0] == RowBack(cs[i].1)))
  }

  ghost function Urls(cs: seq<(string, Row)>): set<string> { set i | 0 <= i < |cs| :: cs[i].0 }

  /** A link leaves the program and enters the other: its tracker is one of the two a backup can name, the
      target has an account there, and its remote id reads as a number that is not 0. */
  predicate Moves(l: (string, Link), accounts: set<string>) {
    SyncIdOf(l.0).Some? && l.0 in accounts && ParseInt(l.1.remoteId) != 0
  }

  ghost function Moved(links: seq<(string, Link)>, accounts: set<string>): set<string> {
    set i | 0 <= i < |links| && Moves(links[i], accounts) :: links[i].0
  }

  ghost predicate LinksBack(links: seq<(string, Link)>, was: map<string, Link>, now: map<string, Link>,
                            accounts: set<string>)
  {
    && (forall i | 0 <= i < |links| && Moves(links[i], accounts) ::
          && links[i].0 in now && LinkFields(links[i].1, LinkIn(was, links[i].0), now[links[i].0])
          && (links[i].0 !in was ==> now[links[i].0] == LinkOver(links[i].1, None)))
    && (forall t | t !in Moved(links, accounts) :: LinkIn(now, t) == LinkIn(was, t))
  }

  lemma MovedStep(links: seq<(string, Link)>, accounts: set<string>)
    requires links != []
    ensures var n := |links| - 1;
            Moved(links, accounts)
            == Moved(links[..n], accounts) + if Moves(links[n], accounts) then {links[n].0} else {}
  {
    hide Moves;
    var rest := links[..|links| - 1];
    forall i | 0 <= i < |rest| ensures rest[i] == links[i] {}
  }

  lemma TakenExactly(l: (string, Link), accounts: set<string>)
    requires SyncIdOf(l.0).Some?
    ensures var bt := ExportLink(SyncIdOf(l.0).value, l.1);
            && TrackerOf(bt.syncId) == Some(l.0) && (Taken(bt, accounts) <==> Moves(l, accounts))
            && forall was :: ImportLink(bt, was) == LinkOver(l.1, was)
  {
    hide Itoa, ParseInt, F32;
    Written(ParseInt(l.1.remoteId));
  }

  lemma {:induction false} LinksOver(links: seq<(string, Link)>, was: map<string, Link>, accounts: set<string>)
    requires forall a, b | 0 <= a < b < |links| :: links[a].0 != links[b].0
    ensures LinksBack(links, was, WithLinks(was, ExportLinks(links), accounts), accounts)
    decreases |links|
  {
    hide ExportLink, ImportLink, LinkOver, SyncIdOf, TrackerOf, Moves, Taken, Moved, LinksBack, WithLinks;
    if links == [] {
      NoLinks(was, accounts);
    } else {
      var n := |links| - 1;
      var rest, last := links[..n], links[n];
      LinksOver(rest, was, accounts);
      var before := WithLinks(was, ExportLinks(rest), accounts);
      if SyncIdOf(last.0).Some? {
        TakenExactly(last, accounts);
        LastLink(was, ExportLinks(rest), ExportLink(SyncIdOf(last.0).value, last.1), accounts);
      } else {
        assert ExportLinks(links) == ExportLinks(rest);
        assert !Moves(last, accounts) by { NamedMoves(last, accounts); }
      }
      LinksStep(links, was, before, accounts);
    }
  }

  lemma LinksStep(links: seq<(string, Link)>, was: map<string, Link>, before: map<string, Link>, accounts: set<string>)
    requires links != [] && forall a, b | 0 <= a < b < |links| :: links[a].0 != links[b].0
    requires LinksBack(links[..|links| - 1], was, before, accounts)
    ensures var last := links[|links| - 1];
            LinksBack(links, was, if !Moves(last, accounts) then before
                                  else before[last.0 := LinkOver(last.1, LinkIn(before, last.0))], accounts)
  {
    hide LinkOver, Moves, Moved, LinkFields;
    var n := |links| - 1;
    var rest, last := links[..n], links[n];
    MovedStep(links, accounts);
    NotMoved(rest, accounts, last.0);
    if Moves(last, accounts) { MovesFields(last, accounts, LinkIn(was, last.0)); }
    forall i | 0 <= i < n ensures rest[i] == links[i] && links[i].0 != last.0 {}
  }

  lemma LastLink(was: map<string, Link>, bts: seq<BackupTracking>, bt: BackupTracking, accounts: set<string>)
    ensures var before, after := WithLinks(was, bts, accounts), WithLinks(was, bts + [bt], accounts);
            after == if !Taken(bt, accounts) then before
                     else
                       var t := TrackerOf(bt.syncId).value;
                       before[t := ImportLink(bt, LinkIn(before, t))]
  {
    assert (bts + [bt])[..|bts|] == bts;
  }

  lemma MovesFields(l: (string, Link), accounts: set<string>, was: Option<Link>)
    requires Moves(l, accounts)
    ensures LinkFields(l.1, was, LinkOver(l.1, was))
  {
    LinkFieldsHold(l.1, was);
  }

  lemma NotMoved(links: seq<(string, Link)>, accounts: set<string>, t: string)
    requires forall i | 0 <= i < |links| :: links[i].0 != t
    ensures t !in Moved(links, accounts)
  {
  }

  lemma NoLinks(was: map<string, Link>, accounts: set<string>)
    ensures LinksBack([], was, WithLinks(was, ExportLinks([]), accounts), accounts)
  {
  }

  lemma NamedMoves(l: (string, Link), accounts: set<string>)
    ensures Moves(l, accounts) ==> SyncIdOf(l.0).Some?
  {
  }

  /** For an entry the target did not have, that is all it has. */
  lemma BackNew(s: Snapshot, m: Media, now: Entry, folders: map<int, string>, accounts: set<string>)
    requires s.Valid() && Back(s, m, None, now, folders, accounts)
    ensures now.title == m.title && now.texts == CleanTexts(m.texts) && now.status == StatusBack(m.status)
    ensures now.chapters.Keys == Urls(m.chapters)
    ensures forall i | 0 <= i < |m.chapters| :: now.chapters[m.chapters[i].0] == RowBack(m.chapters[i].1)
    ensures NamesOf(now.folders, folders) == s.CategoriesOf(m.id)
    ensures now.links.Keys == Moved(m.links, accounts)
    ensures forall i | 0 <= i < |m.links| && Moves(m.links[i], accounts) ::
              now.links[m.links[i].0] == LinkOver(m.links[i].1, None)
  {
    hide Moves, LinkOver, StatusToInt, RowOver, LinkFields;
    LinksNew(m.links, now.links, accounts);
  }

  lemma LinksNew(links: seq<(string, Link)>, now: map<string, Link>, accounts: set<string>)
    requires LinksBack(links, map[], now, accounts)
    ensures now.Keys == Moved(links, accounts)
    ensures forall i | 0 <= i < |links| && Moves(links[i], accounts) :: now[links[i].0] == LinkOver(links[i].1, None)
  {
    hide Moves, LinkOver, LinkFields;
    forall t ensures t in now <==> t in Moved(links, accounts) {
      assert LinkIn(map[], t) == None;
      if t !in Moved(links, accounts) { assert LinkIn(now, t) == None; }
    }
  }

  lemma BackAgain(s: Snapshot, b: Backup, index: map<int, int>, i: nat, was: map<Key, Entry>, now: map<Key, Entry>,
                  folders: map<int, string>, folderOf: map<int, int>, installed: map<int, int>,
                  accounts: set<string>)
    requires s.Valid() && Exported(s, b, index) && i < |s.media| && s.Source(s.media[i]) in installed
    requires Mapped(b.categories, folderOf, folders) && now == WithAll(was, b.manga, installed, accounts, folderOf)
    requires AllKeysApart(b.manga, installed)
    ensures var k := (installed[s.Source(s.media[i])], s.media[i].url);
            k in now && Back(s, s.media[i], EntryIn(was, k), now[k], folders, accounts)
  {
    hide WithAll, WithChapters, WithLinks, CategoryIndices, ImportChapter, ExportChapter, ExportLinks, Exported,
      StatusToInt, Loaded, FoldersOf, LinksBack, ChaptersBack;
    var m := s.media[i];
    var k := (installed[s.Source(m)], m.url);
    var fs := FoldersOf(CategoryIndices(s.folderRows, index, m.id), folderOf);
    ExportedAt(s, b, index, i);
    WithAllAt(was, b.manga, installed, accounts, folderOf, i);
    CategoriesBack(s, b, index, m.id, folderOf, folders);
    RowsOver(m.chapters, Before(EntryIn(was, k)).chapters);
    LinksOver(m.links, Before(EntryIn(was, k)).links, accounts);
    LoadedIs(EntryIn(was, k), b.manga[i], fs, accounts);
    CleanTwice(m.texts, Before(EntryIn(was, k)).texts);
  }

  /** The target has an account with every tracker among these that a backup can name. */
  ghost predicate Connected(links: seq<(string, Link)>, accounts: set<string>) {
    forall i | 0 <= i < |links| && SyncIdOf(links[i].0).Some? :: links[i].0 in accounts
  }

  lemma {:induction false} ConnectedExactly(links: seq<(string, Link)>, accounts: set<string>)
    ensures LoggedIn(ExportLinks(links), accounts) <==> Connected(links, accounts)
    decreases |links|
  {
    hide ParseInt, F32;
    if links == [] {
    } else {
      var n := |links| - 1;
      var before := ExportLinks(links[..n]);
      ConnectedExactly(links[..n], accounts);
      assert forall i | 0 <= i < n :: links[..n][i] == links[i];
      if SyncIdOf(links[n].0).Some? {
        LoggedInMore(before, ExportLink(SyncIdOf(links[n].0).value, links[n].1), accounts);
      } else {
        assert ExportLinks(links) == before;
      }
    }
  }

  lemma LoggedInMore(bts: seq<BackupTracking>, bt: BackupTracking, accounts: set<string>)
    ensures LoggedIn(bts + [bt], accounts) <==>
            LoggedIn(bts, accounts) && (TrackerOf(bt.syncId).Some? ==> TrackerOf(bt.syncId).value in accounts)
  {
    hide TrackerOf;
    assert forall i | 0 <= i < |bts| :: (bts + [bt])[i] == bts[i];
    assert (bts + [bt])[|bts|] == bt;
  }

  lemma Quiet(s: Snapshot, b: Backup, index: map<int, int>, installed: map<int, int>, accounts: set<string>)
    requires s.Valid() && Exported(s, b, index)
    ensures (forall i | 0 <= i < |b.manga| ::
               b.manga[i].source in installed && LoggedIn(b.manga[i].tracking, accounts))
            <==> forall i | 0 <= i < |s.media| ::
                   s.Source(s.media[i]) in installed && Connected(s.media[i].links, accounts)
  {
    hide LoggedIn, Connected;
    forall i | 0 <= i < |s.media|
      ensures b.manga[i].source == s.Source(s.media[i])
      ensures LoggedIn(b.manga[i].tracking, accounts) <==> Connected(s.media[i].links, accounts)
    {
      ConnectedExactly(s.media[i].links, accounts);
      assert b.manga[i] == ExportMedia(s, s.media[i], index);
    }
  }

  lemma NotSent(s: Snapshot, b: Backup, index: map<int, int>, installed: map<int, int>, k: Key)
    requires s.Valid() && Exported(s, b, index) && !Sent(s, installed, k)
    ensures forall i | 0 <= i < |b.manga| && b.manga[i].source in installed :: KeyOf(b.manga[i], installed) != k
  {
    forall i | 0 <= i < |b.manga| && b.manga[i].source in installed ensures KeyOf(b.manga[i], installed) != k {
      assert b.manga[i] == ExportMedia(s, s.media[i], index);
    }
  }

  lemma ExportedAt(s: Snapshot, b: Backup, index: map<int, int>, i: nat)
    requires s.Valid() && Exported(s, b, index) && i < |s.media|
    ensures Indexed(s, |s.folderRows|, b.categories, index)
    ensures i < |b.manga| && b.manga[i] == ExportMedia(s, s.media[i], index)
  {
  }

  lemma LoadedIs(was: Option<Entry>, bm: BackupManga, fs: set<int>, accounts: set<string>)
    ensures var e, o := Loaded(was, bm, fs, accounts), Before(was);
            && e.inLibrary && e.title == (if bm.title != "" then bm.title else o.title)
            && e.texts == CoalesceTexts(bm.texts, o.texts)
            && e.status == Coalesce(NullString(StatusFromInt(bm.status)), o.status)
            && e.chapters == WithChapters(o.chapters, bm.chapters) && e.folders == o.folders + fs
            && e.links == WithLinks(o.links, bm.tracking, accounts)
  {
  }

  lemma CleanTwice(t: Texts, was: Texts)
    ensures CleanTexts(CleanTexts(t)) == CleanTexts(t)
    ensures TextsOver(t, was, CoalesceTexts(CleanTexts(t), was))
  {
  }

  lemma RowsOver(cs: seq<(string, Row)>, was: map<string, Row>)
    requires forall a, b | 0 <= a < b < |cs| :: cs[a].0 != cs[b].0
    ensures ChaptersBack(cs, was, WithChapters(was, ExportChapters(cs)))
  {
    hide WithChapters, ImportChapter, ExportChapter, RowOver;
    var bcs := ExportChapters(cs);
    ExportedUrls(cs);
    SameBack(cs);
    WithChaptersKeys(was, bcs);
    assert Urls(cs) == BackupUrls(bcs);
    hide ExportChapters, RowBack;
    forall i | 0 <= i < |cs|
      ensures RowIn(WithChapters(was, bcs), cs[i].0) == Some(ImportChapter(ExportChapter(cs[i]), RowIn(was, cs[i].0)))
      ensures RowOver(cs[i].1, RowIn(was, cs[i].0), ImportChapter(ExportChapter(cs[i]), RowIn(was, cs[i].0)))
    {
      WithChaptersAt(was, bcs, i);
      RowOverHolds(cs[i], RowIn(was, cs[i].0));
    }
    forall u | u in was && u !in Urls(cs) ensures RowIn(WithChapters(was, bcs), u) == RowIn(was, u) {
      assert forall i | 0 <= i < |bcs| :: bcs[i].url in Urls(cs);
      WithChaptersOther(was, bcs, u);
    }
  }

  lemma ExportedUrls(cs: seq<(string, Row)>)
    ensures forall i | 0 <= i < |cs| :: ExportChapters(cs)[i].url == cs[i].0
  {
  }

  lemma SameBack(cs: seq<(string, Row)>)
    ensures forall i | 0 <= i < |cs| :: ImportChapter(ExportChapter(cs[i]), None) == RowBack(cs[i].1)
  {
  }
}
