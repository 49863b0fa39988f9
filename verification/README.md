# Tsunagu: a verified model

Tsunagu is a self-hosted reader for manga, novels and anime. Most of it is plumbing around a database,
a sandboxed extension host and other people's web services. This project models the parts that carry
state or rules of their own, in Dafny, and proves what those parts promise. `dafny verify dfyconfig.toml`
checks all of it.

Where the program changes things step by step, the model does too: classes and loops proved against
specification functions, and the theorems are about those functions. Go strings are sequences of bytes.

| modules | what they model |
|---|---|
| `Text` | byte strings: trimming, searching, lower case, decimal integers |
| `ConfigStore`, `ConfigTable`, `ConfigRestart` | a setting in memory, in the table and in the file; what a restart keeps |
| `LineFilter`, `Base64Url`, `HlsPlaylist`, `HlsTargets` | the HLS playlist rewriter and the references it produces |
| `TrackerSync`, `TrackerProgress` | the two-way progress merge with any number of trackers |
| `ZipPath`, `ChapterArchive` | moving downloaded chapters between loose images and CBZ archives |
| `LruCache`, `LruThreads` | the Android stub's LRU cache: one thread, and any interleaving of threads |
| `SegCache` | the segment cache: list, map and running size on the heap |
| `NaturalSort` | the ordering of file names |
| `ChapterOrder`, `ChapterIdentity` | oldest-first order, scanlators, the migration matcher |
| `Hydrate` | fetching details once, under a lock per entry |
| `Float32`, `Backup` | Mihon backups: 32-bit chapter numbers, export and import |
| `Wire`, `RepoIndex`, `RepoIndexRoundTrip` | the protobuf decoder of repository indexes |
| `TitleMatch` | title similarity and the best metadata match |
| `SlotLimiter` | spacing out requests to AniList |

## What turned out not to hold

Each of these is kept as the code has it, with the exact condition proved.

- A restart does not keep a path setting that was unset while a data directory is set, and that no stored
  row covers: `applyDataDir` moves it under the data directory (`ConfigRestart.RunThenRestart`,
  `ConfigRestart.UnsetThenRestart`). When the directory option, or a path joined under the directory in
  effect, has white space at an end, text settings can change too (`ConfigRestart.RestartExactly`,
  `ConfigRestart.UntrimmedOptionLost`, `ConfigRestart.SpaceOptionLost`).
- `Unset` ignores a failed table write; the row it leaves brings the old value back at the next start
  (`ConfigRestart.FailedUnset`, `ConfigRestart.FailedUnsetReturns`).
- Trackers and local chapters agree after two passes only if the overall maximum is the local one or the
  number of a local chapter (`TrackerProgress.TwoPassesAgree`, `TrackerProgress.BetweenChapters`). A bind
  whose push fails stores the progress it did not push (`TrackerProgress.BindRow`,
  `TrackerProgress.FailedPushAhead`).
- The local maximum is not always kept by a pass: read out of a title, it can fall when numbered chapters
  are marked (`TrackerProgress.PassKeepsMax`, `TrackerProgress.TitleMaxFalls`).
- An unpacking that stops between its first and last page leaves a chapter that neither direction moves
  any more (`ChapterArchive.Layout.StoppedUnpackIsMixed`); `ChapterArchive.Library.Migrate` says exactly
  which chapters reach the target.
- The LRU cache's recorded size is a Java int. From a new cache, "inconsistent results" can be thrown
  exactly when the limit and one largest entry per thread do not fit an int together
  (`LruThreads.ThrowsExactly`).
- A chapter whose source number is positive but below 0.005 can clash with another chapter of its own list,
  and only then does a numbered chapter not match itself (`ChapterIdentity.SyncedMatchesExactly`,
  `ChapterIdentity.TinyNumberClashes`).
- "At most one detail write per entry" holds exactly when the source answers with no other entry than the
  one it was asked about (`Hydrate.OneWriteExactly`, `Hydrate.WrongReplies`).
- Two-decimal chapter numbers survive a backup up to 131072 and not beyond (`Float32.ExactLimit`).
  A tracker link comes back without its dates, with its score as a float32 and with the library id 0 if it
  had none (`Backup.LinkBackExactly`, `Backup.LibraryIdAppears`, `Float32.ScoreLoss`).
- A chapter list and its reverse get one order exactly when something decides their direction
  (`ChapterOrder.SameEitherWay`, `ChapterOrder.UndecidedPair`).
- A back-off of more than 9223372036 seconds wraps, and its deadline is no longer promised
  (`SlotLimiter.BackoffExactly`).
- The playlist rewriter adds a line break at the end (`HlsTargets.PlainPlaylist`), and drops only the run of
  per-segment tags directly before an ad: tags cut off from it by a blank line stay.

## Assumptions

- Settings: the file is a list of active keys with their values. Joining paths is any function; the whole-run
  theorem asks that the paths it makes under the one directory in effect have no white space at their ends.
- Playlists: resolving a reference that is not a plain relative one is any function of the reference; the
  header parameter is base64url text or empty.
- Trackers: a refresh returns the tracker's current record, and a push that succeeds stores what it sent.
  Chapters have numbers, or a non-negative number read from their title by any function.
- Archives: a chapter's pages share one directory and have distinct names without `!` and `/`; no page is
  called like an archive or its temporary file; no file on disk has a name that starts with `zip://` and
  is one of the page paths. A file a failed write leaves behind may hold anything.
- LRU cache: `sizeOf` is never negative and always the same for a value.
- Hydration: details once fetched stay marked as fetched.
- Backups: the two installations tell sources apart by their ids.
- Numbers of chapters and scores are reals or hundredths, not binary floats, except on the way through a
  backup, where every rounding to binary32 and binary64 is modelled.

## Model

| member | source | states |
|---|---|---|
| ConfigStore.Load | backend/internal/config/config.go:84-125 | a start reads defaults, then the option, then the active lines, and fails exactly when some active line is not accepted |
| ConfigStore.ApplyDataDir | backend/internal/config/config.go:127-141 | only inactive path settings still at their default move under the data directory |
| ConfigStore.Store.Sync | backend/internal/config/store.go:62-82 | active settings overwrite their rows, rows overwrite inactive settings, the file is rewritten; fails exactly on a row its setter refuses, having treated the settings before it and no others |
| ConfigStore.Store.Set | backend/internal/config/store.go:111-143 | the whole new state of a set, for each write that can fail, and when it is refused |
| ConfigStore.Store.Unset | backend/internal/config/store.go:145-169 | the whole new state of an unset, for each write that can fail, and when it is refused |
| ConfigStore.Store.Regenerate | backend/internal/config/store.go:196-244 | a line is active exactly for settings that cannot be edited, are active, or differ from their default |
| ConfigTable.ParsedCanonical | backend/internal/config/registry.go:61-117 | every accepted text is stored as a value that reads back as itself |
| ConfigTable.CanonicalExactly | backend/internal/config/registry.go:61-117 | exactly which values read back as themselves, for each kind of setter |
| ConfigTable.TableWellFormed | backend/internal/config/registry.go:119-159 | the 29 settings with their defaults meet what the theorems ask of a table |
| ConfigTable.NamesDistinct | backend/internal/config/registry.go:119-159 | no two settings have one name |
| ConfigRestart.BootCoherent | backend/internal/config/store.go:62-82 | memory, table and file agree after every start |
| ConfigRestart.Precedence | backend/internal/config/config.go:84-141 | where a value comes from at a start: an active line, else the stored row, else the option, else the default or the path under the directory |
| ConfigRestart.StepCoherent | backend/internal/config/store.go:111-169 | every Set and Unset keeps the three places in agreement |
| ConfigRestart.RunCoherent | backend/internal/config/store.go:62-169 | and so does every run of calls |
| ConfigRestart.SetStays | backend/internal/config/store.go:111-143 | a value that was set is there, no other value changed, and it stays through all later calls that do not name it and all later starts, path settings included |
| ConfigRestart.TsunaguSetStays | backend/internal/config/store.go:111-143 | the same for the repository's settings, whatever happened before |
| ConfigRestart.UnsetStays | backend/internal/config/store.go:145-169 | an unset setting has its default, no other value changed, and it stays so until a start moves a path setting under the directory |
| ConfigRestart.RestartExactly | backend/internal/config/config.go:84-141 | a restart succeeds, and keeps a value exactly when it is canonical and not re-rooted |
| ConfigRestart.RunKeepsDirectory | backend/internal/config/store.go:111-169 | no call changes the data directory, and the next start finds it in the file |
| ConfigRestart.RunThenRestart | backend/internal/config/store.go:62-231 | after any run from a start whose directory and re-rooted paths are trimmed, a restart keeps exactly the values it does not re-root, and a second restart changes nothing |
| ConfigRestart.TsunaguRestarts | backend/internal/config/config.go:84-141 | the same for the repository's settings, with any trimmed directory option, any table and any file |
| ConfigRestart.UntrimmedOptionLost | backend/internal/config/config.go:84-125 | a directory option with white space at an end is another directory after the next start |
| ConfigRestart.SpaceOptionLost | backend/internal/config/config.go:84-125 | such a start exists for the repository's settings |
| ConfigRestart.FirstStart | backend/internal/config/config.go:84-125 | a first start, with an empty table and no file, succeeds |
| ConfigRestart.UnsetThenRestart | backend/internal/config/config.go:127-141 | the exception happens: an unset path setting comes back under the data directory |
| ConfigRestart.OnlyFourRerooted | backend/internal/config/config.go:127-141 | which four settings it can happen to |
| ConfigRestart.FailedSet | backend/internal/config/store.go:111-143 | when the places still agree after a set whose write failed |
| ConfigRestart.FailedUnset | backend/internal/config/store.go:145-169 | when they still agree after an unset whose table write failed unnoticed |
| ConfigRestart.FailedUnsetReturns | backend/internal/config/store.go:145-169 | the row left behind is what the next start uses |
| LineFilter.SplitJoined | backend/internal/api/rest/content.go:795-831 | splitting what was written line by line gives those lines and an empty one |
| Text.TrimSpaceCuts | backend/internal/api/rest/content.go:796 | trimming cuts white-space code points off both ends, nothing else, and all of them |
| LineFilter.RunVanishes | backend/internal/api/rest/content.go:809-826 | a run of per-segment tags goes with the ad after it |
| LineFilter.RunSurvives | backend/internal/api/rest/content.go:788-794 | a run before any other line, or at the end, stays whole and in order |
| LineFilter.Release | backend/internal/api/rest/content.go:788-794 | flushing and writing a kept line gives the joined survivors up to that line |
| Base64Url.RoundTrip | backend/internal/api/rest/content.go:855-861 | decoding inverts encoding on every byte string (section 5 of RFC 4648) |
| Base64Url.AlphabetIs | backend/internal/api/rest/content.go:855-861 | the alphabet of section 5 of RFC 4648 |
| Base64Url.GroupNumber | backend/internal/api/rest/content.go:855-861 | three bytes and their four sextets are one 24-bit number |
| Base64Url.DecodesExactly | backend/internal/api/rest/content.go:626-631 | which text is refused |
| Base64Url.BreaksSkipped | backend/internal/api/rest/content.go:626-631 | a line break makes no difference |
| Base64Url.FirstParam | backend/internal/api/rest/content.go:626-631 | the query parameter read back is the one written |
| HlsPlaylist.RewritePlaylist | backend/internal/api/rest/content.go:786-831 | the one-pass rewriter equals the declared look-ahead filter on every playlist |
| HlsTargets.Resolves | backend/internal/api/rest/content.go:833-853 | a reference stands for exactly one URL: itself without a base, the playlist's directory and itself if it is a plain relative one, and otherwise what the general resolution says |
| HlsTargets.UriExactly | backend/internal/api/rest/content.go:756-812 | the URI attribute found is the first one, up to the next quote |
| HlsTargets.LineIs | backend/internal/api/rest/content.go:795-831 | which lines are dropped, held back and left as they are |
| HlsTargets.TagRewritten | backend/internal/api/rest/content.go:804-812 | a rewritten tag is still a tag, its URI decodes to what the original stands for, and the text before and behind it is unchanged |
| HlsTargets.PlaylistTargets | backend/internal/api/rest/content.go:786-861 | decoding the rewritten playlist's references gives what the original's references stand for, ads left out, in order |
| HlsTargets.PlaylistContents | backend/internal/api/rest/content.go:786-831 | the lines of the output are the rewritten survivors and an empty line |
| HlsTargets.PlainPlaylist | backend/internal/api/rest/content.go:786-831 | a playlist without references and ads passes through, with a line break added |
| TrackerSync.MaxRead | backend/internal/tracker/progress.go:9-34 | the local maximum: the largest completed number, or the titles' when there is none |
| TrackerSync.LocalMaxIs | backend/internal/tracker/progress.go:9-34 | the local maximum on the chapters themselves |
| TrackerSync.Media.SyncLink | backend/internal/tracker/manager.go:276-320 | one link's turn, for every pattern of failing steps |
| TrackerSync.TurnIs | backend/internal/tracker/manager.go:276-320 | what one link's turn changes, and what it leaves, for every pattern of failing steps |
| TrackerSync.CarriedIsMax | backend/internal/tracker/manager.go:262-321 | the maximum carried on is that of the start and of the trackers that answered, whatever else fails |
| TrackerSync.Media.SyncProgress | backend/internal/tracker/manager.go:262-321 | the loop equals the pass the theorems are about |
| TrackerProgress.MarkReaches | backend/internal/db/sqlcgen/reading_progress.sql.go:183-193 | marking up to a number makes it the local maximum exactly when it is a chapter's number |
| TrackerProgress.CleanPass | backend/internal/tracker/manager.go:262-321 | link i ends at the maximum of the local one and the trackers up to i; exactly the chapters numbered above 0 up to the overall maximum are completed |
| TrackerProgress.TopAfterPass | backend/internal/tracker/manager.go:262-321 | a pass keeps the overall maximum, and reaches it locally exactly under the condition |
| TrackerProgress.TwoPassesAgree | backend/internal/tracker/manager.go:262-321 | two passes bring everything together if and only if the overall maximum is the local one or a chapter's number |
| TrackerProgress.BetweenChapters | backend/internal/tracker/manager.go:262-321 | a chapter 12 and a tracker at 12.5 do not come together in two passes |
| TrackerProgress.AgreedIsFixed | backend/internal/tracker/manager.go:262-321 | from then on a pass changes nothing |
| TrackerProgress.PassesGrow | backend/internal/tracker/manager.go:262-321 | over any run of passes with any failures no tracker loses progress, a status changes only with progress from planned or none to reading, no chapter is un-read, and nothing exceeds what was there |
| TrackerProgress.MarkKeeps | backend/internal/db/sqlcgen/reading_progress.sql.go:183-193 | marking keeps the local maximum exactly when it came from a number, nothing is newly marked, or a number at least as large is among those marked |
| TrackerProgress.PassKeepsMax | backend/internal/tracker/manager.go:262-321 | exactly when a pass keeps the local maximum |
| TrackerProgress.RunKeepsMax | backend/internal/tracker/manager.go:262-321 | whatever fails, a run never lowers it once a completed chapter has a number |
| TrackerProgress.TitleMaxFalls | backend/internal/tracker/progress.go:16-34 | a maximum read out of a title can fall |
| TrackerProgress.BindRow | backend/internal/tracker/manager.go:337-371 | binding keeps progress, whatever fails; the stored row is ahead of the tracker exactly after a push of local progress failed |
| TrackerProgress.FailedPushAhead | backend/internal/tracker/manager.go:337-371 | a bind whose push fails leaves a row ahead of its tracker |
| ZipPath.ParseFormat | backend/internal/localsource/zippath.go:10-24 | an entry path reads back as its parts exactly when the entry name has no `!` |
| ZipPath.FormatParse | backend/internal/localsource/zippath.go:14-24 | whatever parses is the path of its parts |
| ChapterArchive.Layout.SafeResolves | backend/internal/localsource/zippath.go:10-24 | in a safe state every row resolves, by its path's own syntax, to its page |
| ChapterArchive.Library.Pack | backend/internal/download/format_migrate.go:78-143 | every state gone through is safe; success repoints all rows, failure a prefix of them; a mixed chapter is left alone; nothing failing means success |
| ChapterArchive.Library.Unpack | backend/internal/download/format_migrate.go:145-209 | the same for unpacking, with the loose files it leaves |
| ChapterArchive.Library.PackThenUnpack | backend/internal/download/format_migrate.go:78-209 | packing and unpacking restores exactly the rows and the files |
| ChapterArchive.Library.MigrateChapter | backend/internal/download/format_migrate.go:43-70 | what is tried, what it leaves, and which chapters neither direction moves |
| ChapterArchive.Layout.SpelledDistinct | backend/internal/download/format_migrate.go:79-81 | the names the code makes are told apart: archives, temporary files, pages |
| ChapterArchive.Library.Migrate | backend/internal/download/format_migrate.go:26-76 | chapters in any order: the totals are those of the outcomes; with nothing failing, each outcome, and exactly which chapters end at the target |
| ChapterArchive.TallyIs | backend/internal/download/format_migrate.go:53-69 | each total is the number of outcomes of its kind, and the pages are those of the migrated chapters |
| ChapterArchive.Layout.StoppedUnpackIsMixed | backend/internal/download/format_migrate.go:163-203 | a stopped unpacking leaves a mixed chapter with its first page loose |
| LruCache.Core.ConsistentSections | sandbox/src/main/java/android/util/LruCache.java:42-89 | every synchronized section keeps the recorded size the sum of the entry sizes, as an int |
| LruCache.Core.TrimmedKeeps | sandbox/src/main/java/android/util/LruCache.java:99-123 | trimming keeps exactly the longest run of most recent entries that fits |
| LruCache.Core.SectionAnswers | sandbox/src/main/java/android/util/LruCache.java:42-136 | what each section does to every key's answer: a created value never replaces one that is there, a stored one always does, no other key is touched |
| LruCache.Core.SectionsRanked | sandbox/src/main/java/android/util/LruCache.java:36-143 | after every section the entries are a tail of all living keys in the order of their last use |
| LruCache.UsedIsLast | sandbox/src/main/java/android/util/LruCache.java:23 | what was used last is evicted last |
| LruCache.Core.TrimmedRanked | sandbox/src/main/java/android/util/LruCache.java:99-123 | trimming keeps that, however it ends |
| LruCache.WithoutAt | sandbox/src/main/java/android/util/LruCache.java:43 | taking an entry out leaves those before and behind it as they are |
| LruCache.Core.InconsistentExactly | sandbox/src/main/java/android/util/LruCache.java:104-107 | only a wrapped size can throw |
| LruCache.Cache.Get | sandbox/src/main/java/android/util/LruCache.java:36-74 | a hit is the most recent use; a created value is stored and trimmed for; the entries stay a tail of the keys in the order of their last use |
| LruCache.Cache.Put | sandbox/src/main/java/android/util/LruCache.java:76-97 | previous value, the whole new state, the longest recent run that fits, and the same order |
| LruCache.Cache.TrimToSize | sandbox/src/main/java/android/util/LruCache.java:99-123 | the loop equals its specification, thrown exception included |
| LruCache.Cache.Remove | sandbox/src/main/java/android/util/LruCache.java:125-143 | the removed value, and the map and size without it |
| LruCache.Cache.Resize | sandbox/src/main/java/android/util/LruCache.java:26-34 | refused exactly for sizes that are not positive; otherwise trimmed to the new one |
| LruCache.Cache.EvictAll | sandbox/src/main/java/android/util/LruCache.java:164-166 | leaves an empty cache of size 0 |
| LruThreads.StepConsistent | sandbox/src/main/java/android/util/LruCache.java:36-143 | in any interleaving each section keeps the sum, and throws exactly on a negative int |
| LruThreads.RunConsistent | sandbox/src/main/java/android/util/LruCache.java:36-143 | every run of any threads keeps it |
| LruThreads.RunRanked | sandbox/src/main/java/android/util/LruCache.java:36-143 | over every interleaving no entry stays while one used more recently is gone |
| LruThreads.StepLoses | sandbox/src/main/java/android/util/LruCache.java:99-143 | a key is lost by its removal, or as the least recent one while the size exceeds the bound |
| LruThreads.StepResponsible | sandbox/src/main/java/android/util/LruCache.java:67-123 | whenever the size is over the limit, some thread is still bound to trim to it |
| LruThreads.RunSafe | sandbox/src/main/java/android/util/LruCache.java:26-143 | while the sum fits an int, nothing throws, and with no call in flight the size is within the limit |
| LruThreads.BoundedRun | sandbox/src/main/java/android/util/LruCache.java:26-143 | the overshoot is one entry per unfinished call at most |
| LruThreads.FromNew | sandbox/src/main/java/android/util/LruCache.java:18-143 | all of it for a new cache, from bounds a caller knows |
| LruThreads.ThrowsExactly | sandbox/src/main/java/android/util/LruCache.java:104-107 | exactly when the exception can be reached from a new cache |
| SegCache.FitLongest | backend/internal/api/rest/segcache.go:54-63 | what eviction keeps is the longest most recent prefix within the limit |
| SegCache.StoredReadable | backend/internal/api/rest/segcache.go:38-53 | an accepted put is readable with its new data; other keys keep theirs or are gone |
| SegCache.TouchedSame | backend/internal/api/rest/segcache.go:26-36 | a read changes no answer and no size, and makes its entry the most recent |
| SegCache.RunKeepsMostRecent | backend/internal/api/rest/segcache.go:26-64 | in every run the cache holds a front part of the list of everything used, within the limit: nothing is kept while something used more recently is gone |
| SegCache.SegCache.Get | backend/internal/api/rest/segcache.go:26-36 | refines the recency list: the data found, moved to the front |
| SegCache.SegCache.Put | backend/internal/api/rest/segcache.go:38-64 | refines the recency list, map and list and size kept in step; an entry there is changed in place |
| SegCache.SegCache.Evict | backend/internal/api/rest/segcache.go:54-63 | the eviction loop |
| NaturalSort.LeadingDigits | backend/internal/localsource/scan.go:561-568 | the run of digits, cut off at the largest int64, and the rest |
| NaturalSort.Less | backend/internal/localsource/scan.go:540-559 | the loop equals comparing token sequences |
| NaturalSort.StrictWeak | backend/internal/localsource/scan.go:540-559 | a strict weak order on all byte strings |
| NaturalSort.TiedExactly | backend/internal/localsource/scan.go:540-559 | two names are tied exactly when their tokens agree |
| NaturalSort.NumbersInOrder | backend/internal/localsource/scan.go:540-568 | names that differ first in a number are ordered by it, however it is written |
| NaturalSort.NumbersTied | backend/internal/localsource/scan.go:561-568 | how a number is written, or how far it is beyond int64, makes no difference |
| NaturalSort.BytesInOrder | backend/internal/localsource/scan.go:553-555 | names that differ first in a byte are ordered by it |
| NaturalSort.PrefixFirst | backend/internal/localsource/scan.go:558 | a name comes before every longer one that goes on after it |
| ChapterOrder.ChaptersAreNewestFirst | backend/internal/sync/sync.go:1346-1373 | the loop decides by step counts, then by the end times, then by convention |
| ChapterOrder.StepsCounted | backend/internal/sync/sync.go:1350-1367 | the counts are the numbers of steps up and down |
| ChapterOrder.Normalise | backend/internal/sync/sync.go:1338-1344 | the in-place reversal gives the normal form |
| ChapterOrder.CountsReversed | backend/internal/sync/sync.go:1346-1373 | reversing swaps steps up and down |
| ChapterOrder.NeverMoreDowns | backend/internal/sync/sync.go:1338-1373 | the normal form never steps down more often than up |
| ChapterOrder.EarlierFirst | backend/internal/sync/sync.go:1369-1371 | when the steps tie and the end times differ, the earlier end is in front |
| ChapterOrder.RisingStays | backend/internal/sync/sync.go:1338-1373 | a numbered list that rises stays, and one that falls is turned round |
| ChapterOrder.SameEitherWay | backend/internal/sync/sync.go:1338-1373 | a list and its reverse get one normal form exactly when something decides |
| ChapterOrder.UndecidedPair | backend/internal/sync/sync.go:1338-1373 | two chapters without numbers and dates change places whichever way they come |
| ChapterOrder.NormalisedTwice | backend/internal/sync/sync.go:1338-1373 | normalising again changes nothing under exactly that condition |
| ChapterIdentity.FormatInjective | backend/internal/sync/sync.go:1395-1398 | different numbers have different group keys |
| ChapterIdentity.SameGroup | backend/internal/sync/sync.go:1395-1411 | two chapters are one group exactly when they have one number, or neither has and their titles agree |
| ChapterIdentity.DeriveScanlators | backend/internal/sync/sync.go:1377-1393 | whatever order the groups come in, each chapter gets its place in its group |
| ChapterIdentity.PositionsExactly | backend/internal/sync/sync.go:1380-1383 | a group is all of its chapters, in list order |
| ChapterIdentity.GroupNumbered | backend/internal/sync/sync.go:1384-1391 | a group of n has the scanlators 1 to n in list order, and a group of one has none |
| ChapterIdentity.ScanlatorsApart | backend/internal/sync/sync.go:1377-1411 | group key and scanlator tell all chapters of a list apart |
| ChapterIdentity.ChapterMatcher | backend/internal/sync/sync.go:847-877 | the two maps answer: last with number and scanlator, else first with the number |
| ChapterIdentity.MatchedIs | backend/internal/sync/sync.go:863-877 | a match is the last chapter of that number and scanlator, or else the first of that number; none exactly without the number |
| ChapterIdentity.NumberIs | backend/internal/sync/sync.go:879-887 | a chapter's own number counts, then its title's; without both it matches nothing |
| ChapterIdentity.RoundIs | backend/internal/chapternum/chapternum.go:36-38 | to the nearest hundredth, halves away from 0 |
| ChapterIdentity.MatchesSelfExactly | backend/internal/sync/sync.go:847-877 | a chapter matches itself exactly when no later one clashes |
| ChapterIdentity.SyncedMatchesExactly | backend/internal/sync/sync.go:1413-1460 | in one synced list a numbered chapter matches itself exactly when no later one clashes, and only tiny numbers make chapters clash |
| ChapterIdentity.SyncedMatchesSelf | backend/internal/sync/sync.go:1413-1460 | so a list without tiny numbers is matched onto itself |
| ChapterIdentity.TinyNumberClashes | backend/internal/chapternum/chapternum.go:36-45 | a number that rounds to none breaks that |
| Hydrate.Locks.LockFor | backend/internal/sync/sync.go:166-175 | one lock a name, for good, and no two names share one |
| Hydrate.Locks.HydrateLock | backend/internal/sync/sync.go:1032 | an entry has one lock, for good, and no other entry has it |
| Hydrate.StepExclusive | backend/internal/sync/sync.go:1032-1067 | a lock is taken exactly when one goroutine has it |
| Hydrate.StepOrdered | backend/internal/sync/sync.go:1069-1092 | a write that reaches its own entry is the last made for it |
| Hydrate.OneHydration | backend/internal/sync/sync.go:1023-1092 | in every run at most one goroutine hydrates an entry, and at most one write succeeds for it if replies name the entry |
| Hydrate.WrongReplies | backend/internal/sync/sync.go:1069-1092 | a source that answers with another entry is asked, and its answers written, any number of times |
| Hydrate.OneWriteExactly | backend/internal/sync/sync.go:1023-1092 | at most one write in every run if and only if the entry's replies can name no other entry |
| Hydrate.RunUntouched | backend/internal/sync/sync.go:1023-1031 | an entry with details or without an extension is never asked about, and nothing is written for it |
| Hydrate.OneStarted | backend/internal/sync/sync.go:1032-1042 | a request that needs details starts one goroutine, hydrating if the lock was free and waiting if not |
| Hydrate.QueuedPasses | backend/internal/sync/sync.go:1058-1067 | the one that waits takes the lock once it is free and gives it back |
| Float32.Close | backend/internal/backup/export.go:151 | a rounding to a binary format moves a number by half its spacing at most |
| Float32.ReturnsExactly | backend/internal/chapternum/chapternum.go:36-38 | every two-decimal number up to 131072, either sign, comes back as the same float64 through float32 and the rounding, each product and quotient rounded too |
| Float32.FirstLoss | backend/internal/backup/export.go:151 | 131072.01 comes back as 131072.02 |
| Float32.ExactLimit | backend/internal/backup/export.go:151 | 131072 is the exact limit |
| Float32.SingleExactly | backend/internal/backup/export.go:179-181 | a number is the same float32 exactly when its significand fits 24 bits |
| Float32.ScoreLoss | backend/internal/backup/export.go:181 | a score of 7.3 comes back larger |
| Backup.StatusBackStable | backend/internal/backup/export.go:12-42 | the six statuses come back as they are, and no others appear |
| Backup.StatusBackIs | backend/internal/backup/export.go:12-42 | case and white space around a status do not matter, and nothing else is one |
| Backup.IndexCategories | backend/internal/backup/export.go:88-106 | categories are numbered once each, and each entry's numbers are collected in order |
| Backup.Export | backend/internal/backup/export.go:88-231 | the messages for all entries, with texts, status, chapters, categories and links, and the category names |
| Backup.Target.MapCategories | backend/internal/backup/import.go:64-81 | each category leads to a folder of its name; exactly the missing ones are made |
| Backup.Target.LoadManga | backend/internal/backup/import.go:91-182 | one entry: details, folders, chapters and links over what was there; the links taken and the warnings |
| Backup.Target.AddLinks | backend/internal/backup/import.go:144-182 | a link is taken if its tracker is known and logged in to and it has a remote id, and a missing account is warned about |
| Backup.Target.Import | backend/internal/backup/import.go:43-187 | all entries of installed sources, in order, and nothing taken away from any; which folders are made; the counts and warnings |
| Backup.ReportIs | backend/internal/backup/import.go:82-187 | every entry is counted, and there are no warnings exactly when no source and no account is missing |
| Backup.ImportedRead | backend/internal/backup/import.go:118-142 | whatever the message, a chapter is read exactly if it was, or if any of its mentions is |
| Backup.ImportedLast | backend/internal/backup/import.go:118-129 | and the rest of it is what its last mention says |
| Backup.LastMangaWins | backend/internal/backup/import.go:91-116 | the last message of an entry decides its title and texts |
| Backup.LastLinkWins | backend/internal/backup/import.go:144-182 | the last message of a tracker decides its link, under the 64-bit id or else the 32-bit one |
| Backup.ImportsKeep | backend/internal/backup/import.go:43-187 | no run of imports un-reads a chapter or takes an entry, folder, chapter or link away |
| Backup.RowBackExactly | backend/internal/backup/import.go:118-129 | a chapter row comes back as it was exactly under conditions on that row |
| Backup.LinkBackExactly | backend/internal/backup/import.go:144-182 | a tracker link comes back as it was exactly when its ids are decimal integers, its numbers fit 32 bits, it has no dates and is synced |
| Backup.LibraryIdAppears | backend/internal/backup/import.go:168 | a link without a library id comes back with the id 0 |
| Text.ParseItoa | backend/internal/backup/export.go:171-172 | a written int64 is parsed back |
| Backup.CategoriesBack | backend/internal/backup/import.go:108-116 | an entry's category names come back, and no others |
| Backup.BackNew | backend/internal/backup/import.go:91-182 | an entry the target did not have is then exactly the exported one |
| Backup.RoundTrip | backend/internal/backup/import.go:43-187 | export then import, into entries the target has or not: every text that is not empty, the status, every chapter, category and link that can be taken comes back; nothing else of the entry, no other entry and no folder changes; the folders made are those of the categories |
| Wire.ConsumeVarint | backend/internal/repository/protobuf.go:166 | every varint consumes input |
| Wire.DecodeConcat | backend/internal/repository/protobuf.go:11-64 | decoding a then b is decoding b from a's result |
| Wire.VarintBack | backend/internal/repository/protobuf.go:166 | varints read back, in at most ten bytes |
| Wire.VarintExactly | backend/internal/repository/protobuf.go:166 | exactly the varints are read, shortest or not, as the numbers they stand for |
| Wire.BytesExactly | backend/internal/repository/protobuf.go:285-291 | a length must be met by the input behind it |
| Wire.StepBack | backend/internal/repository/protobuf.go:285-291 | every encoded field, known or not, is one step |
| Wire.WireTypeIgnored | backend/internal/repository/protobuf.go:135-155 | a known field is read the same way whatever wire type its tag names |
| Wire.DecodeEncoded | backend/internal/repository/protobuf.go:9-66 | reading what was written takes in exactly the fields, in order |
| Wire.FoldKnown | backend/internal/repository/protobuf.go:57-63 | unknown fields make no difference, wherever they stand |
| Wire.OtherTypesFail | backend/internal/repository/protobuf.go:285-291 | an unknown group ends the reading |
| Wire.BadNumberFails | backend/internal/repository/protobuf.go:13-17 | a field number of 0, or a too large one, ends the reading |
| RepoIndex.DecodeRepoIndex | backend/internal/repository/protobuf.go:9-66 | the loop equals reading the message field by field |
| RepoIndex.DecodeContact | backend/internal/repository/protobuf.go:68-97 | the loop equals reading the message field by field |
| RepoIndex.DecodeExtensionList | backend/internal/repository/protobuf.go:99-127 | the loop equals reading the message field by field |
| RepoIndex.DecodeExtension | backend/internal/repository/protobuf.go:129-199 | the loop equals reading the message field by field |
| RepoIndex.DecodeResources | backend/internal/repository/protobuf.go:201-233 | the loop equals reading the message field by field |
| RepoIndex.DecodeSource | backend/internal/repository/protobuf.go:235-283 | the loop equals reading the message field by field |
| RepoIndexRoundTrip.SourceBack | backend/internal/repository/protobuf.go:235-283 | an encoded source, with unknown fields anywhere, reads back |
| RepoIndexRoundTrip.ExtensionBack | backend/internal/repository/protobuf.go:129-199 | an encoded extension reads back, signed numbers included |
| RepoIndexRoundTrip.IndexBack | backend/internal/repository/protobuf.go:9-66 | an encoded index reads back, with unknown fields on every level |
| RepoIndexRoundTrip.InnerFails | backend/internal/repository/protobuf.go:9-199 | a message inside that cannot be read makes the one around it unreadable |
| RepoIndexRoundTrip.IndexConcat | backend/internal/repository/protobuf.go:9-66 | an index followed by more input goes on from what was read |
| RepoIndexRoundTrip.ListConcat | backend/internal/repository/protobuf.go:99-127 | two extension lists one after the other are one |
| RepoIndexRoundTrip.SourceConcat | backend/internal/repository/protobuf.go:235-283 | a source followed by the encoding of another: mirrors append, what else the other has written replaces |
| RepoIndexRoundTrip.ExtensionConcat | backend/internal/repository/protobuf.go:129-199 | an extension followed by the encoding of another: sources append, what else the other has written replaces |
| RepoIndexRoundTrip.LastOneWins | backend/internal/repository/protobuf.go:9-66 | an index followed by the encoding of another: the other's written strings and messages replace its own |
| TitleMatch.NormalizeTitle | backend/internal/metadata/metadata.go:50-62 | the loop keeps the words that say something |
| TitleMatch.WordsSplit | backend/internal/metadata/metadata.go:50-62 | words are parted by anything that is no letter or digit |
| TitleMatch.StripWordVanishes | backend/internal/metadata/metadata.go:45-62 | a word that says little makes no difference, wherever it stands |
| TitleMatch.NormalTwice | backend/internal/metadata/metadata.go:50-62 | a normal title is its own normal title |
| TitleMatch.Bigrams | backend/internal/metadata/metadata.go:127-137 | the table counts the multiset of bigrams |
| TitleMatch.GramsAre | backend/internal/metadata/metadata.go:127-137 | a pair counts as often as it stands in the string |
| TitleMatch.DiceCoefficient | backend/internal/metadata/metadata.go:96-125 | the loops over the tables, in any order, compute the Dice score |
| TitleMatch.DiceIs | backend/internal/metadata/metadata.go:96-125 | symmetric, in [0, 1], and 1 on different titles exactly when their non-empty bigrams coincide |
| TitleMatch.DiceShare | backend/internal/metadata/metadata.go:96-125 | the score is the share of the pairs that both have |
| TitleMatch.BestMatch | backend/internal/metadata/metadata.go:64-94 | the first candidate of maximal score, the score cut to between 0 and 1 |
| TitleMatch.YearsDecide | backend/internal/metadata/metadata.go:75-82 | among equal titles the same year beats a neighbouring one, and that beats all others |
| TitleMatch.YearsWeigh | backend/internal/metadata/metadata.go:75-82 | a same year adds 0.05 and a distant one costs 0.10 |
| SlotLimiter.Limiter.Wait | backend/internal/anilistrl/anilistrl.go:22-43 | the slot reserved, the wait for it, the next slot |
| SlotLimiter.Limiter.Backoff | backend/internal/anilistrl/anilistrl.go:45-55 | the next slot after a back-off, with duration arithmetic as int64 |
| SlotLimiter.SlotsSpaced | backend/internal/anilistrl/anilistrl.go:22-55 | in any run reserved slots are three seconds apart |
| SlotLimiter.NoNeedlessWait | backend/internal/anilistrl/anilistrl.go:22-55 | the next slot is the latest time that a back-off or a reserved slot put it off to |
| SlotLimiter.RunWindow | backend/internal/anilistrl/anilistrl.go:22-55 | a window of length T holds floor(T / 3 s) + 1 slots at most |
| SlotLimiter.AfterBackoff | backend/internal/anilistrl/anilistrl.go:45-55 | no slot reserved after a back-off precedes its deadline |
| SlotLimiter.BackoffExactly | backend/internal/anilistrl/anilistrl.go:49 | the delays for which that is promised |

## Left out

- HTTP handlers, the gRPC client, ffmpeg, process supervision, OAuth and password hashing: input and output, or libraries.
- GraphQL resolvers, loaders and generated code: plumbing. Only the meaning of the cited SQL statements is used.
- Claiming of download jobs: the code does not decide that one worker gets a job.
- The TOML syntax of the settings file and Go's quoting of strings in it; errors of the table or the disk during a start.
- HlsPlaylist.RewritePlaylist: general URL resolution is a parameter, so what it resolves to is not modelled.
- The check of the decoded URL in the stream handler and the header parameter's own content.
- TrackerSync.Media.SyncProgress: rounding of progress by the tracker services and the 15-minute list cache are not modelled.
- ChapterArchive.Library.Pack: directories are not modelled, so making and removing empty ones is not either; pages without a path are not rows.
- LruCache.Cache.Get: the counters, the callbacks for removed entries and `create` that touches the cache itself are not modelled.
- LruThreads.RunSafe: reads of `maxSize` outside the lock see the latest value; the Java memory model allows older ones.
- SegCache.SegCache.Put: the running size is unbounded; with the repository's limits of 256 and 384 MiB an int64 cannot overflow.
- ChapterIdentity.DeriveScanlators: the cleaning of titles (regular expressions) is any function of the title.
- ChapterOrder.ChaptersAreNewestFirst: numbers are reals; NaN is not modelled.
- Hydrate.OneHydration: what one successful write stores beside the details (covers, genres) is not modelled, and nothing is claimed about how long a request waits beyond that it may leave at any time.
- Backup.Export: genres, the date an entry was added and the list of sources are not modelled; import reads none of them. Links and chapters stand with their entries, so grouping their rows by entry is not modelled.
- Backup.Target.Import: a database error stops the import where it is; such half-done imports are not modelled. The time a link was last synced is not either.
- Float32.ReturnsExactly: infinities and numbers of 2^128 and more are not modelled.
- Backup.LinkBackExactly: nor are they here, for a link's progress and score.
- TitleMatch.BestMatch: scores are reals, so ties that binary floats would break are kept.
- TitleMatch.Bigrams: titles are normal ones, so a rune is a byte.
- RepoIndex.DecodeRepoIndex: which error is reported is not modelled, only that there is one.
- SlotLimiter.Limiter.Wait: the sleep itself and its cancellation; a difference of times beyond the range of a duration.
- Title regular expressions, HTML, MP4 and DASH handling, the caches with a time limit, the other Android stubs: bound to libraries, or without a rule of their own.
