/** The settings of `backend/internal/config/registry.go`, with the defaults of `config.go`. */
module ConfigTable {
  import opened Text
  import opened ConfigStore

  // ---------------------------------------------------------------- getters and setters

  /** A setter's rule: what a setting's text must be, and what is kept of it. */
  datatype Rule = Str | Bool | Int(min: int) | Enum(allowed: seq<string>)

  function ParseBool(t: string): Option<bool> {
    if t in ["1", "t", "T", "true", "TRUE", "True"] then Some(true)
    else if t in ["0", "f", "F", "false", "FALSE", "False"] then Some(false)
    else None
  }

  /** What a setter stores for a text, or None when it answers an error. */
  function Parse(r: Rule, text: string): Option<Value> {
    var t := TrimSpace(text);
    match r
    case Str => Some(S(t))
    case Bool => (match ParseBool(t) case Some(b) => Some(B(b)) case None => None)
    case Int(min) =>
      (match Atoi(t) case Some(n) => if n < min then None else Some(N(n)) case None => None)
    case Enum(allowed) => if Lower(t) in allowed then Some(S(Lower(t))) else None
  }

  /** A value that survives being written out and read back. */
  predicate Canonical(r: Rule, v: Value) { Parse(r, Show(v)) == Some(v) }

  predicate LowercaseWords(r: Rule) {
    r.Enum? ==> forall i | 0 <= i < |r.allowed| :: Lowercase(r.allowed[i])
  }

  lemma AllowedCanonical(r: Rule, w: string)
    requires r.Enum? && LowercaseWords(r) && w in r.allowed
    ensures Canonical(r, S(w))
  {
    LowerLowercase(w);
    TrimPlain(w);
  }

  /** Everything a setter accepts is stored in a form it accepts unchanged. */
  lemma ParsedCanonical(r: Rule, text: string)
    requires LowercaseWords(r) && Parse(r, text).Some?
    ensures Canonical(r, Parse(r, text).value)
  {
    TrimSpaceIdempotent(text);
    match r
    case Str =>
    case Bool =>
      TrimPlain("true");
      TrimPlain("false");
    case Int(min) =>
      var n := Atoi(TrimSpace(text)).value;
      AtoiItoa(n);
      TrimSpaceIdempotent(Itoa(n));
    case Enum(allowed) => AllowedCanonical(r, Lower(TrimSpace(text)));
  }

  /** Which values those are: text settings must be trimmed, numbers and words must be in range. */
  lemma CanonicalExactly(r: Rule, v: Value)
    requires LowercaseWords(r)
    ensures Canonical(r, v) <==>
            match r
            case Str => v.S? && Trimmed(v.s)
            case Bool => v.B?
            case Int(min) => v.N? && MIN_INT64 <= v.n <= MAX_INT64 && min <= v.n
            case Enum(allowed) => v.S? && v.s in allowed
  {
    match r
    case Str => TrimSpaceIdempotent(Show(v));
    case Bool =>
      TrimPlain("true");
      TrimPlain("false");
    case Int(min) => CanonicalInt(min, v);
    case Enum(allowed) => CanonicalEnum(r, v);
  }

  lemma CanonicalInt(min: int, v: Value)
    ensures Canonical(Int(min), v) <==> v.N? && MIN_INT64 <= v.n <= MAX_INT64 && min <= v.n
  {
    hide TrimSpace, Atoi, Itoa;
    TrimSpaceIdempotent(Show(v));
    AtoiRange(TrimSpace(Show(v)));
    if v.N? && MIN_INT64 <= v.n <= MAX_INT64 { AtoiItoa(v.n); }
  }

  lemma AtoiRange(t: string)
    ensures Atoi(t).Some? ==> MIN_INT64 <= Atoi(t).value <= MAX_INT64
  {
  }

  lemma CanonicalEnum(r: Rule, v: Value)
    requires r.Enum? && LowercaseWords(r)
    ensures Canonical(r, v) <==> v.S? && v.s in r.allowed
  {
    hide TrimSpace, Lower;
    if v.S? && v.s in r.allowed { AllowedCanonical(r, v.s); }
  }

  // ---------------------------------------------------------------- the table

  datatype Key =
    | DataDir | DbPath | HttpAddr | ApiToken | SandboxJarPath
    | PublicUrl | MediaDir | JarCacheDir | DownloadsDir | LocalSourceDir
    | NovelEnabled | MetadataBackfill | IdleTimeoutMinutes | TrackerPollHours
    | BackupIntervalHours | BackupRetentionCount | AnilistClientId | MalClientId | MalClientSecret
    | SandboxAddr | SandboxPort | SandboxExtensionsDir | SandboxStorageDir | SandboxHeapMb
    | PprofAddr | ContentFilterLevel | MangaDownloadFormat
    | CloudflareSolverMode | CloudflareSolverUrl

  const KEYS: seq<Key> := [
    DataDir, DbPath, HttpAddr, ApiToken, SandboxJarPath,
    PublicUrl, MediaDir, JarCacheDir, DownloadsDir, LocalSourceDir,
    NovelEnabled, MetadataBackfill, IdleTimeoutMinutes, TrackerPollHours,
    BackupIntervalHours, BackupRetentionCount, AnilistClientId, MalClientId, MalClientSecret,
    SandboxAddr, SandboxPort, SandboxExtensionsDir, SandboxStorageDir, SandboxHeapMb,
    PprofAddr, ContentFilterLevel, MangaDownloadFormat,
    CloudflareSolverMode, CloudflareSolverUrl]

  function Name(k: Key): string {
    match k
    case DataDir => "data_dir"
    case DbPath => "db_path"
    case HttpAddr => "http_addr"
    case ApiToken => "api_token"
    case SandboxJarPath => "sandbox_jar_path"
    case PublicUrl => "public_url"
    case MediaDir => "media_dir"
    case JarCacheDir => "jar_cache_dir"
    case DownloadsDir => "downloads_dir"
    case LocalSourceDir => "local_source_dir"
    case NovelEnabled => "novel_enabled"
    case MetadataBackfill => "metadata_backfill"
    case IdleTimeoutMinutes => "idle_timeout_minutes"
    case TrackerPollHours => "tracker_poll_hours"
    case BackupIntervalHours => "backup_interval_hours"
    case BackupRetentionCount => "backup_retention_count"
    case AnilistClientId => "anilist_client_id"
    case MalClientId => "mal_client_id"
    case MalClientSecret => "mal_client_secret"
    case SandboxAddr => "sandbox_addr"
    case SandboxPort => "sandbox_port"
    case SandboxExtensionsDir => "sandbox_extensions_dir"
    case SandboxStorageDir => "sandbox_storage_dir"
    case SandboxHeapMb => "sandbox_heap_mb"
    case PprofAddr => "pprof_addr"
    case ContentFilterLevel => "content_filter_level"
    case MangaDownloadFormat => "manga_download_format"
    case CloudflareSolverMode => "cloudflare_solver_mode"
    case CloudflareSolverUrl => "cloudflare_solver_url"
  }

  predicate Runtime(k: Key) { k !in {DataDir, DbPath, HttpAddr} }

  predicate Editable(k: Key) { k !in {DataDir, DbPath, HttpAddr, ApiToken, SandboxJarPath} }

  function RuleOf(k: Key): Rule {
    match k
    case NovelEnabled => Bool
    case MetadataBackfill => Bool
    case IdleTimeoutMinutes => Int(0)
    case TrackerPollHours => Int(0)
    case BackupIntervalHours => Int(0)
    case BackupRetentionCount => Int(1)
    case SandboxPort => Int(1)
    case SandboxHeapMb => Int(0)
    case ContentFilterLevel => Enum(["strict", "moderate", "unrestricted"])
    case MangaDownloadFormat => Enum(["loose", "cbz"])
    case CloudflareSolverMode => Enum(["disabled", "external", "managed"])
    case _ => Str
  }

  function Default(k: Key): Value {
    match k
    case HttpAddr => S(":6007")
    case DbPath => S("tsunagu.db")
    case JarCacheDir => S("jar-cache")
    case MediaDir => S("media")
    case SandboxJarPath => S("sandbox.jar")
    case SandboxAddr => S("localhost:50051")
    case SandboxPort => N(50051)
    case SandboxExtensionsDir => S("sandbox/extensions")
    case SandboxStorageDir => S("data/plugin-storage")
    case SandboxHeapMb => N(0)
    case NovelEnabled => B(true)
    case MetadataBackfill => B(true)
    case IdleTimeoutMinutes => N(15)
    case TrackerPollHours => N(6)
    case BackupIntervalHours => N(24)
    case BackupRetentionCount => N(7)
    case PublicUrl => S("http://localhost:6007")
    case AnilistClientId => S("49724")
    case MalClientId => S("611c821aee93c5e51411bfa86ca32597")
    case CloudflareSolverMode => S("disabled")
    case CloudflareSolverUrl => S("http://127.0.0.1:8191")
    case ContentFilterLevel => S("moderate")
    case MangaDownloadFormat => S("loose")
    case _ => S("")
  }

  /** The directory a path setting is moved to under a data directory, and the name it gets there. */
  function RootedName(k: Key): Option<string> {
    match k
    case DbPath => Some("tsunagu.db")
    case JarCacheDir => Some("jar-cache")
    case MediaDir => Some("media")
    case SandboxExtensionsDir => Some("extensions")
    case SandboxStorageDir => Some("plugin-storage")
    case _ => None
  }

  function Row(k: Key): Setting {
    Setting(Name(k), Runtime(k), Editable(k), Default(k), RootedName(k),
            text => Parse(RuleOf(k), text))
  }

  function Tsunagu(): Schema {
    Schema(seq(|KEYS|, i requires 0 <= i < |KEYS| => Row(KEYS[i])), 0)
  }

  lemma RulesLowercase(k: Key)
    ensures LowercaseWords(RuleOf(k))
  {
  }

  lemma DefaultCanonical(k: Key)
    ensures Canonical(RuleOf(k), Default(k))
  {
    RulesLowercase(k);
    CanonicalExactly(RuleOf(k), Default(k));
    DefaultInRange(k);
    hide Default, RuleOf, Canonical, Trimmed;
    if RuleOf(k).Str? { EndsPlain(Default(k).s); }
  }

  lemma DefaultInRange(k: Key)
    ensures var v := Default(k);
            match RuleOf(k)
            case Str => v.S? && (v.s == "" || ('!' <= v.s[0] <= '~' && '!' <= v.s[|v.s| - 1] <= '~'))
            case Bool => v.B?
            case Int(min) => v.N? && MIN_INT64 <= v.n <= MAX_INT64 && min <= v.n
            case Enum(allowed) => v.S? && v.s in allowed
  {
  }

  lemma RowWellFormed(k: Key)
    ensures Row(k).WellFormed()
    ensures k == DataDir || Row(k).rooted.Some? ==> Row(k).IsText()
  {
    DefaultCanonical(k);
    forall text | Row(k).parse(text).Some? ensures Row(k).Canonical(Row(k).parse(text).value) {
      RulesLowercase(k);
      ParsedCanonical(RuleOf(k), text);
    }
  }

  /** The place in the table of the name with this length and these ends. */
  function Place(n: nat, first: char, last: char): nat {
    match n
    case 7 => 1
    case 8 => 0
    case 9 => if first == 'h' then 2 else if first == 'a' then 3 else 6
    case 10 => if last == 'l' then 5 else 24
    case 12 => if last == 'r' then 19 else 20
    case 13 => if first == 'j' then 7 else if first == 'd' then 8 else if first == 'n' then 10 else 17
    case 15 => 23
    case 16 => if first == 's' then 4 else 9
    case 17 => if last == 'l' then 11 else if first == 'a' then 16 else 18
    case 18 => 13
    case 19 => 22
    case 20 => if first == 'i' then 12 else 25
    case 21 => if first == 'b' then 14 else if first == 'm' then 26 else 28
    case 22 => if first == 'b' then 15 else if first == 's' then 21 else 27
    case _ => |KEYS|
  }

  /** The length and the ends of a name. */
  function Ends(k: Key): (nat, char, char) {
    match k
    case DataDir => (8, 'd', 'r')
    case DbPath => (7, 'd', 'h')
    case HttpAddr => (9, 'h', 'r')
    case ApiToken => (9, 'a', 'n')
    case SandboxJarPath => (16, 's', 'h')
    case PublicUrl => (10, 'p', 'l')
    case MediaDir => (9, 'm', 'r')
    case JarCacheDir => (13, 'j', 'r')
    case DownloadsDir => (13, 'd', 'r')
    case LocalSourceDir => (16, 'l', 'r')
    case NovelEnabled => (13, 'n', 'd')
    case MetadataBackfill => (17, 'm', 'l')
    case IdleTimeoutMinutes => (20, 'i', 's')
    case TrackerPollHours => (18, 't', 's')
    case BackupIntervalHours => (21, 'b', 's')
    case BackupRetentionCount => (22, 'b', 't')
    case AnilistClientId => (17, 'a', 'd')
    case MalClientId => (13, 'm', 'd')
    case MalClientSecret => (17, 'm', 't')
    case SandboxAddr => (12, 's', 'r')
    case SandboxPort => (12, 's', 't')
    case SandboxExtensionsDir => (22, 's', 'r')
    case SandboxStorageDir => (19, 's', 'r')
    case SandboxHeapMb => (15, 's', 'b')
    case PprofAddr => (10, 'p', 'r')
    case ContentFilterLevel => (20, 'c', 'l')
    case MangaDownloadFormat => (21, 'm', 't')
    case CloudflareSolverMode => (22, 'c', 'e')
    case CloudflareSolverUrl => (21, 'c', 'l')
  }

  lemma EndsOf(k: Key)
    ensures var n := Name(k); n != "" && (|n|, n[0], n[|n| - 1]) == Ends(k)
  {
  }

  function Index(k: Key): nat {
    match k
    case DataDir => 0
    case DbPath => 1
    case HttpAddr => 2
    case ApiToken => 3
    case SandboxJarPath => 4
    case PublicUrl => 5
    case MediaDir => 6
    case JarCacheDir => 7
    case DownloadsDir => 8
    case LocalSourceDir => 9
    case NovelEnabled => 10
    case MetadataBackfill => 11
    case IdleTimeoutMinutes => 12
    case TrackerPollHours => 13
    case BackupIntervalHours => 14
    case BackupRetentionCount => 15
    case AnilistClientId => 16
    case MalClientId => 17
    case MalClientSecret => 18
    case SandboxAddr => 19
    case SandboxPort => 20
    case SandboxExtensionsDir => 21
    case SandboxStorageDir => 22
    case SandboxHeapMb => 23
    case PprofAddr => 24
    case ContentFilterLevel => 25
    case MangaDownloadFormat => 26
    case CloudflareSolverMode => 27
    case CloudflareSolverUrl => 28
  }

  lemma IndexOfKey(i: nat)
    requires i < |KEYS|
    ensures Index(KEYS[i]) == i
  {
  }

  lemma PlaceOf(k: Key)
    ensures var e := Ends(k); Place(e.0, e.1, e.2) == Index(k)
  {
  }

  /** No two settings have one name. */
  lemma NamesDistinct()
    ensures forall i, j | 0 <= i < j < |KEYS| :: Tsunagu().settings[i].name != Tsunagu().settings[j].name
  {
    hide Place, Name, Ends, Index;
    forall i, j | 0 <= i < j < |KEYS| ensures Name(KEYS[i]) != Name(KEYS[j]) {
      EndsOf(KEYS[i]);
      EndsOf(KEYS[j]);
      PlaceOf(KEYS[i]);
      PlaceOf(KEYS[j]);
      IndexOfKey(i);
      IndexOfKey(j);
    }
  }

  /** The repository's table meets what the store's theorems ask of a table. */
  lemma TableWellFormed()
    ensures Tsunagu().WellFormed()
  {
    var t := Tsunagu();
    assert KEYS[0] == DataDir;
    forall i | 0 <= i < |t.settings|
      ensures t.settings[i].WellFormed() && (t.MayBeRaw(i) ==> t.settings[i].IsText())
    {
      RowWellFormed(KEYS[i]);
    }
  }
}
