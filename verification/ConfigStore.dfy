/** The settings store of `backend/internal/config`: one value per key, kept in memory, in the
    `app_settings` table and in the regenerated TOML file. A setting is its index in the table. */
module ConfigStore {
  import opened Text

  datatype Value = S(s: string) | B(b: bool) | N(n: int)

  /** What a getter returns. */
  function Show(v: Value): string {
    match v
    case S(s) => s
    case B(b) => if b then "true" else "false"
    case N(n) => Itoa(n)
  }

  /** One entry of the settings table. `parse` is the setter (None is its error), `rooted` the name a
      path setting gets under a data directory. */
  datatype Setting = Setting(
    name: string,
    runtime: bool,
    editable: bool,
    default: Value,
    rooted: Option<string>,
    parse: string -> Option<Value>)
  {
    /** A value that survives being written out and read back. */
    predicate Canonical(v: Value) { parse(Show(v)) == Some(v) }

    ghost predicate WellFormed() {
      && Canonical(default)
      && forall text :: parse(text).Some? ==> Canonical(parse(text).value)
    }

    /** A setter that accepts any text and keeps it trimmed. */
    ghost predicate IsText() { forall text :: parse(text) == Some(S(TrimSpace(text))) }
  }

  /** The uncommented lines of the file, by setting. A missing file has none. */
  type Lines = seq<Option<string>>

  /** Rows of `app_settings`, by setting; a missing row reads as "". */
  type Rows = seq<string>

  datatype State = State(cfg: seq<Value>, active: seq<bool>, db: Rows, file: Lines)

  /** The options a process is started with; `join` is `filepath.Join`. */
  datatype Options = Options(dataDir: string, join: (string, string) -> string)

  /** Which write of a call fails, if any. The file is replaced by a rename, so it is old or new. */
  datatype Fault = NoFault | DbFails | FileFails

  datatype Schema = Schema(settings: seq<Setting>, dataDir: nat) {

    /** What the theorems ask of a table: setters and getters agree, and the settings that are set
        past their setter (the data directory, and the paths under it) hold text. */
    ghost predicate WellFormed() {
      && dataDir < |settings|
      && (forall i | 0 <= i < |settings| :: settings[i].WellFormed())
      && (forall i | 0 <= i < |settings| :: MayBeRaw(i) ==> settings[i].IsText())
      && !settings[dataDir].editable && !settings[dataDir].runtime && settings[dataDir].rooted == None
    }

    predicate MayBeRaw(i: nat)
      requires i < |settings|
    {
      i == dataDir || settings[i].rooted.Some?
    }

    predicate Fits(st: State) {
      |st.cfg| == |st.active| == |st.db| == |st.file| == |settings|
    }

    /** `Lookup`: the setting of that name, or |settings| if there is none. */
    function Lookup(n: string, from: nat := 0): (i: nat)
      requires from <= |settings|
      ensures from <= i <= |settings|
      ensures i < |settings| ==> settings[i].name == n
      decreases |settings| - from
    {
      if from == |settings| || settings[from].name == n then from else Lookup(n, from + 1)
    }

    // -------------------------------------------------------------- the file

    function Line(i: nat, v: Value, active: bool): Option<string>
      requires i < |settings|
    {
      var s := settings[i];
      if !s.editable || active || Show(v) != Show(s.default) then Some(Show(v)) else None
    }

    /** The file `regenerateLocked` writes. */
    function Regenerated(cfg: seq<Value>, active: seq<bool>): (lines: Lines)
      requires |cfg| == |active| == |settings|
    {
      seq(|settings|, i requires 0 <= i < |settings| => Line(i, cfg[i], active[i]))
    }

    // -------------------------------------------------------------- boot: Load, then Sync

    function Initial(o: Options, i: nat): Value
      requires i < |settings|
    {
      if i == dataDir && o.dataDir != "" then S(o.dataDir) else settings[i].default
    }

    predicate Parses(lines: Lines)
      requires |lines| == |settings|
    {
      forall i | 0 <= i < |lines| :: lines[i].Some? ==> settings[i].parse(lines[i].value).Some?
    }

    function ReadLine(o: Options, lines: Lines, i: nat): Value
      requires i < |lines| == |settings| && Parses(lines)
    {
      if lines[i].Some? then settings[i].parse(lines[i].value).value else Initial(o, i)
    }

    function Rooted(o: Options, dir: string, i: nat, v: Value, active: bool): Value
      requires i < |settings|
    {
      var s := settings[i];
      if s.rooted.Some? && dir != "" && !active && v == s.default
      then S(o.join(dir, s.rooted.value))
      else v
    }

    function Loaded(o: Options, lines: Lines, i: nat): Value
      requires i < |lines| == |settings| && dataDir < |settings| && Parses(lines)
    {
      Rooted(o, Show(ReadLine(o, lines, dataDir)), i, ReadLine(o, lines, i), lines[i].Some?)
    }

    function LoadedConfig(o: Options, lines: Lines): seq<Value>
      requires |lines| == |settings| && dataDir < |settings| && Parses(lines)
    {
      seq(|settings|, i requires 0 <= i < |settings| => Loaded(o, lines, i))
    }

    function Actives(lines: Lines): seq<bool> {
      seq(|lines|, i requires 0 <= i < |lines| => lines[i].Some?)
    }

    function Pulled(i: nat, v: Value, active: bool, row: string): Option<Value>
      requires i < |settings|
    {
      if settings[i].runtime && !active && row != "" then settings[i].parse(row) else Some(v)
    }

    function Pushed(i: nat, v: Value, active: bool, row: string): string
      requires i < |settings|
    {
      if settings[i].runtime && active then Show(v) else row
    }

    predicate Syncs(cfg: seq<Value>, active: seq<bool>, db: Rows)
      requires |cfg| == |active| == |db| == |settings|
    {
      forall i | 0 <= i < |settings| :: Pulled(i, cfg[i], active[i], db[i]).Some?
    }

    function AfterSync(cfg: seq<Value>, active: seq<bool>, db: Rows): State
      requires |cfg| == |active| == |db| == |settings| && Syncs(cfg, active, db)
    {
      var cfg' := seq(|settings|, i requires 0 <= i < |settings| =>
                        Pulled(i, cfg[i], active[i], db[i]).value);
      var db' := seq(|settings|, i requires 0 <= i < |settings| =>
                       Pushed(i, cfg[i], active[i], db[i]));
      State(cfg', active, db', Regenerated(cfg', active))
    }

    /** A sync that stops at setting i has treated those before it, and no others. */
    ghost predicate SyncedUpTo(i: nat, cfg: seq<Value>, active: seq<bool>, db: Rows, cfg': seq<Value>, db': Rows) {
      && i < |settings| == |cfg| == |active| == |db| == |cfg'| == |db'|
      && (forall j | 0 <= j < i ::
            Some(cfg'[j]) == Pulled(j, cfg[j], active[j], db[j]) && db'[j] == Pushed(j, cfg[j], active[j], db[j]))
      && cfg'[i..] == cfg[i..] && db'[i..] == db[i..]
    }

    predicate Boots(o: Options, db: Rows, file: Lines)
      requires |db| == |file| == |settings| && dataDir < |settings|
    {
      Parses(file) && Syncs(LoadedConfig(o, file), Actives(file), db)
    }

    /** The state a successful start reaches from what is on disk. */
    function Boot(o: Options, db: Rows, file: Lines): State
      requires |db| == |file| == |settings| && dataDir < |settings|
      requires Boots(o, db, file)
    {
      AfterSync(LoadedConfig(o, file), Actives(file), db)
    }

    // -------------------------------------------------------------- Set and Unset

    function AfterSet(st: State, n: string, text: string, fault: Fault): State
      requires Fits(st)
    {
      var i := Lookup(n);
      if i == |settings| || !settings[i].editable || settings[i].parse(text).None? then st
      else
        var v := settings[i].parse(text).value;
        var cfg := st.cfg[i := v];
        if fault == DbFails then st.(cfg := cfg)
        else
          var active := st.active[i := true];
          State(cfg, active, st.db[i := Show(v)],
                if fault == FileFails then st.file else Regenerated(cfg, active))
    }

    function AfterUnset(st: State, n: string, fault: Fault): State
      requires Fits(st)
    {
      var i := Lookup(n);
      if i == |settings| || !settings[i].editable then st
      else
        var cfg := st.cfg[i := settings[i].default];
        var active := st.active[i := false];
        State(cfg, active,
              if fault == DbFails then st.db else st.db[i := ""],
              if fault == FileFails then st.file else Regenerated(cfg, active))
    }
  }

  /** `Load`: the values and active settings a process starts with, or None for a bad file. */
  method Load(t: Schema, o: Options, lines: Lines) returns (r: Option<(seq<Value>, seq<bool>)>)
    requires |lines| == |t.settings| && t.dataDir < |t.settings|
    ensures r.Some? <==> t.Parses(lines)
    ensures r.Some? ==> r.value == (t.LoadedConfig(o, lines), t.Actives(lines))
  {
    var n := |t.settings|;
    var cfg := seq(n, i requires 0 <= i < n => t.Initial(o, i));
    var active := seq(n, i => false);
    for i := 0 to n
      invariant |cfg| == |active| == n
      invariant forall j | 0 <= j < i ::
          lines[j].Some? ==> t.settings[j].parse(lines[j].value).Some?
      invariant forall j | 0 <= j < n :: active[j] == (j < i && lines[j].Some?)
      invariant forall j | 0 <= j < n ::
          cfg[j] == if active[j] then t.settings[j].parse(lines[j].value).value else t.Initial(o, j)
    {
      if lines[i].Some? {
        active := active[i := true];
        match t.settings[i].parse(lines[i].value) {
          case None => return None;
          case Some(v) => cfg := cfg[i := v];
        }
      }
    }
    assert forall j | 0 <= j < n :: cfg[j] == t.ReadLine(o, lines, j);
    cfg := ApplyDataDir(t, o, cfg, active);
    assert active == t.Actives(lines);
    assert cfg == t.LoadedConfig(o, lines);
    return Some((cfg, active));
  }

  /** `applyDataDir`: one path setting after the other. */
  method ApplyDataDir(t: Schema, o: Options, c: seq<Value>, active: seq<bool>)
    returns (cfg: seq<Value>)
    requires |c| == |active| == |t.settings| && t.dataDir < |t.settings|
    ensures |cfg| == |c|
    ensures forall i | 0 <= i < |c| ::
        cfg[i] == t.Rooted(o, Show(c[t.dataDir]), i, c[i], active[i])
  {
    cfg := c;
    var dir := Show(c[t.dataDir]);
    if dir == "" { return; }
    for i := 0 to |c|
      invariant |cfg| == |c|
      invariant forall j | 0 <= j < i :: cfg[j] == t.Rooted(o, dir, j, c[j], active[j])
      invariant forall j | i <= j < |c| :: cfg[j] == c[j]
    {
      var s := t.settings[i];
      if s.rooted.Some? && !active[i] && cfg[i] == s.default {
        cfg := cfg[i := S(o.join(dir, s.rooted.value))];
      }
    }
  }

  /** The running process: `Config` and `Store`, and the disk they write to. */
  class Store {
    const t: Schema
    var cfg: seq<Value>
    var active: seq<bool>
    var db: Rows
    var file: Lines

    ghost function View(): State
      reads this
    {
      State(cfg, active, db, file)
    }

    constructor (t: Schema, cfg: seq<Value>, active: seq<bool>, db: Rows, file: Lines)
      ensures this.t == t && View() == State(cfg, active, db, file)
    {
      this.t, this.cfg, this.active, this.db, this.file := t, cfg, active, db, file;
    }

    method Regenerate()
      requires t.Fits(View())
      modifies this`file
      ensures file == t.Regenerated(cfg, active)
    {
      var lines: Lines := [];
      for i := 0 to |t.settings|
        invariant |lines| == i
        invariant forall j | 0 <= j < i :: lines[j] == t.Line(j, cfg[j], active[j])
      {
        lines := lines + [t.Line(i, cfg[i], active[i])];
      }
      file := lines;
    }

    method Sync() returns (ok: bool)
      requires t.Fits(View())
      modifies this`cfg, this`db, this`file
      ensures ok <==> t.Syncs(old(cfg), active, old(db))
      ensures ok ==> View() == t.AfterSync(old(cfg), active, old(db))
      ensures !ok ==> file == old(file)
      ensures !ok ==> exists i: nat :: t.SyncedUpTo(i, old(cfg), active, old(db), cfg, db)
                                       && t.Pulled(i, old(cfg)[i], active[i], old(db)[i]).None?
    {
      ghost var cfg0, db0 := cfg, db;
      for i := 0 to |t.settings|
        invariant |cfg| == |db| == |t.settings| && file == old(file)
        invariant forall j | 0 <= j < i :: t.Pulled(j, cfg0[j], active[j], db0[j]).Some?
        invariant forall j | 0 <= j < i ::
            && cfg[j] == t.Pulled(j, cfg0[j], active[j], db0[j]).value
            && db[j] == t.Pushed(j, cfg0[j], active[j], db0[j])
        invariant cfg[i..] == cfg0[i..] && db[i..] == db0[i..]
      {
        assert cfg[i] == cfg[i..][0] == cfg0[i] && db[i] == db[i..][0] == db0[i];
        if t.settings[i].runtime {
          if active[i] {
            db := db[i := Show(cfg[i])];
          } else if db[i] != "" {
            match t.settings[i].parse(db[i]) {
              case None =>
                assert t.Pulled(i, cfg0[i], active[i], db0[i]).None?;
                assert t.SyncedUpTo(i, cfg0, active, db0, cfg, db);
                return false;
              case Some(v) => cfg := cfg[i := v];
            }
          }
        }
      }
      Regenerate();
      assert cfg == t.AfterSync(cfg0, active, db0).cfg;
      ok := true;
    }

    method Set(n: string, text: string, fault: Fault) returns (ok: bool)
      requires t.Fits(View())
      modifies this
      ensures View() == t.AfterSet(old(View()), n, text, fault)
      ensures ok <==> fault == NoFault && t.Lookup(n) < |t.settings|
                      && t.settings[t.Lookup(n)].editable
                      && t.settings[t.Lookup(n)].parse(text).Some?
    {
      var i := t.Lookup(n);
      if i == |t.settings| || !t.settings[i].editable { return false; }
      match t.settings[i].parse(text) {
        case None => return false;
        case Some(v) =>
          cfg := cfg[i := v];
          if fault == DbFails { return false; }
          db := db[i := Show(v)];
          active := active[i := true];
          if fault == FileFails { return false; }
          Regenerate();
          return true;
      }
    }

    method Unset(n: string, fault: Fault) returns (ok: bool)
      requires t.Fits(View()) && t.WellFormed()
      modifies this
      ensures View() == t.AfterUnset(old(View()), n, fault)
      ensures ok <==> fault != FileFails && t.Lookup(n) < |t.settings|
                      && t.settings[t.Lookup(n)].editable
    {
      var i := t.Lookup(n);
      if i == |t.settings| || !t.settings[i].editable { return false; }
      if fault != DbFails { db := db[i := ""]; }
      active := active[i := false];
      var s := t.settings[i];
      assert s.WellFormed();
      cfg := cfg[i := s.parse(Show(s.default)).value];
      if fault == FileFails { return false; }
      Regenerate();
      return true;
    }
  }
}
