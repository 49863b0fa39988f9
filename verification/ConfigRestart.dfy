/** What a restart does to the settings: the three places a value lives agree after every call, and
    starting again from disk gives back every value but one family, described exactly. */
module ConfigRestart {
  import opened Text
  import opened ConfigStore
  import opened ConfigTable

  /** Memory, table and file agree. A stored row of an inactive setting may be text the setter would
      rewrite, such as " 7"; it agrees when the setter reads the value in memory from it. */
  ghost predicate Coherent(t: Schema, st: State) {
    && t.Fits(st)
    && st.file == t.Regenerated(st.cfg, st.active)
    && forall i | 0 <= i < |t.settings| :: CoherentAt(t, st, i)
  }

  ghost predicate CoherentAt(t: Schema, st: State, i: nat)
    requires t.Fits(st) && i < |t.settings|
  {
    var s := t.settings[i];
    && (s.runtime && st.active[i] ==> st.db[i] == Show(st.cfg[i]))
    && (s.runtime && !st.active[i] && st.db[i] != "" ==> s.parse(st.db[i]) == Some(st.cfg[i]))
    && (s.Canonical(st.cfg[i]) || (t.MayBeRaw(i) && st.cfg[i].S?))
  }

  /** Every value survives being written out and read back. */
  ghost predicate AllCanonical(t: Schema, st: State)
    requires t.Fits(st)
  {
    forall i | 0 <= i < |t.settings| :: t.settings[i].Canonical(st.cfg[i])
  }

  /** The data directory option, and the paths made from the directory in effect, have no white space
      at their ends. */
  ghost predicate TrimmedOptions(t: Schema, o: Options, dir: string) {
    && Trimmed(o.dataDir)
    && forall i | 0 <= i < |t.settings| && t.settings[i].rooted.Some? && dir != "" ::
         Trimmed(o.join(dir, t.settings[i].rooted.value))
  }

  /** The data directory a start takes from its options and the file. */
  function Directory(t: Schema, o: Options, lines: Lines): string
    requires |lines| == |t.settings| && t.dataDir < |t.settings| && t.Parses(lines)
  {
    Show(t.ReadLine(o, lines, t.dataDir))
  }

  // ---------------------------------------------------------------- every reachable state agrees

  lemma LoadedAt(t: Schema, o: Options, lines: Lines, i: nat)
    requires t.WellFormed() && |lines| == |t.settings| && t.Parses(lines) && i < |t.settings|
    ensures var v := t.Loaded(o, lines, i);
            t.settings[i].Canonical(v) || (t.MayBeRaw(i) && v.S?)
    ensures TrimmedOptions(t, o, Directory(t, o, lines)) ==> t.settings[i].Canonical(t.Loaded(o, lines, i))
  {
    var s, d := t.settings[i], t.settings[t.dataDir];
    assert s.WellFormed() && d.WellFormed() && d.IsText();
    var dir := Directory(t, o, lines);
    var v := t.ReadLine(o, lines, i);
    if lines[t.dataDir].Some? { TrimSpaceIdempotent(lines[t.dataDir].value); }
    TrimSpaceIdempotent(o.dataDir);
    if TrimmedOptions(t, o, dir) {
      assert Trimmed(dir) by { TextDefaultTrimmed(d); }
    }
    if s.rooted.Some? && dir != "" {
      var joined := o.join(dir, s.rooted.value);
      TrimSpaceIdempotent(joined);
      assert s.IsText() && s.parse(joined) == Some(S(TrimSpace(joined)));
    }
    if i == t.dataDir { assert s.parse(o.dataDir) == Some(S(TrimSpace(o.dataDir))); }
  }

  lemma TextDefaultTrimmed(s: Setting)
    requires s.WellFormed() && s.IsText()
    ensures s.default.S? && Trimmed(s.default.s)
  {
    assert s.parse(Show(s.default)) == Some(S(TrimSpace(Show(s.default))));
    TrimSpaceIdempotent(s.default.s);
  }

  /** A start leaves the three places in agreement. */
  lemma BootCoherent(t: Schema, o: Options, db: Rows, file: Lines)
    requires t.WellFormed() && |db| == |file| == |t.settings| && t.Boots(o, db, file)
    ensures Coherent(t, t.Boot(o, db, file))
    ensures TrimmedOptions(t, o, Directory(t, o, file)) ==> AllCanonical(t, t.Boot(o, db, file))
    ensures Show(t.Boot(o, db, file).cfg[t.dataDir]) == Directory(t, o, file)
  {
    var st := t.Boot(o, db, file);
    forall i | 0 <= i < |t.settings|
      ensures CoherentAt(t, st, i)
      ensures TrimmedOptions(t, o, Directory(t, o, file)) ==> t.settings[i].Canonical(st.cfg[i])
    {
      LoadedAt(t, o, file, i);
      assert t.settings[i].WellFormed();
      assert t.Pulled(i, t.LoadedConfig(o, file)[i], t.Actives(file)[i], db[i]).Some?;
    }
  }

  datatype Call = SetCall(name: string, text: string) | UnsetCall(name: string)

  function Step(t: Schema, st: State, c: Call): (r: State)
    requires t.Fits(st)
    ensures t.Fits(r)
  {
    match c
    case SetCall(n, text) => t.AfterSet(st, n, text, NoFault)
    case UnsetCall(n) => t.AfterUnset(st, n, NoFault)
  }

  function Run(t: Schema, st: State, calls: seq<Call>): (r: State)
    requires t.Fits(st)
    ensures t.Fits(r)
    decreases |calls|
  {
    if calls == [] then st else Run(t, Step(t, st, calls[0]), calls[1..])
  }

  lemma StepCoherent(t: Schema, st: State, c: Call)
    requires t.WellFormed() && Coherent(t, st)
    ensures Coherent(t, Step(t, st, c))
    ensures AllCanonical(t, st) ==> AllCanonical(t, Step(t, st, c))
  {
    var st' := Step(t, st, c);
    var j := t.Lookup(c.name);
    if j < |t.settings| { assert t.settings[j].WellFormed(); }
    forall i | 0 <= i < |t.settings|
      ensures CoherentAt(t, st', i)
      ensures t.settings[i].Canonical(st.cfg[i]) ==> t.settings[i].Canonical(st'.cfg[i])
    {
      assert CoherentAt(t, st, i);
    }
  }

  /** ... and so does every run of calls, accepted or refused. */
  lemma {:induction false} RunCoherent(t: Schema, st: State, calls: seq<Call>)
    requires t.WellFormed() && Coherent(t, st)
    ensures Coherent(t, Run(t, st, calls))
    ensures AllCanonical(t, st) ==> AllCanonical(t, Run(t, st, calls))
    decreases |calls|
  {
    if calls == [] {
    } else {
      StepCoherent(t, st, calls[0]);
      RunCoherent(t, Step(t, st, calls[0]), calls[1..]);
    }
  }

  // ---------------------------------------------------------------- what a restart keeps

  /** Setting i was left to its default, nothing is stored for it, and the next start will move that
      default under the data directory. */
  predicate Rerooted(t: Schema, o: Options, st: State, i: nat)
    requires t.Fits(st) && i < |t.settings| && t.dataDir < |t.settings|
  {
    var s := t.settings[i];
    var dir := TrimSpace(Show(st.cfg[t.dataDir]));
    && st.file[i] == None && s.rooted.Some? && dir != ""
    && !(s.runtime && st.db[i] != "")
    && o.join(dir, s.rooted.value) != Show(s.default)
  }

  predicate Keeps(t: Schema, o: Options, st: State, i: nat)
    requires t.Fits(st) && i < |t.settings| && t.dataDir < |t.settings|
  {
    if st.file[i].Some? then t.settings[i].Canonical(st.cfg[i]) else !Rerooted(t, o, st, i)
  }

  /** Starting again from the disk of a coherent state succeeds, and gives a setting its old value
      exactly when it is canonical and not re-rooted. */
  lemma RestartExactly(t: Schema, o: Options, st: State)
    requires t.WellFormed() && Coherent(t, st)
    ensures t.Boots(o, st.db, st.file)
    ensures forall i | 0 <= i < |t.settings| ::
              t.Boot(o, st.db, st.file).cfg[i] == st.cfg[i] <==> Keeps(t, o, st, i)
  {
    forall i | 0 <= i < |t.settings|
      ensures st.file[i].Some? ==> t.settings[i].parse(st.file[i].value).Some?
    {
      LineReads(t, st, i);
    }
    forall i | 0 <= i < |t.settings|
      ensures t.Pulled(i, t.Loaded(o, st.file, i), st.file[i].Some?, st.db[i]).Some?
      ensures t.Pulled(i, t.Loaded(o, st.file, i), st.file[i].Some?, st.db[i]).value == st.cfg[i]
              <==> Keeps(t, o, st, i)
    {
      RestartAt(t, o, st, i);
    }
  }

  lemma LineReads(t: Schema, st: State, i: nat)
    requires t.WellFormed() && Coherent(t, st) && i < |t.settings|
    ensures st.file[i].Some? ==>
              && st.file[i].value == Show(st.cfg[i])
              && t.settings[i].parse(st.file[i].value).Some?
    ensures st.file[i].None? ==> st.cfg[i] == t.settings[i].default && !st.active[i]
    ensures t.MayBeRaw(i) ==> t.settings[i].parse(Show(st.cfg[i])) == Some(S(TrimSpace(Show(st.cfg[i]))))
  {
    assert CoherentAt(t, st, i);
    assert t.settings[i].WellFormed();
    if t.MayBeRaw(i) {
      assert t.settings[i].IsText();
      TextDefaultTrimmed(t.settings[i]);
    }
  }

  lemma RestartAt(t: Schema, o: Options, st: State, i: nat)
    requires t.WellFormed() && Coherent(t, st) && i < |t.settings| && t.Parses(st.file)
    ensures var p := t.Pulled(i, t.Loaded(o, st.file, i), st.file[i].Some?, st.db[i]);
            p.Some? && (p.value == st.cfg[i] <==> Keeps(t, o, st, i))
  {
    assert CoherentAt(t, st, i);
    LineReads(t, st, i);
    LineReads(t, st, t.dataDir);
    assert st.file[t.dataDir].Some?;
    if t.MayBeRaw(i) {
      assert t.settings[i].IsText();
      TextDefaultTrimmed(t.settings[i]);
    }
  }

  /** No call changes the data directory, and the next start finds it in the file. */
  lemma {:induction false} RunKeepsDirectory(t: Schema, o: Options, st: State, calls: seq<Call>)
    requires t.WellFormed() && Coherent(t, st) && Trimmed(Show(st.cfg[t.dataDir]))
    ensures var st' := Run(t, st, calls);
            && Coherent(t, st') && st'.cfg[t.dataDir] == st.cfg[t.dataDir] && t.Parses(st'.file)
            && Directory(t, o, st'.file) == Show(st.cfg[t.dataDir])
    decreases |calls|
  {
    if calls == [] {
      DirectoryRead(t, o, st);
    } else {
      StepCoherent(t, st, calls[0]);
      RunKeepsDirectory(t, o, Step(t, st, calls[0]), calls[1..]);
    }
  }

  lemma DirectoryRead(t: Schema, o: Options, st: State)
    requires t.WellFormed() && Coherent(t, st) && Trimmed(Show(st.cfg[t.dataDir]))
    ensures t.Parses(st.file) && Directory(t, o, st.file) == Show(st.cfg[t.dataDir])
  {
    forall i | 0 <= i < |t.settings| && st.file[i].Some?
      ensures t.settings[i].parse(st.file[i].value).Some?
    {
      LineReads(t, st, i);
    }
    LineReads(t, st, t.dataDir);
    assert st.file[t.dataDir].Some?;
    TrimSpaceIdempotent(Show(st.cfg[t.dataDir]));
  }

  /** What a restart does to a state: it succeeds, keeps exactly the values it does not re-root, and
      after it a second one changes nothing. */
  ghost predicate Restarts(t: Schema, o: Options, st: State)
    requires t.dataDir < |t.settings|
  {
    && Coherent(t, st) && t.Boots(o, st.db, st.file)
    && var st' := t.Boot(o, st.db, st.file);
       && (forall i | 0 <= i < |t.settings| :: st'.cfg[i] == st.cfg[i] <==> !Rerooted(t, o, st, i))
       && Coherent(t, st') && t.Boots(o, st'.db, st'.file)
       && t.Boot(o, st'.db, st'.file).cfg == st'.cfg
  }

  /** The whole-run theorem. From a start with trimmed options and after any calls, a restart keeps
      every value but those it re-roots; and a second restart changes nothing more. */
  lemma RunThenRestart(t: Schema, o: Options, db: Rows, file: Lines, calls: seq<Call>)
    requires t.WellFormed() && |db| == |file| == |t.settings| && t.Boots(o, db, file)
    requires TrimmedOptions(t, o, Directory(t, o, file))
    ensures Restarts(t, o, Run(t, t.Boot(o, db, file), calls))
  {
    var st0 := t.Boot(o, db, file);
    BootCoherent(t, o, db, file);
    DirectoryTrimmed(t, o, file);
    RunCoherent(t, st0, calls);
    RunKeepsDirectory(t, o, st0, calls);
    var st := Run(t, st0, calls);
    RestartExactly(t, o, st);
    BootCoherent(t, o, st.db, st.file);
    var st' := t.Boot(o, st.db, st.file);
    RestartExactly(t, o, st');
    forall i | 0 <= i < |t.settings| ensures Keeps(t, o, st', i) {
      RestartSettles(t, o, st, i);
    }
  }

  lemma DirectoryTrimmed(t: Schema, o: Options, file: Lines)
    requires t.WellFormed() && |file| == |t.settings| && t.Parses(file) && Trimmed(o.dataDir)
    ensures Trimmed(Directory(t, o, file))
  {
    var d := t.settings[t.dataDir];
    assert d.WellFormed() && d.IsText();
    TextDefaultTrimmed(d);
    if file[t.dataDir].Some? { TrimSpaceIdempotent(file[t.dataDir].value); }
  }

  /** `filepath.Join` of a clean directory, not the root, and a name. */
  function Under(dir: string, name: string): string { dir + "/" + name }

  /** The repository's settings, started with any trimmed directory option, any table and any file. */
  lemma TsunaguRestarts(option: string, db: Rows, file: Lines, calls: seq<Call>)
    requires Trimmed(option)
    requires var t, o := Tsunagu(), Options(option, Under);
             |db| == |file| == |t.settings| && t.Boots(o, db, file)
    ensures var t, o := Tsunagu(), Options(option, Under);
            Restarts(t, o, Run(t, t.Boot(o, db, file), calls))
  {
    var t, o := Tsunagu(), Options(option, Under);
    var dir := Directory(t, o, file);
    TableWellFormed();
    DirectoryTrimmed(t, o, file);
    forall i | 0 <= i < |t.settings| && t.settings[i].rooted.Some? && dir != ""
      ensures Trimmed(o.join(dir, t.settings[i].rooted.value))
    {
      RootedTrimmed(dir, KEYS[i]);
    }
    RunThenRestart(t, o, db, file, calls);
  }

  /** A first start, with an empty table and no file, succeeds. */
  lemma FirstStart(t: Schema, o: Options, db: Rows, file: Lines)
    requires t.WellFormed() && |db| == |file| == |t.settings|
    requires forall i | 0 <= i < |t.settings| :: db[i] == "" && file[i] == None
    ensures t.Boots(o, db, file)
  {
    forall i | 0 <= i < |t.settings|
      ensures t.Pulled(i, t.LoadedConfig(o, file)[i], t.Actives(file)[i], db[i]).Some?
    {
    }
  }

  lemma RootedTrimmed(dir: string, k: Key)
    requires dir != "" && Trimmed(dir) && RootedName(k).Some?
    ensures Trimmed(Under(dir, RootedName(k).value))
  {
    var name := RootedName(k).value;
    var p := Under(dir, name);
    assert p[0] == dir[0] && p[|dir|] == '/';
    if |dir| > 1 { assert p[1] == dir[1]; }
    if |dir| > 2 { assert p[2] == dir[2]; }
    assert p[|p| - 1] == name[|name| - 1];
  }

  lemma RestartSettles(t: Schema, o: Options, st: State, i: nat)
    requires t.WellFormed() && Coherent(t, st) && AllCanonical(t, st) && i < |t.settings|
    requires t.Boots(o, st.db, st.file)
    requires AllCanonical(t, t.Boot(o, st.db, st.file))
    ensures Keeps(t, o, t.Boot(o, st.db, st.file), i)
  {
    var st' := t.Boot(o, st.db, st.file);
    LineReads(t, st, i);
    LineReads(t, st, t.dataDir);
    assert t.settings[t.dataDir].IsText() && t.settings[t.dataDir].WellFormed();
    assert st'.cfg[t.dataDir] == st.cfg[t.dataDir];
    if st'.file[i].None? {
      assert st.file[i].None?;
      assert Show(st'.cfg[i]) == Show(t.settings[i].default);
    }
  }

  /** A directory option with white space at an end is not kept: the file has it, and the next start
      reads it back trimmed. */
  lemma UntrimmedOptionLost(t: Schema, o: Options, db: Rows, file: Lines)
    requires t.WellFormed() && |db| == |file| == |t.settings| && t.Boots(o, db, file)
    requires file[t.dataDir] == None && o.dataDir != "" && !Trimmed(o.dataDir)
    ensures var st := t.Boot(o, db, file);
            && st.cfg[t.dataDir] == S(o.dataDir) && t.Boots(o, st.db, st.file)
            && t.Boot(o, st.db, st.file).cfg[t.dataDir] != st.cfg[t.dataDir]
  {
    var st := t.Boot(o, db, file);
    BootCoherent(t, o, db, file);
    RestartExactly(t, o, st);
    LineReads(t, st, t.dataDir);
    TrimSpaceIdempotent(o.dataDir);
    assert t.MayBeRaw(t.dataDir) && t.settings[t.dataDir].IsText();
    assert st.file[t.dataDir].Some? && !t.settings[t.dataDir].Canonical(st.cfg[t.dataDir]);
  }

  /** For the repository's settings, a first start in " x" is such a start. */
  lemma SpaceOptionLost(db: Rows, file: Lines)
    requires |db| == |file| == |KEYS| && forall i | 0 <= i < |KEYS| :: db[i] == "" && file[i] == None
    ensures var t, o := Tsunagu(), Options(" x", Under);
            && t.Boots(o, db, file)
            && var st := t.Boot(o, db, file);
               && t.Boots(o, st.db, st.file)
               && t.Boot(o, st.db, st.file).cfg[t.dataDir] != st.cfg[t.dataDir]
  {
    var t, o := Tsunagu(), Options(" x", Under);
    TableWellFormed();
    FirstStart(t, o, db, file);
    assert LeadingSpace(" x") == 1;
    UntrimmedOptionLost(t, o, db, file);
  }

  // ---------------------------------------------------------------- the last word on a setting

  /** What happens to an installation: a call, or a new start with some options. */
  datatype Event = Called(call: Call) | Restarted(o: Options)

  predicate Names(e: Event, n: string) { e.Called? && e.call.name == n }

  /** A start that fails leaves everything as it is. */
  function Happens(t: Schema, st: State, e: Event): (r: State)
    requires t.Fits(st) && t.dataDir < |t.settings|
    ensures t.Fits(r)
  {
    match e
    case Called(c) => Step(t, st, c)
    case Restarted(o) => if t.Boots(o, st.db, st.file) then t.Boot(o, st.db, st.file) else st
  }

  function Life(t: Schema, st: State, es: seq<Event>): (r: State)
    requires t.Fits(st) && t.dataDir < |t.settings|
    ensures t.Fits(r)
    decreases |es|
  {
    if es == [] then st else Life(t, Happens(t, st, es[0]), es[1..])
  }

  ghost predicate Distinct(t: Schema) {
    forall i, j | 0 <= i < j < |t.settings| :: t.settings[i].name != t.settings[j].name
  }

  lemma LookupFinds(t: Schema, i: nat, from: nat)
    requires Distinct(t) && from <= i < |t.settings|
    ensures t.Lookup(t.settings[i].name, from) == i
    decreases i - from
  {
    if from == i {
    } else {
      LookupFinds(t, i, from + 1);
    }
  }

  /** The line of setting i is in the file and will be read as v. */
  ghost predicate Says(t: Schema, st: State, i: nat, v: Value)
    requires t.dataDir < |t.settings| && i < |t.settings|
  {
    Coherent(t, st) && st.active[i] && st.cfg[i] == v && t.settings[i].Canonical(v)
  }

  lemma HappensSays(t: Schema, st: State, i: nat, v: Value, e: Event)
    requires t.WellFormed() && Distinct(t) && i < |t.settings| && Says(t, st, i, v) && !Names(e, t.settings[i].name)
    ensures Says(t, Happens(t, st, e), i, v)
    ensures e.Restarted? ==> t.Boots(e.o, st.db, st.file)
  {
    LookupFinds(t, i, 0);
    match e
    case Called(c) => StepCoherent(t, st, c);
    case Restarted(o) =>
      RestartExactly(t, o, st);
      BootCoherent(t, o, st.db, st.file);
      LineReads(t, st, i);
  }

  lemma {:induction false} LifeSays(t: Schema, st: State, i: nat, v: Value, es: seq<Event>)
    requires t.WellFormed() && Distinct(t) && i < |t.settings| && Says(t, st, i, v)
    requires forall k | 0 <= k < |es| :: !Names(es[k], t.settings[i].name)
    ensures Says(t, Life(t, st, es), i, v)
    decreases |es|
  {
    if es == [] {
    } else {
      HappensSays(t, st, i, v, es[0]);
      LifeSays(t, Happens(t, st, es[0]), i, v, es[1..]);
    }
  }

  /** A value that was set is there, and no other value changed; it stays through every later call that
      does not name the setting and every later start, in whatever directory, and they all succeed. */
  lemma SetStays(t: Schema, st: State, i: nat, text: string, v: Value, es: seq<Event>)
    requires t.WellFormed() && Distinct(t) && Coherent(t, st)
    requires i < |t.settings| && t.settings[i].editable && t.settings[i].parse(text) == Some(v)
    requires forall k | 0 <= k < |es| :: !Names(es[k], t.settings[i].name)
    ensures var set_ := Step(t, st, SetCall(t.settings[i].name, text));
            && set_.cfg == st.cfg[i := v]
            && var now := Life(t, set_, es);
               && now.cfg[i] == v && now.file[i] == Some(Show(v))
               && forall o :: t.Boots(o, now.db, now.file) && t.Boot(o, now.db, now.file).cfg[i] == v
  {
    var c := SetCall(t.settings[i].name, text);
    var set_ := Step(t, st, c);
    LookupFinds(t, i, 0);
    StepCoherent(t, st, c);
    assert t.settings[i].WellFormed();
    assert Says(t, set_, i, v);
    LifeSays(t, set_, i, v, es);
    var now := Life(t, set_, es);
    forall o ensures t.Boots(o, now.db, now.file) && t.Boot(o, now.db, now.file).cfg[i] == v {
      HappensSays(t, now, i, v, Restarted(o));
    }
  }

  lemma {:induction false} LifeCoherent(t: Schema, st: State, es: seq<Event>)
    requires t.WellFormed() && Coherent(t, st)
    ensures Coherent(t, Life(t, st, es))
    decreases |es|
  {
    if es == [] {
    } else {
      match es[0] {
        case Called(c) => StepCoherent(t, st, c);
        case Restarted(o) => if t.Boots(o, st.db, st.file) { BootCoherent(t, o, st.db, st.file); }
      }
      LifeCoherent(t, Happens(t, st, es[0]), es[1..]);
    }
  }

  /** For the repository's settings, whatever happened before. */
  lemma TsunaguSetStays(o: Options, db: Rows, file: Lines, before: seq<Event>, i: nat, text: string, v: Value,
                        after: seq<Event>)
    requires var t := Tsunagu();
             && |db| == |file| == |t.settings| && t.Boots(o, db, file) && i < |t.settings| && t.settings[i].editable
             && t.settings[i].parse(text) == Some(v)
             && forall k | 0 <= k < |after| :: !Names(after[k], t.settings[i].name)
    ensures var t := Tsunagu();
            var set_ := Step(t, Life(t, t.Boot(o, db, file), before), SetCall(t.settings[i].name, text));
            var now := Life(t, set_, after);
            && now.cfg[i] == v
            && forall p :: t.Boots(p, now.db, now.file) && t.Boot(p, now.db, now.file).cfg[i] == v
  {
    var t := Tsunagu();
    TableWellFormed();
    NamesDistinct();
    BootCoherent(t, o, db, file);
    LifeCoherent(t, t.Boot(o, db, file), before);
    SetStays(t, Life(t, t.Boot(o, db, file), before), i, text, v, after);
  }

  /** A setting that was unset has its default, and no other value changed; and so it stays through every
      call that does not name it, until a start that makes a path setting's default the path under the
      directory. */
  lemma UnsetStays(t: Schema, o: Options, st: State, i: nat, calls: seq<Call>)
    requires t.WellFormed() && Distinct(t) && Coherent(t, st) && i < |t.settings| && t.settings[i].editable
    requires Trimmed(Show(st.cfg[t.dataDir]))
    requires forall k | 0 <= k < |calls| :: calls[k].name != t.settings[i].name
    ensures var s, dir := t.settings[i], Show(st.cfg[t.dataDir]);
            var unset := Step(t, st, UnsetCall(s.name));
            && unset.cfg == st.cfg[i := s.default]
            && var now := Run(t, unset, calls);
               && now.cfg[i] == s.default && t.Boots(o, now.db, now.file)
               && t.Boot(o, now.db, now.file).cfg[i]
                  == if s.rooted.Some? && dir != "" then S(o.join(dir, s.rooted.value)) else s.default
  {
    var c := UnsetCall(t.settings[i].name);
    var unset := Step(t, st, c);
    LookupFinds(t, i, 0);
    StepCoherent(t, st, c);
    RunCoherent(t, unset, calls);
    RunKeepsDirectory(t, o, unset, calls);
    RunLeaves(t, unset, i, calls);
    var now := Run(t, unset, calls);
    RestartExactly(t, o, now);
    assert now.file[i].None?;
    assert t.Loaded(o, now.file, i)
        == if t.settings[i].rooted.Some? && Show(st.cfg[t.dataDir]) != ""
           then S(o.join(Show(st.cfg[t.dataDir]), t.settings[i].rooted.value)) else t.settings[i].default;
  }

  lemma {:induction false} RunLeaves(t: Schema, st: State, i: nat, calls: seq<Call>)
    requires t.WellFormed() && Distinct(t) && Coherent(t, st) && i < |t.settings|
    requires forall k | 0 <= k < |calls| :: calls[k].name != t.settings[i].name
    ensures var now := Run(t, st, calls);
            && t.Fits(now) && now.cfg[i] == st.cfg[i] && now.active[i] == st.active[i] && now.db[i] == st.db[i]
    decreases |calls|
  {
    if calls == [] {
    } else {
      StepCoherent(t, st, calls[0]);
      RunLeaves(t, Step(t, st, calls[0]), i, calls[1..]);
    }
  }

  /** Where a value comes from at a start: an active line of the file, which also goes to the table; else
      the stored row; else the option, for the data directory; else the default, or for a path setting
      the path under the directory. */
  lemma Precedence(t: Schema, o: Options, db: Rows, file: Lines, i: nat)
    requires t.WellFormed() && |db| == |file| == |t.settings| && t.Boots(o, db, file) && i < |t.settings|
    ensures var s, st, dir := t.settings[i], t.Boot(o, db, file), Directory(t, o, file);
            if file[i].Some? then
              && Some(st.cfg[i]) == s.parse(file[i].value) && st.active[i]
              && st.db[i] == if s.runtime then Show(st.cfg[i]) else db[i]
            else
              && !st.active[i] && st.db[i] == db[i]
              && if s.runtime && db[i] != "" then Some(st.cfg[i]) == s.parse(db[i])
                 else if i == t.dataDir && o.dataDir != "" then st.cfg[i] == S(o.dataDir)
                 else if s.rooted.Some? && dir != "" then st.cfg[i] == S(o.join(dir, s.rooted.value))
                 else st.cfg[i] == s.default
  {
    assert t.Pulled(i, t.LoadedConfig(o, file)[i], t.Actives(file)[i], db[i]).Some?;
    assert t.settings[t.dataDir].rooted == None && !t.settings[t.dataDir].runtime;
  }

  /** The exception does happen: unsetting a path setting under a data directory leaves the default in
      memory, and the next start moves it under the data directory. */
  lemma UnsetThenRestart(t: Schema, o: Options, st: State, n: string)
    requires t.WellFormed() && Coherent(t, st) && AllCanonical(t, st)
    requires t.Lookup(n) < |t.settings| && t.settings[t.Lookup(n)].editable
    requires t.settings[t.Lookup(n)].rooted.Some? && Show(st.cfg[t.dataDir]) != ""
    ensures var i := t.Lookup(n);
            var st' := t.AfterUnset(st, n, NoFault);
            && st'.cfg[i] == t.settings[i].default
            && t.Boots(o, st'.db, st'.file)
            && t.Boot(o, st'.db, st'.file).cfg[i]
               == S(o.join(Show(st.cfg[t.dataDir]), t.settings[i].rooted.value))
  {
    var i := t.Lookup(n);
    var st' := t.AfterUnset(st, n, NoFault);
    StepCoherent(t, st, UnsetCall(n));
    RestartExactly(t, o, st');
    LineReads(t, st', t.dataDir);
    assert st'.file[i].None?;
    assert t.settings[t.dataDir].Canonical(st'.cfg[t.dataDir]);
    assert t.Loaded(o, st'.file, i)
        == S(o.join(Show(st.cfg[t.dataDir]), t.settings[i].rooted.value));
  }

  /** In the repository's table only four settings can be re-rooted: the database path is always
      written to the file. */
  lemma OnlyFourRerooted(o: Options, st: State, i: nat)
    requires i < |KEYS| && Coherent(Tsunagu(), st) && Rerooted(Tsunagu(), o, st, i)
    ensures KEYS[i] in {JarCacheDir, MediaDir, SandboxExtensionsDir, SandboxStorageDir}
    ensures !st.active[i] && st.cfg[i] == Default(KEYS[i]) && st.db[i] == ""
  {
    TableWellFormed();
    var t := Tsunagu();
    LineReads(t, st, i);
    var k := KEYS[i];
    assert t.settings[i] == Row(k);
    assert k.DbPath? ==> !Row(k).editable;
  }

  // ---------------------------------------------------------------- writes that fail

  /** A Set whose table or file write fails has already changed memory; the places agree again exactly
      when the call did not change what it had left to write. */
  lemma FailedSet(t: Schema, st: State, n: string, text: string, fault: Fault)
    requires t.WellFormed() && Coherent(t, st) && fault != NoFault
    requires t.Lookup(n) < |t.settings| && t.settings[t.Lookup(n)].editable
    requires t.settings[t.Lookup(n)].parse(text).Some?
    ensures var i := t.Lookup(n);
            var v := t.settings[i].parse(text).value;
            Coherent(t, t.AfterSet(st, n, text, fault)) <==>
            if fault == DbFails then v == st.cfg[i] else st.file[i] == Some(Show(v))
  {
    var i := t.Lookup(n);
    var v := t.settings[i].parse(text).value;
    var st' := t.AfterSet(st, n, text, fault);
    assert t.settings[i].WellFormed() && CoherentAt(t, st, i);
    var old', new' := t.Regenerated(st.cfg, st.active)[i], t.Regenerated(st'.cfg, st'.active)[i];
    if if fault == DbFails then v == st.cfg[i] else st.file[i] == Some(Show(v)) {
      assert st'.file == t.Regenerated(st'.cfg, st'.active);
      forall j | 0 <= j < |t.settings| ensures CoherentAt(t, st', j) {
        assert CoherentAt(t, st, j);
      }
    } else if fault == DbFails {
      if t.MayBeRaw(i) { TextDefaultTrimmed(t.settings[i]); TrimSpaceIdempotent(text); }
      LineReads(t, st, i);
      assert old' != new';
    } else {
      assert old' != new';
    }
  }

  /** Unset ignores a failed table write and answers success. The row it leaves behind decides: the
      places agree exactly when that row is empty or says the default. */
  lemma FailedUnset(t: Schema, st: State, n: string)
    requires t.WellFormed() && Coherent(t, st)
    requires t.Lookup(n) < |t.settings|
    requires t.settings[t.Lookup(n)].editable && t.settings[t.Lookup(n)].runtime
    ensures var i := t.Lookup(n);
            Coherent(t, t.AfterUnset(st, n, DbFails)) <==>
            st.db[i] == "" || t.settings[i].parse(st.db[i]) == Some(t.settings[i].default)
  {
    var i := t.Lookup(n);
    var st' := t.AfterUnset(st, n, DbFails);
    assert t.settings[i].WellFormed() && CoherentAt(t, st, i);
    if st.db[i] == "" || t.settings[i].parse(st.db[i]) == Some(t.settings[i].default) {
      forall j | 0 <= j < |t.settings| ensures CoherentAt(t, st', j) {
        assert CoherentAt(t, st, j);
      }
    } else {
      assert !CoherentAt(t, st', i);
    }
  }

  lemma FailedUnsetLeaves(t: Schema, st: State, n: string)
    requires t.WellFormed() && Coherent(t, st)
    requires t.Lookup(n) < |t.settings|
    requires t.settings[t.Lookup(n)].editable && t.settings[t.Lookup(n)].runtime
    requires st.db[t.Lookup(n)] != ""
    ensures var i := t.Lookup(n);
            var st' := t.AfterUnset(st, n, DbFails);
            && st'.db == st.db && st'.file == st.file[i := None] && t.Parses(st'.file)
            && t.settings[i].parse(st.db[i]).Some?
  {
    var i := t.Lookup(n);
    LineReads(t, st, i);
    assert t.settings[i].WellFormed() && CoherentAt(t, st, i);
    forall j | 0 <= j < |t.settings| && st.file[j].Some? ensures t.settings[j].parse(st.file[j].value).Some? {
      LineReads(t, st, j);
    }
  }

  /** ... and when it says something else, the next start brings that back. */
  lemma FailedUnsetReturns(t: Schema, o: Options, st: State, n: string)
    requires t.WellFormed() && Coherent(t, st)
    requires t.Lookup(n) < |t.settings|
    requires t.settings[t.Lookup(n)].editable && t.settings[t.Lookup(n)].runtime
    requires st.db[t.Lookup(n)] != ""
    ensures var i := t.Lookup(n);
            var st' := t.AfterUnset(st, n, DbFails);
            && t.Boots(o, st'.db, st'.file)
            && Some(t.Boot(o, st'.db, st'.file).cfg[i]) == t.settings[i].parse(st.db[i])
  {
    var i := t.Lookup(n);
    var st' := t.AfterUnset(st, n, DbFails);
    FailedUnsetLeaves(t, st, n);
    RestartExactly(t, o, st);
    hide Schema.AfterUnset, Coherent;
    forall j | 0 <= j < |t.settings|
      ensures t.Pulled(j, t.Loaded(o, st'.file, j), st'.file[j].Some?, st'.db[j]).Some?
    {
      if j != i { PulledAt(t, o, st, i, j); }
    }
  }

  lemma PulledAt(t: Schema, o: Options, st: State, i: nat, j: nat)
    requires t.Fits(st) && t.dataDir < |t.settings| && j < |t.settings| && i < |t.settings|
    requires j != i && i != t.dataDir
    requires t.Boots(o, st.db, st.file)
    requires t.Parses(st.file[i := None])
    ensures t.Pulled(j, t.Loaded(o, st.file[i := None], j), st.file[j].Some?, st.db[j]).Some?
  {
    assert t.Pulled(j, t.LoadedConfig(o, st.file)[j], t.Actives(st.file)[j], st.db[j]).Some?;
    assert t.Loaded(o, st.file[i := None], j) == t.Loaded(o, st.file, j);
  }
}
