// Saving, rolling back and restoring configurations in config/center.go.
module ConfigCenters {

  // ---- Files and hooks --------------------------------------------------

  // `Version` is the history file of a revision, `File` any other path.
  datatype Path = Version(ts: int) | File(name: string)

  datatype Option<T> = None | Some(value: T)

  // How a write ends: a failed one may leave other text behind.
  datatype Write = Done | Failed(leftover: Option<string>)

  type Files = map<Path, string>

  function Written(files: Files, path: Path, text: string, w: Write): Files {
    match w
    case Done => files[path := text]
    case Failed(None) => files
    case Failed(Some(t)) => files[path := t]
  }

  const ALTERNATES: seq<string> := ["config/production.yaml", "/root/mango-waf/config/production.yaml"]

  // What the environment decides during one save: the clock, how each write ends and which
  // reload hooks report an error.
  datatype Env = Env(
    ts: int, history: Write, main: Write, alternate: string -> Write, rollback: Write, fails: nat -> bool)

  datatype Call<C> = Call(hook: nat, config: C)

  datatype Note = Note(author: string, role: string, description: string)

  datatype Revision = Revision(version: int, note: Note)

  datatype Outcome = Saved | Rejected | NotRecorded | RolledBack(hook: nat) | NotFound

  // `calls` is the history of hook calls; `recorded` gives the text each revision was made
  // from. Neither is a field of the source's object.
  datatype State<C> = State(
    path: string, config: C, raw: string, revisions: seq<Revision>, files: Files, hooks: nat,
    calls: seq<Call<C>>, recorded: map<int, string>)

  // ---- One save ---------------------------------------------------------

  // The first of the n hooks that fails, n if none does.
  function FirstFailure(fails: nat -> bool, from: nat, n: nat): (k: nat)
    requires from <= n
    ensures from <= k <= n && (k < n ==> fails(k)) && forall j: nat :: from <= j < k ==> !fails(j)
    decreases n - from
  {
    if from == n || fails(from) then from else FirstFailure(fails, from + 1, n)
  }

  // Hooks 0 to n - 1 called in order with one configuration.
  function CallAll<C>(n: nat, config: C): (calls: seq<Call<C>>)
    ensures |calls| == n && forall h :: 0 <= h < n ==> calls[h] == Call(h, config)
  {
    seq(n, h requires 0 <= h < n => Call(h, config))
  }

  // Writing the main file: the first alternative that takes the text becomes the main path.
  function MainWritten(path: string, files: Files, raw: string, env: Env): (string, Files) {
    var files1 := Written(files, File(path), raw, env.main);
    if env.main.Done? then (path, files1) else Alternate(path, files1, raw, env, 0)
  }

  function Alternate(path: string, files: Files, raw: string, env: Env, k: nat): (string, Files)
    requires k <= |ALTERNATES|
    decreases |ALTERNATES| - k
  {
    if k == |ALTERNATES| then (path, files)
    else if ALTERNATES[k] == path then Alternate(path, files, raw, env, k + 1)
    else
      var w := env.alternate(ALTERNATES[k]);
      var files1 := Written(files, File(ALTERNATES[k]), raw, w);
      if w.Done? then (ALTERNATES[k], files1) else Alternate(path, files1, raw, env, k + 1)
  }

  function Record<C>(s: State<C>, raw: string, rev: Revision, env: Env): State<C> {
    s.(files := Written(s.files, Version(env.ts), raw, env.history),
       revisions := [rev] + s.revisions, recorded := s.recorded[env.ts := raw])
  }

  // The state once `raw` is recorded and its configuration `config` is to take effect.
  function Install<C>(s: State<C>, raw: string, config: C, env: Env): State<C> {
    var (path, files) := MainWritten(s.path, s.files, raw, env);
    s.(path := path, files := files, config := config, raw := raw)
  }

  function Reload<C>(s: State<C>, config: C, env: Env): State<C> {
    var k := FirstFailure(env.fails, 0, s.hooks);
    s.(calls := s.calls + CallAll(if k < s.hooks then k + 1 else k, config))
  }

  function RollBack<C>(s: State<C>, config: C, raw: string, env: Env): State<C> {
    s.(files := Written(s.files, File(s.path), raw, env.rollback), config := config, raw := raw,
       calls := s.calls + CallAll(s.hooks, config))
  }

  // The reload hooks, and the way back to the old configuration when one of them fails.
  function Trigger<C>(s: State<C>, config: C, oldConfig: C, oldRaw: string, env: Env): (State<C>, Outcome) {
    var k := FirstFailure(env.fails, 0, s.hooks);
    if k < s.hooks then (RollBack(Reload(s, config, env), oldConfig, oldRaw, env), RolledBack(k))
    else (Reload(s, config, env), Saved)
  }

  function Save<C>(
    validate: string -> Option<C>, s: State<C>, raw: string, note: Note, env: Env)
    : (State<C>, Outcome)
  {
    match validate(raw)
    case None => (s, Rejected)
    case Some(config) =>
      if env.history.Failed? then
        (s.(files := Written(s.files, Version(env.ts), raw, env.history)), NotRecorded)
      else
        var s1 := Record(s, raw, Revision(env.ts, note), env);
        Trigger(Install(s1, raw, config, env), config, s.config, s.raw, env)
  }

  // Restoring saves again what the history file of a version holds.
  function Restore<C>(
    validate: string -> Option<C>, s: State<C>, version: int, readable: bool,
    note: Note, env: Env): (State<C>, Outcome)
  {
    if readable && Version(version) in s.files then
      Save(validate, s, s.files[Version(version)], note, env)
    else (s, NotFound)
  }

  // ---- A save is a transaction ------------------------------------------

  // A save that does not succeed leaves the configuration and its text as they were, and a
  // save succeeds exactly when the text is valid, its revision is written and no hook fails.
  lemma SaveIsTransaction<C>(
    validate: string -> Option<C>, s: State<C>, raw: string, note: Note, env: Env)
    ensures var (s', o) := Save(validate, s, raw, note, env);
            && (o == Saved <==>
                  validate(raw).Some? && env.history.Done? && forall h: nat :: h < s.hooks ==> !env.fails(h))
            && (o == Saved ==> Some(s'.config) == validate(raw) && s'.raw == raw)
            && (o != Saved ==> s'.config == s.config && s'.raw == s.raw)
            && s'.hooks == s.hooks
  {}

  // The last configuration a hook was called with.
  function LastCall<C>(calls: seq<Call<C>>, h: nat): Option<C> {
    if calls == [] then None
    else if calls[|calls| - 1].hook == h then Some(calls[|calls| - 1].config)
    else LastCall(calls[..|calls| - 1], h)
  }

  lemma {:induction false} LastCallConcat<C>(a: seq<Call<C>>, b: seq<Call<C>>, h: nat)
    ensures LastCall(a + b, h) == if LastCall(b, h) == None then LastCall(a, h) else LastCall(b, h)
  {
    if b == [] {
      assert a + b == a;
    } else {
      LastCallConcat(a, b[..|b| - 1], h);
      assert (a + b)[..|a + b| - 1] == a + b[..|b| - 1];
    }
  }

  lemma {:induction false} LastOfAll<C>(n: nat, config: C, h: nat)
    ensures LastCall(CallAll(n, config), h) == if h < n then Some(config) else None
  {
    if n > 0 {
      LastOfAll(n - 1, config, h);
      assert CallAll(n, config)[..n - 1] == CallAll(n - 1, config);
    }
  }

  predicate ReachedHooks(o: Outcome) {
    o.Saved? || o.RolledBack?
  }

  // MAIN RESULT. After a save that reached the hooks, every registered hook was last called with the
  // configuration in force, whichever of them failed.
  lemma HooksSeeConfigInForce<C>(
    validate: string -> Option<C>, s: State<C>, raw: string, note: Note, env: Env,
    h: nat)
    ensures var (s', o) := Save(validate, s, raw, note, env);
            && (ReachedHooks(o) && h < s'.hooks ==> LastCall(s'.calls, h) == Some(s'.config))
            && (ReachedHooks(o) && h >= s'.hooks ==> LastCall(s'.calls, h) == LastCall(s.calls, h))
            && (!ReachedHooks(o) ==> s'.calls == s.calls && s'.config == s.config)
  {
    var (s', o) := Save(validate, s, raw, note, env);
    if ReachedHooks(o) {
      var config := validate(raw).value;
      var k := FirstFailure(env.fails, 0, s.hooks);
      var n := if k < s.hooks then k + 1 else k;
      LastOfAll(n, config, h);
      LastOfAll(s.hooks, s.config, h);
      LastCallConcat(s.calls, CallAll(n, config), h);
      LastCallConcat(s.calls + CallAll(n, config), CallAll(s.hooks, s.config), h);
      hide LastCall, MainWritten, FirstFailure;
    }
  }

  // ---- The main file ----------------------------------------------------

  // The first alternative, other than the main path itself, that takes the text.
  predicate FirstOpen(path: string, env: Env, k: nat) {
    && k < |ALTERNATES|
    && ALTERNATES[k] != path && env.alternate(ALTERNATES[k]).Done?
    && forall j :: 0 <= j < k ==> ALTERNATES[j] == path || env.alternate(ALTERNATES[j]).Failed?
  }

  ghost predicate SomeOpen(path: string, env: Env) {
    exists k: nat :: FirstOpen(path, env, k)
  }

  lemma {:induction false} AlternateIsFirstOpen(path: string, files: Files, raw: string, env: Env, k: nat)
    requires k <= |ALTERNATES|
    requires forall j :: 0 <= j < k ==> ALTERNATES[j] == path || env.alternate(ALTERNATES[j]).Failed?
    ensures var (path', files') := Alternate(path, files, raw, env, k);
      if SomeOpen(path, env) then
        && File(path') in files' && files'[File(path')] == raw
        && forall i: nat :: FirstOpen(path, env, i) ==> path' == ALTERNATES[i]
      else path' == path
    decreases |ALTERNATES| - k
  {
    if k < |ALTERNATES| {
      if ALTERNATES[k] != path && env.alternate(ALTERNATES[k]).Done? {
        assert FirstOpen(path, env, k);
      } else {
        AlternateIsFirstOpen(path, files, raw, env, k + 1);
        var files1 := Written(files, File(ALTERNATES[k]), raw, env.alternate(ALTERNATES[k]));
        AlternateIsFirstOpen(path, files1, raw, env, k + 1);
      }
    }
  }

  // Where the main path leads after a save that got as far as writing it: it stays if it took the
  // text or nothing else did, and otherwise moves to the first alternative that did. If something
  // took the text, the main file holds the text in force when the save succeeds, and also when it
  // is rolled back and the way back can be written.
  lemma MainFileFollows<C>(
    validate: string -> Option<C>, s: State<C>, raw: string, note: Note, env: Env)
    requires validate(raw).Some? && env.history.Done?
    ensures var (s', o) := Save(validate, s, raw, note, env);
            && (env.main.Done? || !SomeOpen(s.path, env) ==> s'.path == s.path)
            && (env.main.Failed? ==> forall k: nat :: FirstOpen(s.path, env, k) ==> s'.path == ALTERNATES[k])
            && ((if o == Saved then env.main.Done? || SomeOpen(s.path, env) else env.rollback.Done?) ==>
                  File(s'.path) in s'.files && s'.files[File(s'.path)] == s'.raw)
  {
    var s1 := Record(s, raw, Revision(env.ts, note), env);
    if env.main.Failed? {
      AlternateIsFirstOpen(s.path, Written(s1.files, File(s.path), raw, env.main), raw, env, 0);
    }
    hide Alternate, FirstFailure, SomeOpen, FirstOpen;
  }

  // ---- Runs -------------------------------------------------------------

  datatype Act =
    | Register
    | SaveAct(raw: string, note: Note, env: Env)
    | RestoreAct(version: int, readable: bool, note: Note, env: Env)

  function Step<C>(validate: string -> Option<C>, s: State<C>, a: Act): State<C> {
    match a
    case Register => s.(hooks := s.hooks + 1)
    case SaveAct(raw, note, env) => Save(validate, s, raw, note, env).0
    case RestoreAct(v, readable, note, env) => Restore(validate, s, v, readable, note, env).0
  }

  function Run<C>(validate: string -> Option<C>, start: State<C>, acts: seq<Act>): State<C> {
    if acts == [] then start
    else Step(validate, Run(validate, start, acts[..|acts| - 1]), acts[|acts| - 1])
  }

  // The clock never repeats the version of an earlier revision.
  predicate FreshClock<C>(s: State<C>, a: Act) {
    match a
    case Register => true
    case SaveAct(_, _, env) => env.ts !in s.recorded
    case RestoreAct(_, _, _, env) => env.ts !in s.recorded
  }

  predicate FreshClocks<C>(validate: string -> Option<C>, start: State<C>, acts: seq<Act>) {
    acts != [] ==>
      && FreshClocks(validate, start, acts[..|acts| - 1])
      && FreshClock(Run(validate, start, acts[..|acts| - 1]), acts[|acts| - 1])
  }

  // History files hold the text of their revisions.
  predicate HistoryKept<C>(validate: string -> Option<C>, s: State<C>) {
    && (forall v :: v in s.recorded ==>
          && Version(v) in s.files && s.files[Version(v)] == s.recorded[v]
          && validate(s.recorded[v]).Some?)
    && (forall k :: 0 <= k < |s.revisions| ==> s.revisions[k].version in s.recorded)
  }

  // The configuration in force is that of the text in force, or both are the ones of the
  // start, and every hook called so far was last called with it.
  ghost predicate InForce<C>(validate: string -> Option<C>, start: State<C>, s: State<C>) {
    && (validate(s.raw) == Some(s.config) || (s.raw == start.raw && s.config == start.config))
    && forall h: nat ::
         if h < s.hooks then LastCall(s.calls, h) == None || LastCall(s.calls, h) == Some(s.config)
         else LastCall(s.calls, h) == None
  }

  lemma {:induction false} AlternateElsewhere(path: string, files: Files, raw: string, env: Env, k: nat, v: int)
    requires k <= |ALTERNATES|
    ensures var files' := Alternate(path, files, raw, env, k).1;
            && (Version(v) in files' <==> Version(v) in files)
            && (Version(v) in files ==> files'[Version(v)] == files[Version(v)])
    decreases |ALTERNATES| - k
  {
    if k < |ALTERNATES| {
      var w := env.alternate(ALTERNATES[k]);
      var files1 := Written(files, File(ALTERNATES[k]), raw, w);
      AlternateElsewhere(path, files, raw, env, k + 1, v);
      AlternateElsewhere(path, files1, raw, env, k + 1, v);
      hide Written;
    }
  }

  // A save touches one history file only, that of its own time.
  lemma HistoryTouched<C>(
    validate: string -> Option<C>, s: State<C>, raw: string, note: Note, env: Env,
    v: int)
    ensures var s' := Save(validate, s, raw, note, env).0;
            && (v != env.ts ==> (Version(v) in s'.files <==> Version(v) in s.files))
            && (v != env.ts && Version(v) in s.files ==> s'.files[Version(v)] == s.files[Version(v)])
            && (validate(raw).Some? && env.history.Done? ==>
                  Version(env.ts) in s'.files && s'.files[Version(env.ts)] == raw)
  {
    if validate(raw).Some? {
      var files1 := Written(s.files, Version(env.ts), raw, env.history);
      var files2 := Written(files1, File(s.path), raw, env.main);
      var s2 := Install(Record(s, raw, Revision(env.ts, note), env), raw, validate(raw).value, env);
      assert env.history.Done? ==> Version(env.ts) in files1 && files1[Version(env.ts)] == raw;
      forall u | u == v || u == env.ts
        ensures Version(u) in s2.files <==> Version(u) in files1
        ensures Version(u) in files1 ==> s2.files[Version(u)] == files1[Version(u)]
        ensures var files3 := Written(s2.files, File(s2.path), s.raw, env.rollback);
                && (Version(u) in files3 <==> Version(u) in files1)
                && (Version(u) in files1 ==> files3[Version(u)] == files1[Version(u)])
      {
        AlternateElsewhere(s.path, files2, raw, env, 0, u);
        hide Written, Alternate;
      }
      hide Written, Alternate, MainWritten, FirstFailure;
    }
  }

  lemma SaveKeepsHistory<C>(
    validate: string -> Option<C>, s: State<C>, raw: string, note: Note, env: Env)
    requires HistoryKept(validate, s) && env.ts !in s.recorded
    ensures var s' := Save(validate, s, raw, note, env).0;
            && HistoryKept(validate, s')
            && forall v :: v in s.recorded ==> v in s'.recorded && s'.recorded[v] == s.recorded[v]
  {
    hide Save;
    var s' := Save(validate, s, raw, note, env).0;
    RevisionsRecorded(validate, s, raw, note, env);
    forall v | v in s'.recorded
      ensures Version(v) in s'.files && s'.files[Version(v)] == s'.recorded[v]
    {
      HistoryTouched(validate, s, raw, note, env, v);
    }
  }

  lemma RevisionsRecorded<C>(
    validate: string -> Option<C>, s: State<C>, raw: string, note: Note, env: Env)
    ensures var s' := Save(validate, s, raw, note, env).0;
            if validate(raw).Some? && env.history.Done? then
              s'.revisions == [Revision(env.ts, note)] + s.revisions && s'.recorded == s.recorded[env.ts := raw]
            else s'.revisions == s.revisions && s'.recorded == s.recorded
  {
    hide MainWritten, Written, FirstFailure;
  }

  // With a clock that never repeats, the history files keep the text of every revision.
  lemma {:induction false} HistoryIsKept<C>(validate: string -> Option<C>, start: State<C>, acts: seq<Act>)
    requires HistoryKept(validate, start) && FreshClocks(validate, start, acts)
    ensures HistoryKept(validate, Run(validate, start, acts))
  {
    if acts != [] {
      var past, a := acts[..|acts| - 1], acts[|acts| - 1];
      HistoryIsKept(validate, start, past);
      StepKeepsHistory(validate, Run(validate, start, past), a);
      hide HistoryKept;
    }
  }

  lemma StepKeepsHistory<C>(validate: string -> Option<C>, s: State<C>, a: Act)
    requires HistoryKept(validate, s) && FreshClock(s, a)
    ensures HistoryKept(validate, Step(validate, s, a))
    ensures forall v :: v in s.recorded ==>
              v in Step(validate, s, a).recorded && Step(validate, s, a).recorded[v] == s.recorded[v]
  {
    hide Save;
    match a
    case Register =>
    case SaveAct(raw, note, env) => SaveKeepsHistory(validate, s, raw, note, env);
    case RestoreAct(v, readable, note, env) =>
      if readable && Version(v) in s.files {
        SaveKeepsHistory(validate, s, s.files[Version(v)], note, env);
      }
  }

  lemma {:induction false} RecordStays<C>(
    validate: string -> Option<C>, start: State<C>, acts: seq<Act>, more: seq<Act>, v: int)
    requires HistoryKept(validate, start) && FreshClocks(validate, start, acts + more)
    requires v in Run(validate, start, acts).recorded
    ensures HistoryKept(validate, Run(validate, start, acts + more))
    ensures v in Run(validate, start, acts + more).recorded
    ensures Run(validate, start, acts + more).recorded[v] == Run(validate, start, acts).recorded[v]
  {
    HistoryIsKept(validate, start, acts + more);
    if more == [] {
      assert acts + more == acts;
    } else {
      var past := acts + more[..|more| - 1];
      assert (acts + more)[..|acts + more| - 1] == past;
      RecordStays(validate, start, acts, more[..|more| - 1], v);
      StepKeepsHistory(validate, Run(validate, start, past), more[|more| - 1]);
      hide HistoryKept;
    }
  }

  // MAIN RESULT. Whatever happens in between, restoring a version succeeds exactly when its file can be
  // read, the new revision is written and no hook fails, and then the text and configuration
  // in force are the ones saved under that version.
  lemma RestoreReinstates<C>(
    validate: string -> Option<C>, start: State<C>, acts: seq<Act>, more: seq<Act>,
    v: int, readable: bool, note: Note, env: Env)
    requires HistoryKept(validate, start) && FreshClocks(validate, start, acts + more)
    requires v in Run(validate, start, acts).recorded
    ensures var text := Run(validate, start, acts).recorded[v];
            var s := Run(validate, start, acts + more);
            var (s', o) := Restore(validate, s, v, readable, note, env);
            && (o == Saved <==> readable && env.history.Done? && forall h: nat :: h < s.hooks ==> !env.fails(h))
            && (o == Saved ==> s'.raw == text && Some(s'.config) == validate(text))
            && (o != Saved ==> s'.raw == s.raw && s'.config == s.config)
  {
    RecordStays(validate, start, acts, more, v);
    var s := Run(validate, start, acts + more);
    SaveIsTransaction(validate, s, s.files[Version(v)], note, env);
    hide Save, Run;
  }

  // A clock that repeats the time of a revision loses its text unless the two are equal.
  lemma RepeatedTimeLosesText<C>(
    validate: string -> Option<C>, s: State<C>, raw: string, note: Note, env: Env, v: int)
    requires validate(raw).Some? && env.history.Done? && HistoryKept(validate, s) && v in s.recorded
    ensures var s' := Save(validate, s, raw, note, env).0;
            && Version(v) in s'.files
            && (s'.files[Version(v)] == s.recorded[v] <==> env.ts != v || raw == s.recorded[v])
  {
    assert Version(v) in s.files && s.files[Version(v)] == s.recorded[v];
    hide HistoryKept, Save;
    HistoryTouched(validate, s, raw, note, env, v);
  }

  lemma StepInForce<C>(validate: string -> Option<C>, start: State<C>, s: State<C>, a: Act)
    requires InForce(validate, start, s)
    ensures InForce(validate, start, Step(validate, s, a))
  {
    hide Save, LastCall;
    match a
    case Register =>
    case SaveAct(raw, note, env) => SaveInForce(validate, start, s, raw, note, env);
    case RestoreAct(v, readable, note, env) =>
      if readable && Version(v) in s.files {
        SaveInForce(validate, start, s, s.files[Version(v)], note, env);
      }
  }

  lemma SaveInForce<C>(
    validate: string -> Option<C>, start: State<C>, s: State<C>, raw: string, note: Note, env: Env)
    requires InForce(validate, start, s)
    ensures InForce(validate, start, Save(validate, s, raw, note, env).0)
  {
    SaveIsTransaction(validate, s, raw, note, env);
    var s' := Save(validate, s, raw, note, env).0;
    hide Save, LastCall;
    forall h: nat
      ensures if h < s'.hooks then LastCall(s'.calls, h) == None || LastCall(s'.calls, h) == Some(s'.config)
              else LastCall(s'.calls, h) == None
    {
      HooksSeeConfigInForce(validate, s, raw, note, env, h);
    }
  }

  // MAIN RESULT. In every run the configuration in force is that of the text in force, and no hook was
  // last called with another one.
  lemma {:induction false} AlwaysInForce<C>(validate: string -> Option<C>, start: State<C>, acts: seq<Act>)
    requires start.calls == []
    ensures InForce(validate, start, Run(validate, start, acts))
  {
    if acts != [] {
      AlwaysInForce(validate, start, acts[..|acts| - 1]);
      hide InForce;
      StepInForce(validate, start, Run(validate, start, acts[..|acts| - 1]), acts[|acts| - 1]);
    }
  }

  // ---- The config centre ------------------------------------------------

  class ConfigCenter<C> {
    const validate: string -> Option<C>
    var currentPath: string
    var currentConfig: C
    var rawYAML: string
    var revisions: seq<Revision>
    var files: Files
    var hookCount: nat
    ghost var calls: seq<Call<C>>
    ghost var recorded: map<int, string>

    ghost function View(): State<C>
      reads this
    {
      State(currentPath, currentConfig, rawYAML, revisions, files, hookCount, calls, recorded)
    }

    constructor (validate: string -> Option<C>, path: string, config: C, raw: string, files: Files)
      ensures this.validate == validate
      ensures View() == State(path, config, raw, [], files, 0, [], map[])
    {
      this.validate := validate;
      currentPath, currentConfig, rawYAML, this.files := path, config, raw, files;
      revisions, hookCount, calls, recorded := [], 0, [], map[];
    }

    method RegisterReloadHook()
      modifies this
      ensures View() == Step(validate, old(View()), Register)
    {
      hookCount := hookCount + 1;
    }

    method SaveYAML(raw: string, note: Note, env: Env) returns (o: Outcome)
      modifies this
      ensures (View(), o) == Save(validate, old(View()), raw, note, env)
    {
      var parsed := validate(raw);
      if parsed.None? {
        return Rejected;
      }
      var newCfg := parsed.value;
      var oldCfg, oldYAML := currentConfig, rawYAML;

      files := Written(files, Version(env.ts), raw, env.history);
      if env.history.Failed? {
        return NotRecorded;
      }
      revisions := [Revision(env.ts, note)] + revisions;
      recorded := recorded[env.ts := raw];

      WriteMain(raw, env);
      currentConfig, rawYAML := newCfg, raw;

      assert View() == Install(Record(old(View()), raw, Revision(env.ts, note), env), raw, newCfg, env);
      o := TriggerHooks(newCfg, oldCfg, oldYAML, env);
    }

    method TriggerHooks(newCfg: C, oldCfg: C, oldYAML: string, env: Env) returns (o: Outcome)
      modifies this
      ensures (View(), o) == Trigger(old(View()), newCfg, oldCfg, oldYAML, env)
    {
      ghost var installed := View();
      assert installed.calls + CallAll(0, newCfg) == installed.calls;
      var h := 0;
      while h < hookCount
        invariant h <= hookCount
        invariant FirstFailure(env.fails, 0, hookCount) == FirstFailure(env.fails, h, hookCount)
        invariant View() == installed.(calls := installed.calls + CallAll(h, newCfg))
      {
        CallOneMore(installed.calls, h, newCfg);
        calls := calls + [Call(h, newCfg)];
        if env.fails(h) {
          files := Written(files, File(currentPath), oldYAML, env.rollback);
          currentConfig, rawYAML := oldCfg, oldYAML;
          CallEveryHook(oldCfg);
          return RolledBack(h);
        }
        h := h + 1;
      }
      return Saved;
    }

    // The main file, or the first alternative that can be written.
    method WriteMain(raw: string, env: Env)
      modifies this`files, this`currentPath
      ensures (currentPath, files) == MainWritten(old(currentPath), old(files), raw, env)
    {
      files := Written(files, File(currentPath), raw, env.main);
      if env.main.Failed? {
        var k := 0;
        while k < |ALTERNATES|
          invariant k <= |ALTERNATES| && currentPath == old(currentPath)
          invariant MainWritten(old(currentPath), old(files), raw, env) == Alternate(currentPath, files, raw, env, k)
        {
          if ALTERNATES[k] != currentPath {
            var w := env.alternate(ALTERNATES[k]);
            files := Written(files, File(ALTERNATES[k]), raw, w);
            if w.Done? {
              currentPath := ALTERNATES[k];
              return;
            }
          }
          k := k + 1;
        }
      }
    }

    ghost method CallEveryHook(config: C)
      modifies this`calls
      ensures calls == old(calls) + CallAll(hookCount, config)
    {
      var h := 0;
      while h < hookCount
        invariant h <= hookCount
        invariant calls == old(calls) + CallAll(h, config)
      {
        CallOneMore(old(calls), h, config);
        calls := calls + [Call(h, config)];
        h := h + 1;
      }
    }

    method RestoreRevision(version: int, readable: bool, note: Note, env: Env) returns (o: Outcome)
      modifies this
      ensures (View(), o) == Restore(validate, old(View()), version, readable, note, env)
    {
      if !readable || Version(version) !in files {
        return NotFound;
      }
      o := SaveYAML(files[Version(version)], note, env);
    }
  }

  lemma CallOneMore<C>(before: seq<Call<C>>, h: nat, config: C)
    ensures before + CallAll(h, config) + [Call(h, config)] == before + CallAll(h + 1, config)
  {}
}
