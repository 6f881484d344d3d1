/** `process_command` of `src/cli/commands/mod.rs` and its copy in
    `crates/hi_cli/src/commands/mod.rs` (which logs through presets instead
    of plain lines and has the same decisions): the `add` branch and the
    force-mode resolution of the `apply` branch. */
module Commands {
  import opened Wrappers
  import opened Codec
  import opened Templates
  import opened ConfigCache
  import Store
  import Catalog
  import Processor
  import Batch

  /** Whether a template is disabled; both drivers skip exactly these. */
  function Ignored(t: Template): bool {
    t.manifest.ignored
  }

  /** Applying one template with `processor::apply`: the outcome a batch sees. */
  function ApplyWith(cfg: Config, force: bool, io: Processor.Io, shell: string -> Processor.HookOutcome)
    : Template -> Result<bool, string>
  {
    (t: Template) => Processor.Apply(t, cfg, force, io, shell).result
  }

  /** The persisted flag as `CliConfig::load().unwrap_or_default()` reads it:
      a settings file that cannot be read or parsed counts as force off. */
  function PersistedForce(loaded: Result<bool, string>): (b: bool)
    ensures b <==> loaded == Success(true)
  {
    match loaded
    case Success(f) => f
    case Failure(_) => false
  }

  /** The outcome of force resolution: the force the batch runs with, the
      flag left in the settings file by this command (if it wrote one), and
      whether a failed save was reported as a warning. */
  datatype ForceMode = ForceMode(effective: bool, stored: Option<bool>, saveWarned: bool)

  /** Force resolution in the `apply` branch. With the toggle, the persisted
      flag is flipped and saved (a failed save only warns) and the run is
      forced if either `--force` or the new flag says so; without it, the run
      is forced by `--force` or the persisted flag. */
  function ResolveForce(force: bool, toggle: bool, loaded: Result<bool, string>,
                        saveError: Option<string>): (m: ForceMode)
    ensures toggle ==> m.effective == (force || !PersistedForce(loaded))
    ensures !toggle ==> m.effective == (force || PersistedForce(loaded))
    ensures m.stored.Some? <==> toggle && saveError.None?
    ensures m.stored.Some? ==> m.stored.value == !PersistedForce(loaded)
    ensures m.saveWarned <==> toggle && saveError.Some?
  {
    if toggle then
      var flag := !PersistedForce(loaded);
      ForceMode(force || flag, if saveError.None? then Some(flag) else None, saveError.Some?)
    else
      ForceMode(force || PersistedForce(loaded), None, false)
  }

  /** Toggling twice, with both saves succeeding, leaves the settings file
      holding the flag it was read as before the first toggle. */
  lemma ToggleTwiceRestores(force: bool, loaded: Result<bool, string>)
    ensures var first := ResolveForce(force, true, loaded, None);
            var second := ResolveForce(force, true, Success(first.stored.value), None);
            second.stored == Some(PersistedForce(loaded))
  {
  }

  /** A toggle is persistent: a later plain `apply` that reads back the saved
      flag runs with the force the toggling run had (absent `--force`). */
  lemma TogglePersists(loaded: Result<bool, string>)
    ensures var first := ResolveForce(false, true, loaded, None);
            ResolveForce(false, false, Success(first.stored.value), None).effective == first.effective
  {
  }

  /** The configuration the batch runs with: unforced, the one loaded at
      start-up; forced, the configuration read again from source, or the
      start-up one when that read fails. */
  function FinalConfig(forced: bool, loaded: Config, confPath: string, fs: ConfigFs,
                       decode: seq<byte> -> Option<Config>,
                       parse: string -> Result<Config, string>): (c: Config)
    ensures !forced ==> c == loaded
    ensures forced && LoadFromSource(confPath, fs.conf, parse).Success? ==>
              c == LoadFromSource(confPath, fs.conf, parse).value
    ensures forced && LoadFromSource(confPath, fs.conf, parse).Failure? ==> c == loaded
  {
    if forced then
      match LoadNoCache(confPath, fs, decode, parse)
      case Success(reread) => reread
      case Failure(_) => loaded
    else loaded
  }

  /** A forced run's configuration depends on the source file only, never on
      the cache. */
  lemma ForcedConfigIgnoresCache(loaded: Config, confPath: string, fs: ConfigFs, fs': ConfigFs,
                                 decode: seq<byte> -> Option<Config>, decode': seq<byte> -> Option<Config>,
                                 parse: string -> Result<Config, string>)
    requires fs.conf == fs'.conf
    ensures FinalConfig(true, loaded, confPath, fs, decode, parse) ==
            FinalConfig(true, loaded, confPath, fs', decode', parse)
  {
  }

  /** `apply::execute` over the store: the batch runs over the listing in
      name order, with the given configuration and force. */
  method ApplyStored(st: Store.Store, cfg: Config, force: bool,
                     io: Processor.Io, shell: string -> Processor.HookOutcome)
    returns (run: Batch.BatchRun<Template>)
    requires Store.Valid(st)
    ensures run.outcome.NothingToApply? <==> |st.templates| == 0
    ensures forall t :: t in run.attempted ==> t.manifest.name in st.templates && !t.manifest.ignored
    ensures Batch.NoHardError(Store.List(st), Ignored, ApplyWith(cfg, force, io, shell)) && |st.templates| > 0 ==>
              run.attempted == Batch.Eligible(Store.List(st), Ignored)
              && run.outcome.Finished?
              && run.outcome.skipped == Batch.CountIgnored(Store.List(st), Ignored)
              && run.outcome.hookFailures == Batch.CountHookFailures(Store.List(st), Ignored, ApplyWith(cfg, force, io, shell))
    ensures !Batch.NoHardError(Store.List(st), Ignored, ApplyWith(cfg, force, io, shell)) ==> run.outcome.Aborted?
    ensures forall k :: Batch.FirstHardError(Store.List(st), Ignored, ApplyWith(cfg, force, io, shell), k) ==>
              && run.outcome == Batch.Aborted(ApplyWith(cfg, force, io, shell)(Store.List(st)[k]).error)
              && run.attempted == Batch.Eligible(Store.List(st)[..k + 1], Ignored)
  {
    var items := Store.List(st);
    assert |items| == |st.templates|;
    assert forall t :: t in items ==> t.manifest.name in st.templates by {
      forall t | t in items
        ensures t.manifest.name in st.templates
      {
        var i :| 0 <= i < |items| && items[i] == t;
      }
    }
    run := Batch.Execute(items, Ignored, ApplyWith(cfg, force, io, shell));
    assert run.outcome.NothingToApply? <==> items == [];
    assert forall t :: t in run.attempted ==> t in items && !Ignored(t);
  }

  /** The `apply` branch: resolve force, choose the configuration, and run
      the batch over the store's listing with that force. */
  method ApplyCommand(st: Store.Store, loaded: Config, force: bool, toggle: bool,
                      cli: Result<bool, string>, saveError: Option<string>,
                      confPath: string, fs: ConfigFs, decode: seq<byte> -> Option<Config>,
                      parse: string -> Result<Config, string>,
                      io: Processor.Io, shell: string -> Processor.HookOutcome)
    returns (mode: ForceMode, cfg: Config, run: Batch.BatchRun<Template>)
    requires Store.Valid(st)
    ensures mode == ResolveForce(force, toggle, cli, saveError)
    ensures cfg == FinalConfig(mode.effective, loaded, confPath, fs, decode, parse)
    ensures run.outcome.NothingToApply? <==> |st.templates| == 0
    ensures forall t :: t in run.attempted ==> t.manifest.name in st.templates && !t.manifest.ignored
    ensures Batch.NoHardError(Store.List(st), Ignored, ApplyWith(cfg, mode.effective, io, shell)) && |st.templates| > 0 ==>
              run.attempted == Batch.Eligible(Store.List(st), Ignored)
              && run.outcome.Finished?
              && run.outcome.skipped == Batch.CountIgnored(Store.List(st), Ignored)
              && run.outcome.hookFailures == Batch.CountHookFailures(Store.List(st), Ignored, ApplyWith(cfg, mode.effective, io, shell))
    ensures !Batch.NoHardError(Store.List(st), Ignored, ApplyWith(cfg, mode.effective, io, shell)) ==> run.outcome.Aborted?
    ensures forall k :: Batch.FirstHardError(Store.List(st), Ignored, ApplyWith(cfg, mode.effective, io, shell), k) ==>
              && run.outcome == Batch.Aborted(ApplyWith(cfg, mode.effective, io, shell)(Store.List(st)[k]).error)
              && run.attempted == Batch.Eligible(Store.List(st)[..k + 1], Ignored)
  {
    mode := ResolveForce(force, toggle, cli, saveError);
    cfg := FinalConfig(mode.effective, loaded, confPath, fs, decode, parse);
    run := ApplyStored(st, cfg, mode.effective, io, shell);
  }

  /** `add_template`'s effect on the store: every installed template is
      added in order. */
  function AddAll(st: Store.Store, ts: seq<Template>): (r: Store.Store)
    ensures r.path == st.path
    ensures Store.Valid(st) ==> Store.Valid(r)
    decreases |ts|
  {
    if ts == [] then st else AddAll(Store.Add(st, ts[0]), ts[1..])
  }

  /** Adding keeps every stored name and stores every installed one, and a
      later template wins over an earlier one of the same name. */
  lemma {:induction false} AddAllStores(st: Store.Store, ts: seq<Template>)
    ensures forall k :: k in st.templates ==> k in AddAll(st, ts).templates
    ensures forall t :: t in ts ==> t.manifest.name in AddAll(st, ts).templates
    ensures ts != [] ==> AddAll(st, ts).templates[ts[|ts| - 1].manifest.name] == ts[|ts| - 1]
    decreases |ts|
  {
    if ts != [] {
      var next := Store.Add(st, ts[0]);
      AddAllStores(next, ts[1..]);
      assert forall t :: t in ts ==> t == ts[0] || t in ts[1..];
      if |ts| > 1 {
        assert ts[1..][|ts| - 2] == ts[|ts| - 1];
      }
    }
  }

  /** The `add` branch: install, save the store (a failed save stops before
      anything is applied), then apply the newly installed templates in
      order, skipping ignored ones. A hook that exits non-zero is not an
      error here; a hard error stops the loop. */
  method AddCommand(st: Store.Store, installed: Result<seq<Template>, string>, cfg: Config,
                    encode: map<string, Template> -> seq<byte>, saveError: Option<string>,
                    io: Processor.Io, shell: string -> Processor.HookOutcome)
    returns (db: Store.Store, file: Option<Catalog.DbFile>, attempted: seq<Template>, error: Option<string>)
    ensures installed.Failure? ==> db == st && file.None? && attempted == [] && error == Some(installed.error)
    ensures installed.Success? ==> db == AddAll(st, installed.value)
    ensures installed.Success? && saveError.Some? ==> file.None? && attempted == [] && error == saveError
    ensures installed.Success? && saveError.None? ==> file == Some(Catalog.Present(encode(db.templates), true, true))
    ensures forall t :: t in attempted ==> !t.manifest.ignored
    ensures installed.Success? && saveError.None? && Batch.NoHardError(installed.value, Ignored, ApplyWith(cfg, false, io, shell)) ==>
              attempted == Batch.Eligible(installed.value, Ignored) && error.None?
    ensures error.Some? && installed.Success? && saveError.None? ==>
              exists k :: 0 <= k < |installed.value| && !installed.value[k].manifest.ignored
                          && ApplyWith(cfg, false, io, shell)(installed.value[k]) == Failure(error.value)
    ensures installed.Success? && saveError.None? && !Batch.NoHardError(installed.value, Ignored, ApplyWith(cfg, false, io, shell)) ==>
              error.Some?
    ensures installed.Success? && saveError.None? ==>
              forall k :: Batch.FirstHardError(installed.value, Ignored, ApplyWith(cfg, false, io, shell), k) ==>
                && error == Some(ApplyWith(cfg, false, io, shell)(installed.value[k]).error)
                && attempted == Batch.Eligible(installed.value[..k + 1], Ignored)
  {
    if installed.Failure? {
      return st, None, [], Some(installed.error);
    }
    db := AddAll(st, installed.value);
    match Store.Save(db, encode, saveError)
    case Failure(e) =>
      return db, None, [], Some(e);
    case Success(f) =>
      file := Some(f);
      var run := Batch.Execute(installed.value, Ignored, ApplyWith(cfg, false, io, shell));
      attempted := run.attempted;
      error := if run.outcome.Aborted? then Some(run.outcome.error) else None;
  }
}
