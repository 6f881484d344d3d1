/** The fragment synchroniser of `crates/hyprcore/src/main.rs`: every `.frag`
    file in the fragments directory is parsed and its templates, then its
    files, are rendered; reload hooks are started and never waited for. The
    directory listing, file contents, parser and renderer are parameters;
    there is no parameter for how a hook ends, since nothing waits for it. */
module Hyprcore {
  import opened Wrappers
  import opened Text
  import opened Templates
  import opened ConfigCache
  import opened Paths
  import opened Processor

  /** A fragment: an identifier, targets in two lists, and hooks. */
  datatype Fragment = Fragment(id: string, templates: seq<Target>, files: seq<Target>, hooks: Hooks)

  /** One directory entry: its path and what reading it gives. */
  datatype DirEntry = DirEntry(path: string, content: Result<string, string>)

  /** The fragments directory: absent, unlistable, or a listing in which each
      entry may itself fail. */
  datatype FragmentsDir = Missing | Unreadable(reason: string) | Listing(entries: seq<Result<DirEntry, string>>)

  const ConfigError := "Failed to load Hyprcore config"
  const HomeError := "Could not find home dir"

  /** The parse error names the path in `Debug` form, that is in double
      quotes; the escaping `Debug` applies to quotes and control characters
      inside the path is not modelled. */
  function ParseError(path: string): string {
    "Failed to parse \"" + path + "\""
  }

  /** `render_and_write` here: expand `~` as the processor does, render,
      then create the parent and write. Rendering comes before the directory
      is created, unlike the processor's order. */
  function RenderAndWrite(t: Target, io: Io, ctx: RenderContext): (r: Result<Written, string>)
    ensures r.Success? <==>
              ExpandTarget(t.target, io.home).Success?
              && io.render(t.content, ctx).Success?
              && io.mkdirParent(ExpandTarget(t.target, io.home).value).None?
              && io.write(ExpandTarget(t.target, io.home).value, io.render(t.content, ctx).value).None?
    ensures ExpandTarget(t.target, io.home).Failure? ==> r == Failure(HomeError)
    ensures ExpandTarget(t.target, io.home).Success? && io.render(t.content, ctx).Failure? ==> r == Failure(RenderError)
    ensures r.Success? ==> r.value == Written(ExpandTarget(t.target, io.home).value, io.render(t.content, ctx).value)
  {
    match ExpandTarget(t.target, io.home)
    case Failure(_) => Failure(HomeError)
    case Success(path) =>
      match io.render(t.content, ctx)
      case Failure(_) => Failure(RenderError)
      case Success(text) =>
        if io.mkdirParent(path).Some? then Failure(io.mkdirParent(path).value)
        else if io.write(path, text).Some? then Failure(io.write(path, text).value)
        else Success(Written(path, text))
  }

  /** What processing fragments did: files written, hook commands started,
      and the error that stopped the sync, if any. */
  datatype SyncRun = SyncRun(written: seq<Written>, hooks: seq<string>, error: Option<string>)
  {
    /** This run followed by `next`, which is only reached when this one
        did not fail. */
    function Then(next: SyncRun): SyncRun {
      if error.Some? then this else SyncRun(written + next.written, hooks + next.hooks, next.error)
    }
  }

  /** `process_fragment`: read, parse, render all templates then all files,
      then start the reload hook. A failure anywhere before the hook stops the
      fragment; starting the hook cannot fail it. */
  function ProcessFragment(e: DirEntry, io: Io, ctx: RenderContext,
                           parse: string -> Result<Fragment, string>): (r: SyncRun)
    ensures e.content.Failure? ==> r == SyncRun([], [], Some(e.content.error))
    ensures e.content.Success? && parse(e.content.value).Failure? ==> r == SyncRun([], [], Some(ParseError(e.path)))
    ensures e.content.Success? && parse(e.content.value).Success? ==>
              var f := parse(e.content.value).value;
              var all := f.templates + f.files;
              && |r.written| <= |all|
              && (forall i :: 0 <= i < |r.written| ==> RenderAndWrite(all[i], io, ctx) == Success(r.written[i]))
              && (r.error.None? <==> |r.written| == |all|)
              && (r.error.Some? ==> RenderAndWrite(all[|r.written|], io, ctx) == Failure(r.error.value))
              && r.hooks == (if r.error.None? && f.hooks.reload.Some? then [f.hooks.reload.value] else [])
  {
    match e.content
    case Failure(err) => SyncRun([], [], Some(err))
    case Success(text) =>
      match parse(text)
      case Failure(_) => SyncRun([], [], Some(ParseError(e.path)))
      case Success(f) =>
        var step := (t: Target) => RenderAndWrite(t, io, ctx);
        var a := RenderAll(f.templates, step);
        if a.error.Some? then SyncRun(a.written, [], a.error)
        else
          var b := RenderAll(f.files, step);
          assert forall i :: |f.templates| <= i < |f.templates| + |f.files| ==>
                   (f.templates + f.files)[i] == f.files[i - |f.templates|];
          if b.error.Some? then SyncRun(a.written + b.written, [], b.error)
          else SyncRun(a.written + b.written,
                       if f.hooks.reload.Some? then [f.hooks.reload.value] else [], None)
  }

  /** Whether a path names a fragment file: its file name, the text after
      the last `/`, has the extension `frag`. A hidden `.frag` has no
      extension and is not one. */
  predicate IsFragmentPath(path: string) {
    HasExtension(LastComponent(path), "frag")
  }

  /** Whether an entry is a fragment file. */
  predicate IsFragment(x: Result<DirEntry, string>) {
    x.Success? && IsFragmentPath(x.value.path)
  }

  /** The number of `.frag` entries among `entries`. */
  function CountFragments(entries: seq<Result<DirEntry, string>>): nat {
    if entries == [] then 0
    else (if IsFragment(entries[0]) then 1 else 0) + CountFragments(entries[1..])
  }

  /** What one entry of the listing does: an unreadable entry is the error, a
      fragment is processed, anything else is passed over. */
  function Step(x: Result<DirEntry, string>, io: Io, ctx: RenderContext,
                parse: string -> Result<Fragment, string>): SyncRun
  {
    match x
    case Failure(err) => SyncRun([], [], Some(err))
    case Success(e) =>
      if IsFragmentPath(e.path) then ProcessFragment(e, io, ctx, parse) else SyncRun([], [], None)
  }

  /** A step fails only on an unreadable entry or a fragment, starts at
      most one hook and only for a fragment, and does nothing otherwise. */
  lemma StepBounds(x: Result<DirEntry, string>, io: Io, ctx: RenderContext,
                   parse: string -> Result<Fragment, string>)
    ensures Step(x, io, ctx, parse).error.None? ==> x.Success?
    ensures |Step(x, io, ctx, parse).hooks| <= (if IsFragment(x) then 1 else 0)
    ensures x.Success? && !IsFragment(x) ==> Step(x, io, ctx, parse) == SyncRun([], [], None)
  {
  }

  /** The loop of `sync_fragments`: entries in listing order, each one's step
      run in turn until one fails. */
  function SyncEntries(entries: seq<Result<DirEntry, string>>, io: Io, ctx: RenderContext,
                       parse: string -> Result<Fragment, string>): (r: SyncRun)
    ensures r.error.None? ==> forall i :: 0 <= i < |entries| ==> entries[i].Success?
    ensures r.error.None? ==> |r.hooks| <= CountFragments(entries)
    ensures CountFragments(entries) == 0 && (forall i :: 0 <= i < |entries| ==> entries[i].Success?) ==>
              r == SyncRun([], [], None)
    decreases |entries|
  {
    if entries == [] then SyncRun([], [], None)
    else
      var here := Step(entries[0], io, ctx, parse);
      StepBounds(entries[0], io, ctx, parse);
      var rest := SyncEntries(entries[1..], io, ctx, parse);
      assert forall i :: 1 <= i < |entries| ==> entries[i] == entries[1..][i - 1];
      here.Then(rest)
  }

  /** The sync fails exactly when some entry's step fails, and then with the
      error of the first such entry: no entry after it is looked at. */
  lemma SyncEntriesStops(entries: seq<Result<DirEntry, string>>, io: Io, ctx: RenderContext,
                         parse: string -> Result<Fragment, string>)
    ensures var r := SyncEntries(entries, io, ctx, parse);
            r.error.None? <==> forall i :: 0 <= i < |entries| ==> Step(entries[i], io, ctx, parse).error.None?
    ensures var r := SyncEntries(entries, io, ctx, parse);
            r.error.Some? ==>
              exists k :: 0 <= k < |entries| && Step(entries[k], io, ctx, parse).error == r.error
                          && forall i :: 0 <= i < k ==> Step(entries[i], io, ctx, parse).error.None?
  {
    var runs := Steps(entries, io, ctx, parse);
    SyncEntriesIsFold(entries, io, ctx, parse);
    FoldSucceeds(runs);
    if Fold(runs).error.Some? {
      var k := FoldFirstError(runs);
      assert runs[k] == Step(entries[k], io, ctx, parse);
    }
  }

  /** The runs of the steps over `entries`, one per entry. */
  function Steps(entries: seq<Result<DirEntry, string>>, io: Io, ctx: RenderContext,
                 parse: string -> Result<Fragment, string>): (r: seq<SyncRun>)
    ensures |r| == |entries| && forall i :: 0 <= i < |entries| ==> r[i] == Step(entries[i], io, ctx, parse)
  {
    seq(|entries|, i requires 0 <= i < |entries| => Step(entries[i], io, ctx, parse))
  }

  /** Runs chained one after the other under `Then`. */
  function Fold(runs: seq<SyncRun>): SyncRun
    decreases |runs|
  {
    if runs == [] then SyncRun([], [], None) else runs[0].Then(Fold(runs[1..]))
  }

  lemma {:induction false} SyncEntriesIsFold(entries: seq<Result<DirEntry, string>>, io: Io, ctx: RenderContext,
                                            parse: string -> Result<Fragment, string>)
    ensures SyncEntries(entries, io, ctx, parse) == Fold(Steps(entries, io, ctx, parse))
    decreases |entries|
  {
    if entries != [] {
      SyncEntriesIsFold(entries[1..], io, ctx, parse);
      assert Steps(entries, io, ctx, parse)[1..] == Steps(entries[1..], io, ctx, parse);
    }
  }

  /** A chain fails iff one of its runs does. */
  lemma {:induction false} FoldSucceeds(runs: seq<SyncRun>)
    ensures Fold(runs).error.None? <==> forall i :: 0 <= i < |runs| ==> runs[i].error.None?
    decreases |runs|
  {
    if runs != [] {
      FoldSucceeds(runs[1..]);
      assert forall i :: 1 <= i < |runs| ==> runs[i] == runs[1..][i - 1];
    }
  }

  /** The run at which a failed chain stopped: it failed with the chain's
      error, and every run before it succeeded. */
  lemma {:induction false} FoldFirstError(runs: seq<SyncRun>) returns (k: nat)
    requires Fold(runs).error.Some?
    ensures k < |runs| && runs[k].error == Fold(runs).error
    ensures forall i :: 0 <= i < k ==> runs[i].error.None?
    decreases |runs|
  {
    if runs[0].error.Some? {
      k := 0;
    } else {
      var j := FoldFirstError(runs[1..]);
      k := j + 1;
      assert forall i :: 1 <= i < k ==> runs[i] == runs[1..][i - 1];
    }
  }

  /** The sync of a listing is the sync of any split of it, the second part
      reached only when the first went through: fragments are processed in
      listing order and the first failure ends the sync. */
  lemma {:induction false} SyncEntriesAppend(a: seq<Result<DirEntry, string>>, b: seq<Result<DirEntry, string>>,
                                            io: Io, ctx: RenderContext, parse: string -> Result<Fragment, string>)
    ensures SyncEntries(a + b, io, ctx, parse) == SyncEntries(a, io, ctx, parse).Then(SyncEntries(b, io, ctx, parse))
    decreases |a|
  {
    var y := SyncEntries(b, io, ctx, parse);
    if a == [] {
      assert a + b == b;
      assert [] + y.written == y.written && [] + y.hooks == y.hooks;
    } else {
      assert (a + b)[0] == a[0] && (a + b)[1..] == a[1..] + b;
      SyncEntriesAppend(a[1..], b, io, ctx, parse);
      ThenAssociates(Step(a[0], io, ctx, parse), SyncEntries(a[1..], io, ctx, parse), y);
    }
  }

  /** Running three steps in sequence does not depend on how they are grouped. */
  lemma ThenAssociates(x: SyncRun, y: SyncRun, z: SyncRun)
    ensures x.Then(y).Then(z) == x.Then(y.Then(z))
  {
    if x.error.None? && y.error.None? {
      assert (x.written + y.written) + z.written == x.written + (y.written + z.written);
      assert (x.hooks + y.hooks) + z.hooks == x.hooks + (y.hooks + z.hooks);
    }
  }

  /** A listing of one entry does exactly that entry's step. */
  lemma SyncEntriesOne(x: Result<DirEntry, string>, io: Io, ctx: RenderContext,
                       parse: string -> Result<Fragment, string>)
    ensures SyncEntries([x], io, ctx, parse) == Step(x, io, ctx, parse)
    ensures IsFragment(x) ==> SyncEntries([x], io, ctx, parse) == ProcessFragment(x.value, io, ctx, parse)
    ensures x.Success? && !IsFragment(x) ==> SyncEntries([x], io, ctx, parse) == SyncRun([], [], None)
  {
    var s := Step(x, io, ctx, parse);
    assert [x][1..] == [];
    assert s.written + [] == s.written && s.hooks + [] == s.hooks;
  }

  /** A hidden file named `.frag` has no extension, so it is passed over
      whatever it holds, and `name.frag` is processed. */
  lemma HiddenFragmentSkipped(dir: string, name: string, content: Result<string, string>, io: Io,
                              ctx: RenderContext, parse: string -> Result<Fragment, string>)
    requires '/' !in name && |name| > 0
    ensures Step(Success(DirEntry(dir + "/.frag", content)), io, ctx, parse) == SyncRun([], [], None)
    ensures var e := DirEntry(dir + "/" + name + ".frag", content);
            Step(Success(e), io, ctx, parse) == ProcessFragment(e, io, ctx, parse)
  {
    HiddenNotFragment(dir);
    NamedFragment(dir, name);
  }

  lemma HiddenNotFragment(dir: string)
    ensures !IsFragmentPath(dir + "/.frag")
  {
    assert dir + "/.frag" == dir + "/" + ".frag";
    LastComponentOfJoin(dir, ".frag");
  }

  lemma NamedFragment(dir: string, name: string)
    requires '/' !in name && |name| > 0
    ensures IsFragmentPath(dir + "/" + name + ".frag")
  {
    var file := name + ".frag";
    NoSlashFrag(name);
    LastComponentOfJoin(dir, file);
    assert dir + "/" + name + ".frag" == dir + "/" + file;
    FragExtension(name);
  }

  lemma NoSlashFrag(name: string)
    requires '/' !in name
    ensures '/' !in name + ".frag"
  {
    var file := name + ".frag";
    assert forall i :: 0 <= i < |file| ==> file[i] == (if i < |name| then name[i] else ".frag"[i - |name|]);
  }

  lemma FragExtension(name: string)
    requires |name| > 0
    ensures HasExtension(name + ".frag", "frag")
  {
    var file := name + ".frag";
    assert "." + "frag" == ".frag";
    assert file[|file| - 5..] == ".frag";
  }

  /** `sync_fragments`: the configuration is loaded first, then the context
      built with the active icon set; a missing fragments directory is a
      successful sync that does nothing. */
  function SyncFragments(cfg: Result<Config, string>, dir: FragmentsDir, io: Io,
                         parse: string -> Result<Fragment, string>): (r: SyncRun)
    ensures cfg.Failure? ==> r == SyncRun([], [], Some(ConfigError))
    ensures cfg.Success? && dir.Missing? ==> r == SyncRun([], [], None)
    ensures cfg.Success? && dir.Unreadable? ==> r == SyncRun([], [], Some(dir.reason))
    ensures cfg.Success? && dir.Listing? ==> r == SyncEntries(dir.entries, io, MakeContext(cfg.value), parse)
  {
    match cfg
    case Failure(_) => SyncRun([], [], Some(ConfigError))
    case Success(c) =>
      match dir
      case Missing => SyncRun([], [], None)
      case Unreadable(e) => SyncRun([], [], Some(e))
      case Listing(entries) => SyncEntries(entries, io, MakeContext(c), parse)
  }

  /** `pack`: the output path given, else the input directory's name with
      `.fpkg`. */
  function PackOutput(input: string, output: Option<string>): (r: string)
    ensures output.Some? ==> r == output.value
    ensures output.None? ==> EndsWith(r, ".fpkg")
  {
    output.GetOr(DefaultArchiveName(input, "fpkg"))
  }

  /** Packing `dir/name` without an output writes `name.fpkg`. */
  lemma PackOutputOfDir(dir: string, name: string)
    requires IsNormal(name)
    ensures PackOutput(dir + "/" + name, None) == name + ".fpkg"
    ensures HasExtension(PackOutput(dir + "/" + name, None), "fpkg")
  {
    DefaultArchiveNameOfDir(dir, name, "fpkg");
  }
}
