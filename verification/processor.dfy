/** `crates/hi_core/src/processor.rs`: applying one template. Every target,
    then every file, is rendered and written; the first failure stops the
    template before its reload hook. The home directory, the filesystem, the
    template renderer and the shell are parameters (`Io`). */
module Processor {
  import opened Wrappers
  import Paths
  import opened Text
  import opened Hex
  import opened Templates
  import opened ConfigCache
  import Factory

  /** What templates are rendered against: colours, fonts and the active
      icon set. */
  datatype RenderContext = RenderContext(colors: map<string, string>, fonts: map<string, string>,
                                         icons: map<string, string>)

  /** The context `apply` builds: the `nerdfont` icons exactly when the theme
      names them, the `ascii` icons for any other name. */
  function MakeContext(cfg: Config): (ctx: RenderContext)
    ensures ctx.colors == cfg.theme.colors && ctx.fonts == cfg.theme.fonts
    ensures cfg.theme.activeIcons == "nerdfont" ==> ctx.icons == cfg.icons.nerdfont
    ensures cfg.theme.activeIcons != "nerdfont" ==> ctx.icons == cfg.icons.ascii
  {
    RenderContext(cfg.theme.colors, cfg.theme.fonts,
                  if cfg.theme.activeIcons == "nerdfont" then cfg.icons.nerdfont else cfg.icons.ascii)
  }

  /** The icon set that is not active never reaches a template. */
  lemma InactiveIconsIrrelevant(cfg: Config, other: map<string, string>)
    ensures cfg.theme.activeIcons == "nerdfont" ==>
              MakeContext(cfg) == MakeContext(cfg.(icons := cfg.icons.(ascii := other)))
    ensures cfg.theme.activeIcons != "nerdfont" ==>
              MakeContext(cfg) == MakeContext(cfg.(icons := cfg.icons.(nerdfont := other)))
  {
  }

  /** The `hex_to_rgb` template filter: leading `#`s are dropped, exactly six
      characters must remain and every pair must parse. */
  function HexToRgb(s: string): (r: Result<seq<u8>, string>)
    requires IsAscii(s)
    ensures |TrimStartChar(s, '#')| != 6 ==> r == Failure("Invalid hex color: " + s)
    ensures var h := TrimStartChar(s, '#');
            r.Success? <==> |h| == 6 && ParseByte(h[0..2]).Some? && ParseByte(h[2..4]).Some? && ParseByte(h[4..6]).Some?
    ensures |TrimStartChar(s, '#')| == 6 && r.Failure? ==> r.error == "Invalid hex"
    ensures r.Success? ==> |r.value| == 3
  {
    var h := TrimStartChar(s, '#');
    if |h| != 6 then Failure("Invalid hex color: " + s)
    else match (ParseByte(h[0..2]), ParseByte(h[2..4]), ParseByte(h[4..6]))
      case (Some(r), Some(g), Some(b)) => Success([r, g, b])
      case _ => Failure("Invalid hex")
  }

  /** The filter and the tag colour resolver agree wherever the filter
      succeeds; where it fails on six characters, the resolver has fallen
      back to 255 for some component. */
  lemma HexToRgbAgreesWithColor(s: string)
    requires IsAscii(s)
    ensures HexToRgb(s).Success? ==>
              var c := Factory.HexToColor(s);
              HexToRgb(s).value == [c.r, c.g, c.b]
    ensures HexToRgb(s).Failure? && |TrimStartChar(s, '#')| == 6 ==>
              var c := Factory.HexToColor(s);
              c.r == 255 || c.g == 255 || c.b == 255
  {
  }

  /** `#rrggbb` of any colour is accepted and read back. */
  lemma HexToRgbRoundTrip(c: Factory.Color, k: nat)
    ensures HexToRgb(Factory.ToHex(c, k)) == Success([c.r, c.g, c.b])
  {
    var h := Hex2(c.r) + Hex2(c.g) + Hex2(c.b);
    assert Factory.ToHex(c, k) == Repeat('#', k) + h;
    TrimStartCharPrefix('#', k, h);
    Factory.Pairs(Hex2(c.r), Hex2(c.g), Hex2(c.b));
    ParseHex2(c.r);
    ParseHex2(c.g);
    ParseHex2(c.b);
  }

  const HomeError := "Could not determine home directory"
  const RenderError := "Failed to render template"
  const SpawnError := "Failed to execute hook"

  /** Target expansion in `render_and_write`: a target that starts with `~`
      has every `~` in it (not only the first) replaced by the home
      directory, which must then be known; other targets are kept. */
  function ExpandTarget(target: string, home: Option<string>): (r: Result<string, string>)
    ensures !StartsWith(target, "~") ==> r == Success(target)
    ensures StartsWith(target, "~") && home.None? ==> r == Failure(HomeError)
    ensures StartsWith(target, "~") && home.Some? ==> r == Success(SubstChar(target, '~', home.value))
  {
    match Paths.ExpandHome(target, home)
    case None => Failure(HomeError)
    case Some(path) => Success(path)
  }

  /** After expansion with a home directory free of `~`, no `~` is left. */
  lemma ExpandTargetRemovesTilde(target: string, home: string)
    requires '~' !in home
    requires StartsWith(target, "~")
    ensures ExpandTarget(target, Some(home)).Success?
    ensures '~' !in ExpandTarget(target, Some(home)).value
  {
    SubstCharRemoves(target, '~', home);
  }

  /** The outside world rendering sees: the home directory, creating a
      file's parent directory, rendering, and writing a file. Each I/O step
      answers with its error, if any. */
  datatype Io = Io(home: Option<string>,
                   mkdirParent: string -> Option<string>,
                   render: (string, RenderContext) -> Result<string, string>,
                   write: (string, string) -> Option<string>)

  /** How a reload hook run ends: it could not be started, or it exited. */
  datatype HookOutcome = SpawnFailed | Exited(success: bool)

  datatype Written = Written(path: string, text: string)

  /** `render_and_write`: expand the target, create its parent, render, write. */
  function RenderAndWrite(t: Target, io: Io, ctx: RenderContext): (r: Result<Written, string>)
    ensures r.Success? <==>
              ExpandTarget(t.target, io.home).Success?
              && io.mkdirParent(ExpandTarget(t.target, io.home).value).None?
              && io.render(t.content, ctx).Success?
              && io.write(ExpandTarget(t.target, io.home).value, io.render(t.content, ctx).value).None?
    ensures r.Success? ==> r.value == Written(ExpandTarget(t.target, io.home).value, io.render(t.content, ctx).value)
  {
    var path :- ExpandTarget(t.target, io.home);
    if io.mkdirParent(path).Some? then Failure(io.mkdirParent(path).value)
    else match io.render(t.content, ctx)
      case Failure(_) => Failure(RenderError)
      case Success(text) =>
        if io.write(path, text).Some? then Failure(io.write(path, text).value)
        else Success(Written(path, text))
  }

  /** What a run over a list of entries did: the files written, in order,
      and the error that stopped it, if one did. */
  datatype Rendered = Rendered(written: seq<Written>, error: Option<string>)

  /** Render and write `entries` in order with `step`, stopping at the first
      failure: everything before the failing entry is written, nothing after
      it is attempted. */
  function RenderAll(entries: seq<Target>, step: Target -> Result<Written, string>): (r: Rendered)
    ensures |r.written| <= |entries|
    ensures forall i :: 0 <= i < |r.written| ==> step(entries[i]) == Success(r.written[i])
    ensures r.error.None? <==> |r.written| == |entries|
    ensures r.error.Some? ==> step(entries[|r.written|]) == Failure(r.error.value)
    decreases |entries|
  {
    if entries == [] then Rendered([], None)
    else match step(entries[0])
      case Failure(e) => Rendered([], Some(e))
      case Success(w) =>
        var rest := RenderAll(entries[1..], step);
        Rendered([w] + rest.written, rest.error)
  }

  /** Running the reload hook, if there is one: no hook is success, a hook
      that exits non-zero is a reported failure (`Ok(false)`), and one that
      cannot be started is an error. */
  function RunHook(hooks: Hooks, shell: string -> HookOutcome): (r: Result<bool, string>)
    ensures hooks.reload.None? ==> r == Success(true)
    ensures hooks.reload.Some? && shell(hooks.reload.value).Exited? ==>
              r == Success(shell(hooks.reload.value).success)
    ensures hooks.reload.Some? && shell(hooks.reload.value).SpawnFailed? ==> r == Failure(SpawnError)
  {
    match hooks.reload
    case None => Success(true)
    case Some(cmd) =>
      match shell(cmd)
      case SpawnFailed => Failure(SpawnError)
      case Exited(ok) => Success(ok)
  }

  /** What applying one template did: the files written, whether the hook
      was started, and the result `apply` returns. */
  datatype ApplyRun = ApplyRun(written: seq<Written>, hookRan: bool, result: Result<bool, string>)

  /** `apply` and `process_template`. The `force` flag is accepted and
      ignored. */
  function Apply(t: Template, cfg: Config, force: bool, io: Io, shell: string -> HookOutcome): (r: ApplyRun)
    ensures |r.written| <= |t.targets| + |t.files|
    ensures r.hookRan <==> t.hooks.reload.Some? && |r.written| == |t.targets| + |t.files|
    ensures |r.written| == |t.targets| + |t.files| ==> r.result == RunHook(t.hooks, shell)
    ensures |r.written| < |t.targets| + |t.files| ==>
              r.result.Failure?
              && RenderAndWrite((t.targets + t.files)[|r.written|], io, MakeContext(cfg)) == Failure(r.result.error)
    ensures forall i :: 0 <= i < |r.written| ==>
              RenderAndWrite((t.targets + t.files)[i], io, MakeContext(cfg)) == Success(r.written[i])
    ensures r.result.Success? ==> |r.written| == |t.targets| + |t.files|
  {
    var step := (e: Target) => RenderAndWrite(e, io, MakeContext(cfg));
    var a := RenderAll(t.targets, step);
    if a.error.Some? then ApplyRun(a.written, false, Failure(a.error.value))
    else
      var b := RenderAll(t.files, step);
      assert forall i :: |t.targets| <= i < |t.targets| + |t.files| ==>
               (t.targets + t.files)[i] == t.files[i - |t.targets|];
      if b.error.Some? then ApplyRun(a.written + b.written, false, Failure(b.error.value))
      else ApplyRun(a.written + b.written, t.hooks.reload.Some?, RunHook(t.hooks, shell))
  }

  /** When every target and file renders and writes, all of them are
      written, in order, and the hook decides the result. */
  lemma ApplyWritesAll(t: Template, cfg: Config, force: bool, io: Io, shell: string -> HookOutcome)
    requires forall e :: e in t.targets + t.files ==> RenderAndWrite(e, io, MakeContext(cfg)).Success?
    ensures var r := Apply(t, cfg, force, io, shell);
            && |r.written| == |t.targets| + |t.files|
            && (forall i :: 0 <= i < |r.written| ==>
                  r.written[i] == RenderAndWrite((t.targets + t.files)[i], io, MakeContext(cfg)).value)
            && r.hookRan == t.hooks.reload.Some?
            && r.result == RunHook(t.hooks, shell)
  {
  }

  /** The `force` argument changes nothing. */
  lemma ApplyIgnoresForce(t: Template, cfg: Config, io: Io, shell: string -> HookOutcome)
    ensures Apply(t, cfg, true, io, shell) == Apply(t, cfg, false, io, shell)
  {
  }

  /** With nothing to write, the hook decides the result alone: `Ok(true)`
      without a hook, `Ok(false)` for a hook that exits non-zero, as the
      processor tests expect. */
  lemma HookOnlyTemplates(m: Manifest, cfg: Config, io: Io, shell: string -> HookOutcome, cmd: string)
    ensures Apply(Template(m, [], [], Hooks(None)), cfg, false, io, shell).result == Success(true)
    ensures shell(cmd) == Exited(false) ==>
              Apply(Template(m, [], [], Hooks(Some(cmd))), cfg, false, io, shell).result == Success(false)
    ensures shell(cmd) == Exited(true) ==>
              Apply(Template(m, [], [], Hooks(Some(cmd))), cfg, false, io, shell).result == Success(true)
  {
  }
}
