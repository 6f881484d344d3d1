/** The `corelog` tool of `crates/corelog/src/main.rs`: look a preset up,
    print its line to the terminal in the level's colour and, when the
    configuration says so, append it to a dated log file. The configuration,
    the date parts of the clock, the home directory and the filesystem are
    parameters. The tool reads `core_lib::config::HyprConfig` and uses
    `core_lib::factory`; `crates/core_lib` is not part of this model, so the
    configuration and colour resolution of `ConfigCache` and `Factory`, which
    have the same fields and behaviour for the parts used here, stand in for
    them. */
module CoreLog {
  import opened Wrappers
  import opened Text
  import opened Paths
  import opened ConfigCache
  import Hex
  import Factory
  import Processor

  const ConfigError := "Failed to load Hyprcore config"
  const ScopeError := "Preset missing 'scope' field"
  const HomeError := "Could not find home dir"
  const White := "#ffffff"

  function PresetError(key: string): string {
    "Preset '" + key + "' not found in dictionary.toml"
  }

  // ---------------------------------------------------------------------
  // Placeholder substitution
  // ---------------------------------------------------------------------

  /** A placeholder and the text that replaces it. */
  datatype Sub = Sub(pattern: string, value: string)

  predicate Patterns(subs: seq<Sub>) {
    forall i :: 0 <= i < |subs| ==> |subs[i].pattern| > 0
  }

  /** A chain of `String::replace` calls, applied in the order given: a
      value inserted by one step is seen by every later step. */
  function Fill(s: string, subs: seq<Sub>): string
    requires Patterns(subs)
    decreases |subs|
  {
    if subs == [] then s else Fill(Replace(s, subs[0].pattern, subs[0].value), subs[1..])
  }

  /** A text in which no placeholder occurs comes out unchanged. */
  lemma {:induction false} FillAbsent(s: string, subs: seq<Sub>)
    requires Patterns(subs)
    requires forall i :: 0 <= i < |subs| ==> !Occurs(s, subs[i].pattern)
    ensures Fill(s, subs) == s
    decreases |subs|
  {
    if subs != [] {
      ReplaceAbsent(s, subs[0].pattern, subs[0].value);
      FillAbsent(s, subs[1..]);
    }
  }

  /** A text that is exactly one placeholder, none of the earlier ones and
      none of the later ones occurring in its value, becomes that value. */
  lemma {:induction false} FillOne(subs: seq<Sub>, k: nat)
    requires Patterns(subs) && k < |subs|
    requires forall i :: 0 <= i < k ==> !Occurs(subs[k].pattern, subs[i].pattern)
    requires forall i :: k < i < |subs| ==> !Occurs(subs[k].value, subs[i].pattern)
    ensures Fill(subs[k].pattern, subs) == subs[k].value
    decreases k
  {
    var p := subs[k].pattern;
    if k == 0 {
      ReplaceWhole(p, subs[0].value);
      FillAbsent(subs[0].value, subs[1..]);
    } else {
      ReplaceAbsent(p, subs[0].pattern, subs[0].value);
      assert subs[1..][k - 1] == subs[k];
      FillOne(subs[1..], k - 1);
    }
  }

  /** A placeholder (text opening with `{`) can occur in a text with no
      `{` after its first character only at its start, so not at all when
      the two differ in their second character. */
  lemma PlaceholderAbsent(s: string, p: string)
    requires |p| > 1 && p[0] == '{' && (|s| < |p| || s[1] != p[1])
    requires forall j :: 0 < j < |s| ==> s[j] != '{'
    ensures !Occurs(s, p)
  {
    forall i: nat | i <= |s|
      ensures !OccursAt(s, p, i)
    {
      if i == 0 {
        assert s[i..] == s;
        if |p| <= |s| {
          assert s[..|p|][1] != p[1];
        }
      } else if i < |s| {
        assert s[i..][0] == s[i];
      }
    }
  }

  /** Text with no `{` holds no placeholder. */
  lemma NoBraceAbsent(s: string, p: string)
    requires |p| > 0 && p[0] == '{' && '{' !in s
    ensures !Occurs(s, p)
  {
    forall i: nat | i <= |s|
      ensures !OccursAt(s, p, i)
    {
      if i < |s| {
        assert s[i..][0] == s[i];
        assert s[i] in s;
      }
    }
  }

  // ---------------------------------------------------------------------
  // The terminal line
  // ---------------------------------------------------------------------

  /** The icon for a level from the active icon set (the `nerdfont` set
      exactly when the theme names it), or `?` when the set has none. */
  function Icon(cfg: Config, level: string): (r: string)
    ensures var icons := Processor.MakeContext(cfg).icons;
            r == (if level in icons then icons[level] else "?")
  {
    var icons := if cfg.theme.activeIcons == "nerdfont" then cfg.icons.nerdfont else cfg.icons.ascii;
    if level in icons then icons[level] else "?"
  }

  /** Theme colours are ASCII strings. */
  predicate AsciiColors(cfg: Config) {
    forall v :: v in cfg.theme.colors.Values ==> IsAscii(v)
  }

  /** The colour for a level: its own theme colour, else the theme's `fg`,
      else white. */
  function ColorHex(cfg: Config, level: string): (r: string)
    ensures level in cfg.theme.colors ==> r == cfg.theme.colors[level]
    ensures level !in cfg.theme.colors && "fg" in cfg.theme.colors ==> r == cfg.theme.colors["fg"]
    ensures r in cfg.theme.colors.Values || r == White
    ensures AsciiColors(cfg) ==> IsAscii(r)
  {
    if level in cfg.theme.colors then cfg.theme.colors[level]
    else if "fg" in cfg.theme.colors then cfg.theme.colors["fg"]
    else White
  }

  /** A theme without a colour for the level or for `fg` prints in white. */
  lemma ColorDefaultsToWhite(cfg: Config, level: string)
    requires level !in cfg.theme.colors && "fg" !in cfg.theme.colors
    ensures Factory.HexToColor(ColorHex(cfg, level)) == Factory.Color(255, 255, 255)
  {
    var white := Factory.Color(255, 255, 255);
    assert Factory.ToHex(white, 1) == White;
    Factory.HexToColorRoundTrip(white, 1);
  }

  function Tag(cfg: Config, level: string): string {
    Factory.CreateTag(cfg.layout.tag, cfg.layout.labels, level)
  }

  /** The substitutions of the terminal line, in order. */
  function TerminalSubs(icon: string, tag: string, scope: string, msg: string): (r: seq<Sub>)
    ensures Patterns(r)
  {
    [Sub("{icon}", icon), Sub("{tag}", tag), Sub("{scope}", scope), Sub("{msg}", msg)]
  }

  function TerminalLine(cfg: Config, level: string, scope: string, msg: string): string {
    Fill(cfg.layout.structure.terminal, TerminalSubs(Icon(cfg, level), Tag(cfg, level), scope, msg))
  }

  /** `{msg}` is the last terminal placeholder: it becomes the message
      whatever the message holds. */
  lemma MessageLast(icon: string, tag: string, scope: string, msg: string)
    ensures Fill("{msg}", TerminalSubs(icon, tag, scope, msg)) == msg
  {
    var subs := TerminalSubs(icon, tag, scope, msg);
    assert subs[3].pattern == "{msg}";
    PlaceholderAbsent("{msg}", "{icon}");
    PlaceholderAbsent("{msg}", "{tag}");
    PlaceholderAbsent("{msg}", "{scope}");
    FillOne(subs, 3);
  }

  /** The message is substituted last on the terminal, so a layout that is
      just `{msg}` prints the message exactly, whatever it contains. */
  lemma TerminalMessageVerbatim(cfg: Config, level: string, scope: string, msg: string)
    requires cfg.layout.structure.terminal == "{msg}"
    ensures TerminalLine(cfg, level, scope, msg) == msg
  {
    MessageLast(Icon(cfg, level), Tag(cfg, level), scope, msg);
  }

  /** A terminal layout without `{` is printed as it is. */
  lemma TerminalPlain(cfg: Config, level: string, scope: string, msg: string)
    requires '{' !in cfg.layout.structure.terminal
    ensures TerminalLine(cfg, level, scope, msg) == cfg.layout.structure.terminal
  {
    var s := cfg.layout.structure.terminal;
    var subs := TerminalSubs(Icon(cfg, level), Tag(cfg, level), scope, msg);
    forall i | 0 <= i < |subs|
      ensures !Occurs(s, subs[i].pattern)
    {
      NoBraceAbsent(s, subs[i].pattern);
    }
    FillAbsent(s, subs);
  }

  // ---------------------------------------------------------------------
  // The file line and its path
  // ---------------------------------------------------------------------

  /** The clock's reading, already formatted: the timestamp in the
      configured format and the year, month and day. */
  datatype Now = Now(timestamp: string, year: string, month: string, day: string)

  /** The substitutions of the file line, in order: the message goes in
      before the scope. */
  function FileSubs(timestamp: string, tag: string, scope: string, msg: string): (r: seq<Sub>)
    ensures Patterns(r)
  {
    [Sub("{timestamp}", timestamp), Sub("{tag}", tag), Sub("{msg}", msg), Sub("{scope}", scope)]
  }

  function FileLine(cfg: Config, level: string, scope: string, msg: string, now: Now): string {
    Fill(cfg.layout.structure.file, FileSubs(now.timestamp, Tag(cfg, level), scope, msg))
  }

  /** A message reading `{scope}` in a `{msg}` file layout is rewritten by
      the later scope substitution. */
  lemma ScopeInMessage(timestamp: string, tag: string, scope: string)
    ensures Fill("{msg}", FileSubs(timestamp, tag, scope, "{scope}")) == scope
  {
    var subs := FileSubs(timestamp, tag, scope, "{scope}");
    PlaceholderAbsent("{msg}", "{timestamp}");
    PlaceholderAbsent("{msg}", "{tag}");
    ReplaceAbsent("{msg}", "{timestamp}", timestamp);
    ReplaceAbsent("{msg}", "{tag}", tag);
    ReplaceWhole("{msg}", "{scope}");
    ReplaceWhole("{scope}", scope);
    assert subs[1..][1..] == subs[2..] && subs[2..][1..] == subs[3..] && subs[3..][1..] == [];
    assert Fill("{msg}", subs) == Fill("{msg}", subs[2..]);
    assert Fill("{msg}", subs[2..]) == Fill("{scope}", subs[3..]);
    assert subs[3..][0] == Sub("{scope}", scope);
    assert Fill("{scope}", subs[3..]) == Fill(scope, []);
  }

  /** Because the scope is substituted after the message, a `{scope}`
      written in a message reaches the log file as the scope itself, while
      the terminal shows it as written. */
  lemma FileLineRewritesMessage(cfg: Config, level: string, scope: string, now: Now)
    requires cfg.layout.structure.file == "{msg}" && cfg.layout.structure.terminal == "{msg}"
    ensures FileLine(cfg, level, scope, "{scope}", now) == scope
    ensures TerminalLine(cfg, level, scope, "{scope}") == "{scope}"
  {
    ScopeInMessage(now.timestamp, Tag(cfg, level), scope);
    TerminalMessageVerbatim(cfg, level, scope, "{scope}");
  }

  /** The base directory: one starting with `~` has every `~` replaced by
      the home directory, which must be known; it is expanded exactly as
      template targets are, with its own error message. */
  function BaseDir(baseDir: string, home: Option<string>): (r: Result<string, string>)
    ensures r.Success? <==> Processor.ExpandTarget(baseDir, home).Success?
    ensures r.Success? ==> r.value == Processor.ExpandTarget(baseDir, home).value
    ensures r.Failure? ==> r.error == HomeError
  {
    match Paths.ExpandHome(baseDir, home)
    case None => Failure(HomeError)
    case Some(dir) => Success(dir)
  }

  function RelPath(cfg: Config, scope: string, now: Now): string {
    Fill(cfg.layout.logging.pathStructure,
         [Sub("{year}", now.year), Sub("{month}", now.month), Sub("{scope}", scope)])
  }

  function LogFileName(cfg: Config, level: string, now: Now): string {
    Fill(cfg.layout.logging.filenameStructure,
         [Sub("{level}", level), Sub("{year}", now.year), Sub("{month}", now.month), Sub("{day}", now.day)])
  }

  /** A path layout of one placeholder gives that value; in particular
      `{scope}` files each scope in its own directory and `{level}` names a
      file after the level. */
  lemma PathPlaceholders(cfg: Config, level: string, scope: string, now: Now)
    ensures cfg.layout.logging.pathStructure == "{scope}" ==> RelPath(cfg, scope, now) == scope
    ensures cfg.layout.logging.filenameStructure == "{level}" && '{' !in level ==>
              LogFileName(cfg, level, now) == level
  {
    if cfg.layout.logging.pathStructure == "{scope}" {
      var subs := [Sub("{year}", now.year), Sub("{month}", now.month), Sub("{scope}", scope)];
      PlaceholderAbsent("{scope}", "{year}");
      PlaceholderAbsent("{scope}", "{month}");
      FillOne(subs, 2);
    }
    if cfg.layout.logging.filenameStructure == "{level}" && '{' !in level {
      var subs := [Sub("{level}", level), Sub("{year}", now.year), Sub("{month}", now.month), Sub("{day}", now.day)];
      forall i | 0 < i < |subs|
        ensures !Occurs(level, subs[i].pattern)
      {
        NoBraceAbsent(level, subs[i].pattern);
      }
      FillOne(subs, 0);
    }
  }

  /** The filesystem `log_to_file` uses: the home directory, creating a
      directory with its parents, and appending to a file (created if
      missing). Each step answers with its error, if any. */
  datatype LogIo = LogIo(home: Option<string>,
                         createDirAll: string -> Option<string>,
                         append: (string, string) -> Option<string>)

  /** A line appended to a log file. */
  datatype Appended = Appended(path: string, text: string)

  /** `log_to_file`: the line is built, then the base directory expanded,
      the dated directory created and the line appended to the file. */
  function LogToFile(cfg: Config, level: string, scope: string, msg: string, now: Now, io: LogIo): (r: Result<Appended, string>)
    ensures BaseDir(cfg.layout.logging.baseDir, io.home).Failure? ==> r == Failure(HomeError)
    ensures BaseDir(cfg.layout.logging.baseDir, io.home).Success? ==>
              var dir := Join(BaseDir(cfg.layout.logging.baseDir, io.home).value, RelPath(cfg, scope, now));
              var path := Join(dir, LogFileName(cfg, level, now));
              var text := FileLine(cfg, level, scope, msg, now) + "\n";
              && (io.createDirAll(dir).Some? ==> r == Failure(io.createDirAll(dir).value))
              && (io.createDirAll(dir).None? && io.append(path, text).Some? ==> r == Failure(io.append(path, text).value))
              && (io.createDirAll(dir).None? && io.append(path, text).None? ==> r == Success(Appended(path, text)))
    ensures r.Success? ==>
              var dir := Join(BaseDir(cfg.layout.logging.baseDir, io.home).value, RelPath(cfg, scope, now));
              && io.createDirAll(dir).None?
              && r.value == Appended(Join(dir, LogFileName(cfg, level, now)), FileLine(cfg, level, scope, msg, now) + "\n")
              && io.append(r.value.path, r.value.text).None?
  {
    var content := FileLine(cfg, level, scope, msg, now);
    match BaseDir(cfg.layout.logging.baseDir, io.home)
    case Failure(e) => Failure(e)
    case Success(base) =>
      var dir := Join(base, RelPath(cfg, scope, now));
      if io.createDirAll(dir).Some? then Failure(io.createDirAll(dir).value)
      else
        var path := Join(dir, LogFileName(cfg, level, now));
        var text := content + "\n";
        if io.append(path, text).Some? then Failure(io.append(path, text).value)
        else Success(Appended(path, text))
  }

  // ---------------------------------------------------------------------
  // The tool
  // ---------------------------------------------------------------------

  /** A line printed to the terminal and its colour. */
  datatype Printed = Printed(line: string, color: Factory.Color)

  /** What one run did: the terminal line, the file line, and the error it
      ended with, if any. */
  datatype Run = Run(printed: Option<Printed>, appended: Option<Appended>, error: Option<string>)

  /** `main`: load the configuration, find the preset and its scope, print,
      then write to the file when `write_by_default` is set. */
  function Corelog(cfg: Result<Config, string>, key: string, now: Now, io: LogIo): (r: Run)
    requires cfg.Success? ==> AsciiColors(cfg.value)
    ensures cfg.Failure? ==> r == Run(None, None, Some(ConfigError))
    ensures cfg.Success? && key !in cfg.value.presets ==> r == Run(None, None, Some(PresetError(key)))
    ensures cfg.Success? && key in cfg.value.presets && cfg.value.presets[key].scope.None? ==>
              r == Run(None, None, Some(ScopeError))
    ensures r.printed.Some? <==> cfg.Success? && key in cfg.value.presets && cfg.value.presets[key].scope.Some?
    ensures r.printed.Some? ==>
              var p := cfg.value.presets[key];
              r.printed.value.line == TerminalLine(cfg.value, p.level, p.scope.value, p.msg)
              && r.printed.value.color == Factory.HexToColor(ColorHex(cfg.value, p.level))
    ensures r.appended.Some? ==> r.printed.Some? && cfg.value.layout.logging.writeByDefault && r.error.None?
    ensures r.printed.Some? && !cfg.value.layout.logging.writeByDefault ==> r.appended.None? && r.error.None?
    ensures r.printed.Some? && cfg.value.layout.logging.writeByDefault ==>
              var p := cfg.value.presets[key];
              var written := LogToFile(cfg.value, p.level, p.scope.value, p.msg, now, io);
              && (written.Success? ==> r.appended == Some(written.value) && r.error.None?)
              && (written.Failure? ==> r.appended.None? && r.error == Some(written.error))
  {
    match cfg
    case Failure(_) => Run(None, None, Some(ConfigError))
    case Success(c) =>
      if key !in c.presets then Run(None, None, Some(PresetError(key)))
      else
        var p := c.presets[key];
        match p.scope
        case None => Run(None, None, Some(ScopeError))
        case Some(scope) =>
          var printed := Printed(TerminalLine(c, p.level, scope, p.msg), Factory.HexToColor(ColorHex(c, p.level)));
          if !c.layout.logging.writeByDefault then Run(Some(printed), None, None)
          else
            match LogToFile(c, p.level, scope, p.msg, now, io)
            case Failure(e) => Run(Some(printed), None, Some(e))
            case Success(a) => Run(Some(printed), Some(a), None)
  }

  /** With a loadable configuration, a preset that has a scope,
      `write_by_default` set, a resolvable base directory and a filesystem
      that accepts every write, the run prints its line and appends the file
      line, with a newline, to the dated file under the base directory. */
  lemma WritesWhenFilesystemAccepts(cfg: Config, key: string, now: Now, io: LogIo)
    requires AsciiColors(cfg)
    requires key in cfg.presets && cfg.presets[key].scope.Some? && cfg.layout.logging.writeByDefault
    requires BaseDir(cfg.layout.logging.baseDir, io.home).Success?
    requires forall d :: io.createDirAll(d).None?
    requires forall f, t :: io.append(f, t).None?
    ensures var p := cfg.presets[key];
            var dir := Join(BaseDir(cfg.layout.logging.baseDir, io.home).value, RelPath(cfg, p.scope.value, now));
            var run := Corelog(Success(cfg), key, now, io);
            && run.printed.Some? && run.error.None?
            && run.appended == Some(Appended(Join(dir, LogFileName(cfg, p.level, now)),
                                             FileLine(cfg, p.level, p.scope.value, p.msg, now) + "\n"))
  {
    var p := cfg.presets[key];
    var dir := Join(BaseDir(cfg.layout.logging.baseDir, io.home).value, RelPath(cfg, p.scope.value, now));
    var path := Join(dir, LogFileName(cfg, p.level, now));
    var text := FileLine(cfg, p.level, p.scope.value, p.msg, now) + "\n";
    assert io.createDirAll(dir).None? && io.append(path, text).None?;
  }
}
