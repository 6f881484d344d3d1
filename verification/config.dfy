/** The configuration of `crates/hi_core/src/config.rs` and the decision
    `load_with_cache` makes between the binary cache and the source file.
    The filesystem is a snapshot (`ConfigFs`) with modification times as
    integers; TOML parsing and the binary decoding are parameters. */
module ConfigCache {
  import opened Wrappers
  import opened Codec
  import opened Text
  import opened Paths

  datatype ThemeSection = ThemeSection(name: string, activeIcons: string,
                                       colors: map<string, string>, fonts: map<string, string>)

  datatype IconsSection = IconsSection(nerdfont: map<string, string>, ascii: map<string, string>)

  datatype TagConfig = TagConfig(prefix: string, suffix: string, transform: string,
                                 minWidth: nat, alignment: string)

  datatype StructureConfig = StructureConfig(terminal: string, file: string)

  datatype RetentionConfig = RetentionConfig(maxAgeDays: nat, maxTotalSize: Option<string>,
                                             compressAfterDays: Option<nat>)

  datatype LoggingConfig = LoggingConfig(baseDir: string, pathStructure: string,
                                         filenameStructure: string, timestampFormat: string,
                                         writeByDefault: bool, appName: string,
                                         retention: RetentionConfig)

  datatype LayoutSection = LayoutSection(tag: TagConfig, labels: map<string, string>,
                                         structure: StructureConfig, logging: LoggingConfig)

  /** A named log message; a preset without a scope is never printed. */
  datatype Preset = Preset(level: string, scope: Option<string>, msg: string)

  datatype Config = Config(theme: ThemeSection, icons: IconsSection,
                           layout: LayoutSection, presets: map<string, Preset>)

  datatype ConfigError =
    | ConfigDirNotFound
    | ConfigFileNotFound(path: string)
    | Io(reason: string)
    | Toml(reason: string)

  /** `RetentionConfig::default`: thirty days, no size limit, compression
      after a week. */
  function DefaultRetention(): (r: RetentionConfig)
    ensures r.maxAgeDays == 30
    ensures r.maxTotalSize.None?
    ensures r.compressAfterDays == Some(7)
  {
    RetentionConfig(30, None, Some(7))
  }

  /** The binary cache file. `mtime` fails when the metadata or the
      modification time cannot be read; `opens` is whether it opens. */
  datatype CacheFile = NoCache | Cache(mtime: Result<int, string>, opens: bool, bytes: seq<byte>)

  /** The source file `hyprink.conf`: its modification time and its text,
      each of which can fail to be read. */
  datatype ConfFile = NoConf | Conf(mtime: Result<int, string>, text: Result<string, string>)

  /** What the cache decision looks at. `exeMtime` is `None` when the
      executable's path, metadata or time cannot be read; `fragments` is
      `None` when `hyprink.d` is missing or unreadable, else one entry per
      directory entry, `None` for an entry whose time cannot be read. */
  datatype ConfigFs = ConfigFs(cache: CacheFile, exeMtime: Option<int>, conf: ConfFile,
                               fragments: Option<seq<Option<int>>>)

  /** Some readable `hyprink.d` entry is strictly newer than `t`. */
  function FragmentsNewer(entries: seq<Option<int>>, t: int): (r: bool)
    ensures r <==> exists i :: 0 <= i < |entries| && entries[i].Some? && entries[i].value > t
  {
    if entries == [] then false
    else if entries[0].Some? && entries[0].value > t then true
    else
      var rest := FragmentsNewer(entries[1..], t);
      assert forall i :: 1 <= i < |entries| ==> entries[i] == entries[1..][i - 1];
      assert rest ==> exists i :: 0 <= i < |entries| && entries[i].Some? && entries[i].value > t by {
        if rest {
          var j :| 0 <= j < |entries[1..]| && entries[1..][j].Some? && entries[1..][j].value > t;
          assert entries[j + 1] == entries[1..][j];
        }
      }
      rest
  }

  /** Every input whose time could be read is no newer than `t`. */
  ghost predicate NothingNewer(fs: ConfigFs, t: int) {
    && (fs.exeMtime.Some? ==> fs.exeMtime.value <= t)
    && (fs.conf.Conf? && fs.conf.mtime.Success? ==> fs.conf.mtime.value <= t)
    && (fs.fragments.Some? ==>
          forall i :: 0 <= i < |fs.fragments.value| && fs.fragments.value[i].Some? ==>
                        fs.fragments.value[i].value <= t)
  }

  /** `is_cache_fresh`: the executable, then the config file, then the
      fragments, each compared strictly against the cache's time. Stated
      independently of that order: the cache is fresh exactly when its time is
      readable, the config's time is readable if the config exists, and
      nothing is strictly newer; it is stale, not an error, whenever the
      executable is newer; the only errors are unreadable cache or config
      times. */
  function IsCacheFresh(fs: ConfigFs): (r: Result<bool, ConfigError>)
    ensures r == Success(true) <==>
              fs.cache.Cache? && fs.cache.mtime.Success?
              && (fs.conf.Conf? ==> fs.conf.mtime.Success?)
              && NothingNewer(fs, fs.cache.mtime.value)
    ensures (fs.cache.Cache? && fs.cache.mtime.Success? && fs.exeMtime.Some?
             && fs.exeMtime.value > fs.cache.mtime.value) ==> r == Success(false)
    ensures r.Failure? <==>
              fs.cache.NoCache? || fs.cache.mtime.Failure?
              || (!(fs.exeMtime.Some? && fs.exeMtime.value > fs.cache.mtime.value)
                  && fs.conf.Conf? && fs.conf.mtime.Failure?)
  {
    match fs.cache
    case NoCache => Failure(Io("cache file not found"))
    case Cache(Failure(e), _, _) => Failure(Io(e))
    case Cache(Success(t), _, _) =>
      if fs.exeMtime.Some? && fs.exeMtime.value > t then Success(false)
      else if fs.conf.Conf? && fs.conf.mtime.Failure? then Failure(Io(fs.conf.mtime.error))
      else if fs.conf.Conf? && fs.conf.mtime.value > t then Success(false)
      else if fs.fragments.Some? && FragmentsNewer(fs.fragments.value, t) then Success(false)
      else Success(true)
  }

  /** Equal times count as fresh: the comparisons are strict. */
  lemma EqualTimesAreFresh(t: int, opens: bool, bytes: seq<byte>, text: Result<string, string>, n: nat)
    ensures IsCacheFresh(ConfigFs(Cache(Success(t), opens, bytes), Some(t), Conf(Success(t), text),
                                  Some(seq(n, _ => Some(t))))) == Success(true)
  {
    var fs := ConfigFs(Cache(Success(t), opens, bytes), Some(t), Conf(Success(t), text), Some(seq(n, _ => Some(t))));
  }

  /** Touching the cache later never makes a fresh cache stale. */
  lemma FreshnessMonotone(fs: ConfigFs, t': int)
    requires fs.cache.Cache? && fs.cache.mtime.Success? && t' >= fs.cache.mtime.value
    requires IsCacheFresh(fs) == Success(true)
    ensures IsCacheFresh(fs.(cache := fs.cache.(mtime := Success(t')))) == Success(true)
  {
  }

  /** The fall-back path: read and parse `hyprink.conf`. */
  function LoadFromSource(confPath: string, conf: ConfFile, parse: string -> Result<Config, string>): (r: Result<Config, ConfigError>)
    ensures conf.NoConf? ==> r == Failure(ConfigFileNotFound(confPath))
    ensures conf.Conf? && conf.text.Failure? ==> r == Failure(Io(conf.text.error))
    ensures conf.Conf? && conf.text.Success? ==>
              (r.Success? <==> parse(conf.text.value).Success?)
              && (r.Success? ==> r.value == parse(conf.text.value).value)
              && (r.Failure? ==> r == Failure(Toml(parse(conf.text.value).error)))
  {
    match conf
    case NoConf => Failure(ConfigFileNotFound(confPath))
    case Conf(_, Failure(e)) => Failure(Io(e))
    case Conf(_, Success(text)) =>
      match parse(text)
      case Success(cfg) => Success(cfg)
      case Failure(e) => Failure(Toml(e))
  }

  /** `load_with_cache`. Unless forced, an existing cache is checked for
      freshness (whose errors propagate); a fresh cache that opens and decodes
      is the answer. Any other way through reads the source file. */
  function LoadWithCache(confPath: string, fs: ConfigFs, force: bool,
                         decode: seq<byte> -> Option<Config>,
                         parse: string -> Result<Config, string>): (r: Result<Config, ConfigError>)
    ensures force || fs.cache.NoCache? ==> r == LoadFromSource(confPath, fs.conf, parse)
    ensures !force && fs.cache.Cache? && IsCacheFresh(fs).Failure? ==> r == Failure(IsCacheFresh(fs).error)
    ensures !force && IsCacheFresh(fs) == Success(true) && fs.cache.opens && decode(fs.cache.bytes).Some? ==>
              r == Success(decode(fs.cache.bytes).value)
    ensures !force && IsCacheFresh(fs) == Success(false) ==> r == LoadFromSource(confPath, fs.conf, parse)
    ensures !force && fs.cache.Cache? && !fs.cache.opens && IsCacheFresh(fs).Success? ==>
              r == LoadFromSource(confPath, fs.conf, parse)
    ensures !force && fs.cache.Cache? && decode(fs.cache.bytes).None? && IsCacheFresh(fs).Success? ==>
              r == LoadFromSource(confPath, fs.conf, parse)
  {
    if !force && fs.cache.Cache? then
      match IsCacheFresh(fs)
      case Failure(e) => Failure(e)
      case Success(isFresh) =>
        if isFresh && fs.cache.opens then
          match decode(fs.cache.bytes)
          case Some(cfg) => Success(cfg)
          case None => LoadFromSource(confPath, fs.conf, parse)
        else LoadFromSource(confPath, fs.conf, parse)
    else LoadFromSource(confPath, fs.conf, parse)
  }

  /** `Config::load`: the cache is consulted. A fresh cache that opens and
      decodes is the answer whatever the config file holds; without a cache,
      with a stale one, or with a fresh one that cannot be opened or decoded,
      the config file is read; a cache whose freshness cannot be decided is
      an error. */
  function Load(confPath: string, fs: ConfigFs, decode: seq<byte> -> Option<Config>,
                parse: string -> Result<Config, string>): (r: Result<Config, ConfigError>)
    ensures IsCacheFresh(fs) == Success(true) && fs.cache.opens && decode(fs.cache.bytes).Some? ==>
              r == Success(decode(fs.cache.bytes).value)
    ensures fs.cache.NoCache? ==> r == LoadFromSource(confPath, fs.conf, parse)
    ensures fs.cache.Cache? && IsCacheFresh(fs).Failure? ==> r.Failure? && r.error.Io?
    ensures IsCacheFresh(fs) == Success(false) ==> r == LoadFromSource(confPath, fs.conf, parse)
    ensures IsCacheFresh(fs) == Success(true) && (!fs.cache.opens || decode(fs.cache.bytes).None?) ==>
              r == LoadFromSource(confPath, fs.conf, parse)
  {
    LoadWithCache(confPath, fs, false, decode, parse)
  }

  /** `Config::load_no_cache` and `Config::load_from_path` (which differ only
      in where `confPath` comes from): the cache is never read. */
  function LoadNoCache(confPath: string, fs: ConfigFs, decode: seq<byte> -> Option<Config>,
                       parse: string -> Result<Config, string>): (r: Result<Config, ConfigError>)
    ensures r == LoadFromSource(confPath, fs.conf, parse)
  {
    LoadWithCache(confPath, fs, true, decode, parse)
  }

  /** Forcing makes the result independent of everything but the source
      file: two snapshots with the same config file load the same. */
  lemma ForceIgnoresCache(confPath: string, fs: ConfigFs, fs': ConfigFs,
                          decode: seq<byte> -> Option<Config>, decode': seq<byte> -> Option<Config>,
                          parse: string -> Result<Config, string>)
    requires fs.conf == fs'.conf
    ensures LoadWithCache(confPath, fs, true, decode, parse) == LoadWithCache(confPath, fs', true, decode', parse)
  {
  }

  /** A fresh cache that decodes is used even when the config file has been
      deleted since. */
  lemma FreshCacheWithoutConf(confPath: string, fs: ConfigFs, cfg: Config,
                              decode: seq<byte> -> Option<Config>, parse: string -> Result<Config, string>)
    requires fs.cache.Cache? && fs.cache.mtime.Success? && fs.cache.opens
    requires fs.conf.NoConf? && NothingNewer(fs, fs.cache.mtime.value)
    requires decode(fs.cache.bytes) == Some(cfg)
    ensures Load(confPath, fs, decode, parse) == Success(cfg)
  {
  }

  /** `save_cache`: write the encoding of `cfg`, stamped with the time
      `now` of the write, or fail with an I/O error. */
  function SaveCache(fs: ConfigFs, cfg: Config, encode: Config -> seq<byte>, now: int,
                     ioError: Option<string>): (r: Result<ConfigFs, ConfigError>)
    ensures ioError.Some? ==> r == Failure(Io(ioError.value))
    ensures ioError.None? ==> r.Success? && r.value.cache == Cache(Success(now), true, encode(cfg))
    ensures r.Success? ==> r.value.conf == fs.conf && r.value.exeMtime == fs.exeMtime
                           && r.value.fragments == fs.fragments
  {
    match ioError
    case Some(e) => Failure(Io(e))
    case None => Success(fs.(cache := Cache(Success(now), true, encode(cfg))))
  }

  /** Saving the cache and loading straight after gives back the saved
      config, provided the write is no older than every input and the config
      file's time is readable. */
  lemma SaveCacheThenLoad(confPath: string, fs: ConfigFs, cfg: Config, c: Codec<Config>, now: int,
                          parse: string -> Result<Config, string>)
    requires Sound(c)
    requires NothingNewer(fs, now)
    requires fs.conf.Conf? ==> fs.conf.mtime.Success?
    ensures SaveCache(fs, cfg, c.encode, now, None).Success?
    ensures Load(confPath, SaveCache(fs, cfg, c.encode, now, None).value, c.decode, parse) == Success(cfg)
  {
    var fs' := SaveCache(fs, cfg, c.encode, now, None).value;
    assert c.decode(c.encode(cfg)) == Some(cfg);
    assert NothingNewer(fs', now);
  }

  /** `expand_path`: only a `~/` prefix is expanded, and only when the home
      directory is known; everything else, a bare `~` included, is kept. */
  function ExpandPath(path: string, home: Option<string>): (r: string)
    ensures !(StartsWith(path, "~/") && home.Some?) ==> r == path
    ensures StartsWith(path, "~/") && home.Some? ==> r == Join(home.value, path[2..])
  {
    if StartsWith(path, "~/") && home.Some? then Join(home.value, path[2..]) else path
  }

  /** With a home directory not ending in `/` and a relative remainder, the
      expansion is the home directory, one separator and the remainder. */
  lemma ExpandPathRelative(home: string, rest: string)
    requires home != [] && home[|home| - 1] != '/'
    requires !StartsWith(rest, "/")
    ensures ExpandPath("~/" + rest, Some(home)) == home + "/" + rest
  {
    var p := "~/" + rest;
    assert p[..2] == "~/" && p[2..] == rest;
    assert Join(home, rest) == home + "/" + rest;
  }
}
