/** The preset helpers `log` and `log_msg` of `crates/hi_cli/src/logging.rs`:
    a preset is looked up by key and, when it exists and has a scope, its
    line goes to the terminal and, when `write_by_default` is set, to the log
    file. Rendering the line is the logger crate's business (its code is not
    part of this model), so a call is modelled by what it hands over. The
    module's `strip_tags` is the one of `Markup`. */
module CliLogging {
  import opened Wrappers
  import opened ConfigCache
  import CoreLog

  /** What one call hands to the logger: the level, scope and message of the
      terminal line, whether the same line goes to the log file, and the
      application name passed to the file logger. */
  datatype Emit = Emit(level: string, scope: string, msg: string, toFile: bool, app: Option<string>)

  /** The preset behind `key`, when it exists and has a scope. */
  predicate Printable(cfg: Config, key: string) {
    key in cfg.presets && cfg.presets[key].scope.Some?
  }

  /** The shared body of both helpers: `msg` is the text to log in place of
      the preset's own message, if any. */
  function Request(cfg: Config, key: string, msg: Option<string>): (r: Option<Emit>)
    ensures r.Some? <==> Printable(cfg, key)
  {
    if key in cfg.presets then
      var p := cfg.presets[key];
      match p.scope
      case None => None
      case Some(scope) =>
        Some(Emit(p.level, scope, msg.GetOr(p.msg), cfg.layout.logging.writeByDefault, None))
    else None
  }

  /** `log`: the preset's line, or nothing. */
  function Log(cfg: Config, key: string): (r: Option<Emit>)
    ensures r.Some? <==> Printable(cfg, key)
    ensures r.Some? ==>
              var p := cfg.presets[key];
              r.value == Emit(p.level, p.scope.value, p.msg, cfg.layout.logging.writeByDefault, None)
  {
    Request(cfg, key, None)
  }

  /** `log_msg`: the preset's line with its message replaced, or nothing. */
  function LogMsg(cfg: Config, key: string, msgOverride: string): (r: Option<Emit>)
    ensures r.Some? <==> Printable(cfg, key)
    ensures r.Some? ==> r.value.msg == msgOverride
  {
    Request(cfg, key, Some(msgOverride))
  }

  /** The two helpers differ only in the message: same gating, same level,
      scope and file switch. */
  lemma LogMsgReplacesMessage(cfg: Config, key: string, m: string)
    ensures LogMsg(cfg, key, m).Some? <==> Log(cfg, key).Some?
    ensures Log(cfg, key).Some? ==> LogMsg(cfg, key, m) == Some(Log(cfg, key).value.(msg := m))
  {
  }

  /** The file switch is the configuration's alone: whatever the preset,
      a call writes to the file exactly when `write_by_default` is set. */
  lemma FileOnlyByDefault(cfg: Config, key: string, m: string)
    ensures Log(cfg, key).Some? ==> (Log(cfg, key).value.toFile <==> cfg.layout.logging.writeByDefault)
    ensures LogMsg(cfg, key, m).Some? ==> (LogMsg(cfg, key, m).value.toFile <==> cfg.layout.logging.writeByDefault)
  {
  }

  /** The helpers gate exactly as the `corelog` tool does: a line is printed
      by one iff by the other, with the same level, scope and message, and
      the file is attempted by `corelog` iff the helper sends the line to
      the file. */
  lemma AgreesWithCorelog(cfg: Config, key: string, now: CoreLog.Now, io: CoreLog.LogIo)
    requires CoreLog.AsciiColors(cfg)
    ensures Log(cfg, key).Some? <==> CoreLog.Corelog(Success(cfg), key, now, io).printed.Some?
    ensures Log(cfg, key).Some? ==>
              var e := Log(cfg, key).value;
              var run := CoreLog.Corelog(Success(cfg), key, now, io);
              && run.printed.value.line == CoreLog.TerminalLine(cfg, e.level, e.scope, e.msg)
              && (e.toFile <==> run.appended.Some? || run.error.Some?)
  {
    if Log(cfg, key).Some? {
      var p := cfg.presets[key];
      var run := CoreLog.Corelog(Success(cfg), key, now, io);
      if cfg.layout.logging.writeByDefault {
        assert run.appended.Some? || run.error.Some? by {
          match CoreLog.LogToFile(cfg, p.level, p.scope.value, p.msg, now, io)
          case Failure(_) =>
          case Success(_) =>
        }
      }
    }
  }
}
