/** The C interface of `crates/hi_ffi/src/lib.rs`: handles that may be
    null, error messages kept on the handle and copied into a buffer the
    caller owns, logging a preset, and the store's remove and count. A null
    pointer is `None`; a message is the bytes of its text. */
module Ffi {
  import opened Wrappers
  import opened Codec
  import opened ConfigCache
  import Store
  import CliLogging

  const CIntRange := 0x1_0000_0000
  const CIntMax := 0x7fff_ffff

  /** `n as c_int`: the low 32 bits of `n`, read as a two's-complement
      number. */
  function AsCInt(n: nat): (r: int)
    ensures -CIntMax - 1 <= r <= CIntMax
    ensures (n - r) % CIntRange == 0
  {
    var low := n % CIntRange;
    if low <= CIntMax then low else low - CIntRange
  }

  /** Counts that fit in a `c_int` are returned as they are. */
  lemma AsCIntSmall(n: nat)
    requires n <= CIntMax
    ensures AsCInt(n) == n
  {
  }

  /** A count of 2^31 comes back negative. */
  lemma AsCIntWraps()
    ensures AsCInt(CIntMax + 1) == -CIntMax - 1
  {
  }

  // ---------------------------------------------------------------------
  // Copying the last error out
  // ---------------------------------------------------------------------

  /** What a copy leaves behind: the return code and the buffer's bytes
      (`None` for a null buffer). */
  datatype Copy = Copy(rc: int, buffer: Option<seq<byte>>)

  /** `hyprink_get_last_error`, and `hyprink_store_get_last_error` which
      has the same body: `-1` for a null handle or buffer, `0` when no error
      is kept, `-1` when the message and its terminating NUL do not fit in
      `len` bytes; otherwise the message and a NUL are written at the front
      of the buffer and its length is returned. The caller promises `len`
      bytes of buffer. */
  function LastError(handle: bool, lastError: Option<seq<byte>>, buffer: Option<seq<byte>>, len: nat): (r: Copy)
    requires buffer.Some? ==> len <= |buffer.value|
    ensures !handle || buffer.None? ==> r == Copy(-1, buffer)
    ensures handle && buffer.Some? && lastError.None? ==> r == Copy(0, buffer)
    ensures handle && buffer.Some? && lastError.Some? && |lastError.value| >= len ==> r == Copy(-1, buffer)
    ensures handle && buffer.Some? && lastError.Some? && |lastError.value| < len ==>
              var msg := lastError.value;
              var n := |msg|;
              && r.rc == AsCInt(n)
              && r.buffer.Some? && |r.buffer.value| == |buffer.value|
              && r.buffer.value[..n] == msg && r.buffer.value[n] == 0
              && r.buffer.value[n + 1..] == buffer.value[n + 1..]
  {
    if !handle || buffer.None? then Copy(-1, buffer)
    else match lastError
      case None => Copy(0, buffer)
      case Some(msg) =>
        if |msg| >= len then Copy(-1, buffer)
        else
          var n := |msg|;
          var b := msg + [0] + buffer.value[n + 1..];
          assert b[..n] == msg;
          assert b[n + 1..] == buffer.value[n + 1..];
          Copy(AsCInt(n), Some(b))
  }

  /** The C string a buffer holds: its bytes up to the first NUL. */
  function CString(b: seq<byte>): (s: seq<byte>)
    ensures 0 !in s
    ensures |s| <= |b| && s == b[..|s|]
    ensures |s| < |b| ==> b[|s|] == 0
  {
    if b == [] || b[0] == 0 then [] else [b[0]] + CString(b[1..])
  }

  /** A C string is everything before the first NUL. */
  lemma {:induction false} CStringBeforeNul(b: seq<byte>, n: nat)
    requires n < |b| && b[n] == 0 && 0 !in b[..n]
    ensures CString(b) == b[..n]
    decreases n
  {
    if n > 0 {
      assert b[0] in b[..n];
      assert b[1..][..n - 1] == b[..n][1..];
      CStringBeforeNul(b[1..], n - 1);
      assert b[..n] == [b[0]] + b[1..][..n - 1];
    }
  }

  /** A message without NUL bytes that is copied out is read back whole by
      the caller, and a small length is the message's own. */
  lemma LastErrorReadBack(lastError: seq<byte>, buffer: seq<byte>, len: nat)
    requires len <= |buffer| && |lastError| < len && 0 !in lastError
    ensures LastError(true, Some(lastError), Some(buffer), len).buffer.Some?
    ensures CString(LastError(true, Some(lastError), Some(buffer), len).buffer.value) == lastError
    ensures |lastError| <= CIntMax ==> LastError(true, Some(lastError), Some(buffer), len).rc == |lastError|
  {
    var b := LastError(true, Some(lastError), Some(buffer), len).buffer.value;
    CStringBeforeNul(b, |lastError|);
  }

  /** A refused copy (a negative code) leaves the caller's buffer exactly
      as it was, for messages whose length fits in a `c_int` (a longer one
      that is copied can come back with a negative code). A code of 0 does
      not say the same: an empty stored message writes its NUL. */
  lemma LastErrorFailsCleanly(handle: bool, lastError: Option<seq<byte>>, buffer: Option<seq<byte>>, len: nat)
    requires buffer.Some? ==> len <= |buffer.value|
    requires lastError.Some? ==> |lastError.value| <= CIntMax
    ensures LastError(handle, lastError, buffer, len).rc < 0 ==> LastError(handle, lastError, buffer, len).buffer == buffer
  {
    if handle && buffer.Some? && lastError.Some? && |lastError.value| < len {
      AsCIntSmall(|lastError.value|);
    }
  }

  /** The copy on a caller's array: the same return code and, byte for byte,
      the buffer `LastError` describes; nothing after the NUL is touched. */
  method CopyLastError(handle: bool, lastError: Option<seq<byte>>, buffer: array?<byte>, len: nat) returns (rc: int)
    requires buffer != null ==> len <= buffer.Length
    modifies buffer
    ensures buffer != null ==>
              var r := LastError(handle, lastError, Some(old(buffer[..])), len);
              rc == r.rc && buffer[..] == r.buffer.value
    ensures buffer == null ==> rc == -1
  {
    if !handle || buffer == null {
      return -1;
    }
    if lastError.None? {
      return 0;
    }
    var msg := lastError.value;
    if |msg| >= len {
      return -1;
    }
    ghost var before := buffer[..];
    var i := 0;
    while i < |msg|
      invariant 0 <= i <= |msg|
      invariant buffer[..i] == msg[..i]
      invariant buffer[i..] == before[i..]
    {
      buffer[i] := msg[i];
      assert buffer[..i + 1] == msg[..i + 1];
      i := i + 1;
    }
    buffer[|msg|] := 0;
    rc := AsCInt(|msg|);
    assert buffer[..] == msg + [0] + before[|msg| + 1..];
  }

  // ---------------------------------------------------------------------
  // Logging a preset
  // ---------------------------------------------------------------------

  /** The context behind a `HyprinkContext` pointer. */
  datatype Context = Context(config: Config, lastError: Option<string>, appName: Option<string>)

  /** A call's return code, the context afterwards and what was logged. */
  datatype PresetCall = PresetCall(rc: int, ctx: Option<Context>, emitted: Option<CliLogging.Emit>)

  function PresetNotFound(key: string): string {
    "Preset '" + key + "' not found"
  }

  /** `hyprink_log_preset`: a null context or key returns 1 untouched;
      otherwise the old error is cleared, an unknown key is recorded as the
      new error and returns 1, and a known preset is logged (a missing scope
      as the empty scope, the override replacing the message, the app name
      passed to the file logger) and returns 0. */
  function LogPreset(ctx: Option<Context>, key: Option<string>, msgOverride: Option<string>): (r: PresetCall)
    ensures ctx.None? || key.None? ==> r == PresetCall(1, ctx, None)
    ensures ctx.Some? && key.Some? && key.value !in ctx.value.config.presets ==>
              r == PresetCall(1, Some(ctx.value.(lastError := Some(PresetNotFound(key.value)))), None)
    ensures ctx.Some? && key.Some? && key.value in ctx.value.config.presets ==>
              var c := ctx.value;
              var p := c.config.presets[key.value];
              && r.rc == 0 && r.ctx == Some(c.(lastError := None))
              && r.emitted == Some(CliLogging.Emit(p.level, p.scope.GetOr(""), msgOverride.GetOr(p.msg),
                                                   c.config.layout.logging.writeByDefault, c.appName))
  {
    if ctx.None? || key.None? then PresetCall(1, ctx, None)
    else
      var c := ctx.value.(lastError := None);
      if key.value !in c.config.presets then
        PresetCall(1, Some(c.(lastError := Some(PresetNotFound(key.value)))), None)
      else
        var p := c.config.presets[key.value];
        var scope := match p.scope case Some(s) => s case None => "";
        var msg := match msgOverride case Some(m) => m case None => p.msg;
        PresetCall(0, Some(c), Some(CliLogging.Emit(p.level, scope, msg, c.config.layout.logging.writeByDefault, c.appName)))
  }

  /** Against the command-line helper: for a preset with a scope the call
      logs the same line (only the app name differs), but a preset without
      a scope, which the helper skips, is logged here with an empty scope. */
  lemma LogPresetVersusCli(c: Context, key: string, m: Option<string>)
    requires key in c.config.presets
    ensures LogPreset(Some(c), Some(key), m).rc == 0
    ensures CliLogging.Printable(c.config, key) ==>
              var cli := if m.Some? then CliLogging.LogMsg(c.config, key, m.value) else CliLogging.Log(c.config, key);
              LogPreset(Some(c), Some(key), m).emitted == Some(cli.value.(app := c.appName))
    ensures !CliLogging.Printable(c.config, key) ==>
              && CliLogging.Log(c.config, key).None?
              && LogPreset(Some(c), Some(key), m).emitted.value.scope == ""
  {
  }

  /** Every call that reaches the lookup leaves exactly the error of this
      call behind: none on success, the missing key on failure. */
  lemma LogPresetErrorIsFresh(c: Context, key: string, m: Option<string>)
    ensures var r := LogPreset(Some(c), Some(key), m);
            && (r.rc == 0 <==> r.ctx.value.lastError.None?)
            && r.ctx.value.config == c.config && r.ctx.value.appName == c.appName
  {
  }

  // ---------------------------------------------------------------------
  // The store
  // ---------------------------------------------------------------------

  /** The store behind a `HyprinkStore` pointer. */
  datatype StoreHandle = StoreHandle(inner: Store.Store, lastError: Option<string>)

  datatype StoreCall = StoreCall(rc: int, handle: Option<StoreHandle>)

  /** `hyprink_store_remove`: a null handle or name returns 1 untouched;
      otherwise the error is cleared, the name removed if present, and the
      call returns 0 either way. */
  function StoreRemove(h: Option<StoreHandle>, name: Option<string>): (r: StoreCall)
    ensures h.None? || name.None? ==> r == StoreCall(1, h)
    ensures h.Some? && name.Some? ==>
              && r.rc == 0 && r.handle.Some? && r.handle.value.lastError.None?
              && r.handle.value.inner.templates.Keys == h.value.inner.templates.Keys - {name.value}
              && (forall k :: k in r.handle.value.inner.templates ==>
                                r.handle.value.inner.templates[k] == h.value.inner.templates[k])
  {
    if h.None? || name.None? then StoreCall(1, h)
    else StoreCall(0, Some(StoreHandle(Store.Remove(h.value.inner, name.value).store, None)))
  }

  /** `hyprink_store_count`: `-1` for a null handle, else the number of
      templates as a `c_int`. */
  function StoreCount(h: Option<StoreHandle>): (r: int)
    ensures h.None? ==> r == -1
    ensures h.Some? && Store.Valid(h.value.inner) ==> r == AsCInt(|Store.List(h.value.inner)|)
  {
    if h.None? then -1 else AsCInt(|h.value.inner.templates|)
  }

  /** Removing a stored name lowers the count by one, removing an absent
      name leaves it; the return code cannot tell the two apart. */
  lemma RemoveThenCount(h: StoreHandle, name: string)
    requires |h.inner.templates| <= CIntMax
    ensures StoreRemove(Some(h), Some(name)).rc == 0
    ensures name in h.inner.templates ==>
              StoreCount(StoreRemove(Some(h), Some(name)).handle) == StoreCount(Some(h)) - 1
    ensures name !in h.inner.templates ==>
              StoreCount(StoreRemove(Some(h), Some(name)).handle) == StoreCount(Some(h))
  {
    var after := StoreRemove(Some(h), Some(name)).handle.value;
    AsCIntSmall(|h.inner.templates|);
    AsCIntSmall(|after.inner.templates|);
  }
}
