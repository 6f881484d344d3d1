/** The two text helpers of the logger in `crates/k-lib/src/logger.rs`:
    `strip_tags`, which drops `<...>` markup from a message before it goes to
    a log file (the same function is repeated in `crates/kitchn_cli/src/main.rs`
    and `crates/hi_cli/src/logging.rs`), and `parse_structure`, which splits a
    terminal layout into literal text and the placeholders `{tag}`, `{scope}`,
    `{icon}` and `{msg}`. Text is ASCII, so byte and character positions
    agree. */
module Markup {
  import opened Wrappers
  import opened Text

  // ---------------------------------------------------------------------
  // strip_tags
  // ---------------------------------------------------------------------

  /** Reference definition of tag stripping, one step of the scan at a
      time: a character other than `<` is kept; a `<` is dropped together
      with everything up to and including the first `>` after it; a `<` with
      no `>` after it is kept. */
  function Strip(s: string): (r: string)
    ensures |r| <= |s|
    decreases |s|
  {
    if s == [] then []
    else if s[0] != '<' then [s[0]] + Strip(s[1..])
    else match IndexOf(s, '>')
      case Some(e) => Strip(s[e + 1..])
      case None => ['<'] + Strip(s[1..])
  }

  /** `strip_tags`: copy the text up to the next `<`; skip from that `<` to
      the first `>` after it, or keep the `<` when there is none. */
  method StripTags(msg: string) returns (result: string)
    ensures result == Strip(msg)
    ensures |result| <= |msg|
  {
    result := [];
    var i := 0;
    while i < |msg|
      invariant 0 <= i <= |msg|
      invariant result + Strip(msg[i..]) == Strip(msg)
      decreases |msg| - i
    {
      var piece, next := StripStep(msg, i);
      Regroup(result, piece, Strip(msg[next..]), Strip(msg));
      result := result + piece;
      i := next;
    }
  }

  /** One turn of the loop of `strip_tags` from position `i`: the text it
      keeps and where the next turn starts. */
  method StripStep(msg: string, i: nat) returns (piece: string, next: nat)
    requires i < |msg|
    ensures i < next <= |msg|
    ensures Strip(msg[i..]) == piece + Strip(msg[next..])
  {
    var lt := IndexOf(msg[i..], '<');
    if lt.None? {
      StripToEnd(msg, i);
      piece, next := msg[i..], |msg|;
    } else {
      var open := i + lt.value;
      var gt := IndexOf(msg[open..], '>');
      if gt.Some? {
        var close := open + gt.value + 1;
        StripDropTag(msg, i, open, close);
        assert Strip(msg[i..]) == msg[i..open] + Strip(msg[close..]);
        piece, next := msg[i..open], close;
      } else {
        StripKeepOpen(msg, i, open);
        assert Strip(msg[i..]) == (msg[i..open] + ['<']) + Strip(msg[open + 1..]);
        piece, next := msg[i..open] + ['<'], open + 1;
      }
    }
  }

  lemma Regroup(done: string, piece: string, rest: string, whole: string)
    requires done + (piece + rest) == whole
    ensures (done + piece) + rest == whole
  {
  }

  /** Text up to the first `<` is copied. */
  lemma StripUpToOpen(msg: string, i: nat, open: nat)
    requires i <= open < |msg| && IndexOf(msg[i..], '<') == Some(open - i)
    ensures msg[open] == '<'
    ensures Strip(msg[i..]) == msg[i..open] + Strip(msg[open..])
  {
    assert msg[i..] == msg[i..open] + msg[open..];
    assert msg[i..][..open - i] == msg[i..open];
    StripPlain(msg[i..open], msg[open..]);
  }

  /** A `<` with a `>` after it is dropped up to that `>`. */
  lemma StripDropTag(msg: string, i: nat, open: nat, next: nat)
    requires i <= open < next <= |msg|
    requires IndexOf(msg[i..], '<') == Some(open - i) && IndexOf(msg[open..], '>') == Some(next - open - 1)
    ensures Strip(msg[i..]) == msg[i..open] + Strip(msg[next..])
  {
    StripUpToOpen(msg, i, open);
    StripOpen(msg[open..]);
    assert msg[open..][next - open..] == msg[next..];
  }

  /** A `<` with no `>` after it is kept. */
  lemma StripKeepOpen(msg: string, i: nat, open: nat)
    requires i <= open < |msg|
    requires IndexOf(msg[i..], '<') == Some(open - i) && IndexOf(msg[open..], '>') == None
    ensures Strip(msg[i..]) == (msg[i..open] + ['<']) + Strip(msg[open + 1..])
  {
    StripUpToOpen(msg, i, open);
    StripOpen(msg[open..]);
    assert msg[open..][1..] == msg[open + 1..];
  }

  /** With no `<` left, the rest is copied. */
  lemma StripToEnd(msg: string, i: nat)
    requires i < |msg| && IndexOf(msg[i..], '<') == None
    ensures Strip(msg[i..]) == msg[i..] + Strip(msg[|msg|..])
  {
    StripPlain(msg[i..], []);
    assert msg[i..] + [] == msg[i..];
  }

  /** One step of the scan at a `<`. */
  lemma StripOpen(s: string)
    requires s != [] && s[0] == '<'
    ensures IndexOf(s, '>').Some? ==> Strip(s) == Strip(s[IndexOf(s, '>').value + 1..])
    ensures IndexOf(s, '>').None? ==> Strip(s) == ['<'] + Strip(s[1..])
  {
  }

  /** Text without `<` passes through unchanged ahead of whatever follows. */
  lemma {:induction false} StripPlain(a: string, rest: string)
    requires '<' !in a
    ensures Strip(a + rest) == a + Strip(rest)
    decreases |a|
  {
    if a != [] {
      assert (a + rest)[0] == a[0] && a[0] in a;
      assert (a + rest)[1..] == a[1..] + rest;
      StripPlain(a[1..], rest);
      assert Strip(a + rest) == [a[0]] + Strip(a[1..] + rest);
      assert a == [a[0]] + a[1..];
    } else {
      assert a + rest == rest;
    }
  }

  /** Stripping only ever keeps characters of the input. */
  lemma {:induction false} StripKeeps(s: string, c: char)
    ensures c in Strip(s) ==> c in s
    decreases |s|
  {
    if s != [] {
      if s[0] != '<' {
        StripKeeps(s[1..], c);
      } else {
        match IndexOf(s, '>')
        case Some(e) =>
          StripKeeps(s[e + 1..], c);
          if c in Strip(s[e + 1..]) {
            var k :| 0 <= k < |s[e + 1..]| && s[e + 1..][k] == c;
            assert s[e + 1 + k] == c;
          }
        case None =>
          StripKeeps(s[1..], c);
      }
    }
  }

  /** Text in which no `<` has a `>` somewhere after it: there is no tag
      left to strip. */
  predicate Clean(s: string) {
    forall i, j :: 0 <= i < j < |s| && s[i] == '<' ==> s[j] != '>'
  }

  /** What stripping leaves is clean. */
  lemma {:induction false} StripClean(s: string)
    ensures Clean(Strip(s))
    decreases |s|
  {
    if s != [] {
      if s[0] != '<' {
        StripClean(s[1..]);
        var r := Strip(s[1..]);
        assert forall i :: 0 < i <= |r| ==> ([s[0]] + r)[i] == r[i - 1];
      } else {
        match IndexOf(s, '>')
        case Some(e) =>
          StripClean(s[e + 1..]);
        case None =>
          StripClean(s[1..]);
          StripKeeps(s[1..], '>');
          var r := Strip(s[1..]);
          assert '>' !in r;
          assert forall i :: 0 < i <= |r| ==> (['<'] + r)[i] == r[i - 1];
      }
    }
  }

  /** Clean text is left exactly as it is. */
  lemma {:induction false} CleanUnchanged(s: string)
    requires Clean(s)
    ensures Strip(s) == s
    decreases |s|
  {
    if s != [] {
      assert Clean(s[1..]) by {
        forall i, j | 0 <= i < j < |s[1..]| && s[1..][i] == '<'
          ensures s[1..][j] != '>'
        {
          assert s[i + 1] == '<';
        }
      }
      CleanUnchanged(s[1..]);
      if s[0] == '<' {
        assert forall j :: 0 < j < |s| ==> s[j] != '>';
        assert IndexOf(s, '>') == None;
      }
      assert s == [s[0]] + s[1..];
    }
  }

  /** Stripping leaves text alone exactly when it is clean, so stripping
      twice is stripping once. */
  lemma StripFixed(s: string)
    ensures Strip(s) == s <==> Clean(s)
    ensures Strip(Strip(s)) == Strip(s)
  {
    StripClean(s);
    if Clean(s) {
      CleanUnchanged(s);
    }
    CleanUnchanged(Strip(s));
  }

  /** A message with no `<`, or with no `>`, is returned unchanged; in the
      second case every `<` is kept. */
  lemma StripUntagged(s: string)
    requires '<' !in s || '>' !in s
    ensures Strip(s) == s
  {
    assert Clean(s) by {
      forall i, j | 0 <= i < j < |s| && s[i] == '<'
        ensures s[j] != '>'
      {
        assert s[i] in s && s[j] in s;
      }
    }
    CleanUnchanged(s);
  }

  /** A complete tag is removed with its contents: text before the first
      `<` is kept, and stripping carries on after the first `>`. */
  lemma StripTag(a: string, t: string, b: string)
    requires '<' !in a && '>' !in t
    ensures Strip(a + "<" + t + ">" + b) == a + Strip(b)
  {
    var s := "<" + t + ">" + b;
    assert a + "<" + t + ">" + b == a + s;
    StripPlain(a, s);
    assert s[0] == '<';
    assert s[|t| + 1] == '>';
    assert forall j :: 0 <= j < |t| + 1 ==> s[j] != '>' by {
      forall j | 0 <= j < |t| + 1
        ensures s[j] != '>'
      {
        if j > 0 {
          assert s[j] == t[j - 1];
        }
      }
    }
    assert s[..|t| + 1] == "<" + t;
    assert IndexOf(s, '>') == Some(|t| + 1);
    assert s[|t| + 2..] == b;
  }

  // ---------------------------------------------------------------------
  // parse_structure
  // ---------------------------------------------------------------------

  /** The placeholders, in the order `parse_structure` tries them. */
  const Placeholders: seq<string> := ["{tag}", "{scope}", "{icon}", "{msg}"]

  /** The first placeholder that `rest` starts with. */
  function MatchAt(rest: string): (r: Option<string>)
    ensures r.Some? ==> r.value in Placeholders && |r.value| > 0 && StartsWith(rest, r.value)
  {
    if StartsWith(rest, "{tag}") then Some("{tag}")
    else if StartsWith(rest, "{scope}") then Some("{scope}")
    else if StartsWith(rest, "{icon}") then Some("{icon}")
    else if StartsWith(rest, "{msg}") then Some("{msg}")
    else None
  }

  /** Nothing is found exactly when no placeholder starts the text. */
  lemma MatchNone(rest: string)
    ensures MatchAt(rest).None? <==> forall p :: p in Placeholders ==> !StartsWith(rest, p)
  {
  }

  /** The literal being collected, as a part if it is not empty. */
  function Flush(current: string): (r: seq<string>)
    ensures current == [] ==> r == []
    ensures current != [] ==> r == [current]
  {
    if current == [] then [] else [current]
  }

  /** The scan of `parse_structure` from some point on: `current` is the
      literal collected so far and `rest` what is still to be read. */
  function Scan(rest: string, current: string): seq<string>
    decreases |rest|
  {
    if rest == [] then Flush(current)
    else match MatchAt(rest)
      case Some(ph) => Flush(current) + [ph] + Scan(rest[|ph|..], [])
      case None => Scan(rest[1..], current + [rest[0]])
  }

  /** `parse_structure`: at each position the first placeholder the rest
      starts with becomes a part of its own, after the pending literal if
      there is one; otherwise one character joins the literal. */
  method ParseStructure(structure: string) returns (parts: seq<string>)
    ensures parts == Scan(structure, [])
    ensures Concat(parts) == structure
    ensures WellFormed(parts)
  {
    parts := [];
    var current := "";
    var i := 0;
    while i < |structure|
      invariant 0 <= i <= |structure|
      invariant parts + Scan(structure[i..], current) == Scan(structure, [])
      decreases |structure| - i
    {
      match MatchAt(structure[i..])
      case Some(ph) =>
        ScanPlaceholderStep(structure, parts, current, i, ph);
        parts := parts + Flush(current) + [ph];
        current := [];
        i := i + |ph|;
        assert parts + Scan(structure[i..], current) == Scan(structure, []);
      case None =>
        ScanCharStep(structure, parts, current, i);
        current := current + [structure[i]];
        i := i + 1;
        assert parts + Scan(structure[i..], current) == Scan(structure, []);
    }
    assert structure[i..] == [];
    parts := parts + Flush(current);
    ScanConcat(structure, []);
    ScanWellFormed(structure, []);
  }

  /** A placeholder ends the pending literal and becomes a part. */
  lemma ScanPlaceholderStep(structure: string, done: seq<string>, current: string, i: nat, ph: string)
    requires i < |structure| && MatchAt(structure[i..]) == Some(ph)
    requires done + Scan(structure[i..], current) == Scan(structure, [])
    ensures i + |ph| <= |structure|
    ensures (done + Flush(current) + [ph]) + Scan(structure[i + |ph|..], []) == Scan(structure, [])
  {
    assert structure[i..][|ph|..] == structure[i + |ph|..];
  }

  /** Any other character joins the pending literal. */
  lemma ScanCharStep(structure: string, done: seq<string>, current: string, i: nat)
    requires i < |structure| && MatchAt(structure[i..]).None?
    requires done + Scan(structure[i..], current) == Scan(structure, [])
    ensures done + Scan(structure[i + 1..], current + [structure[i]]) == Scan(structure, [])
  {
    assert structure[i..][1..] == structure[i + 1..];
  }

  /** The parts joined back together. */
  function Concat(parts: seq<string>): string
    decreases |parts|
  {
    if parts == [] then [] else parts[0] + Concat(parts[1..])
  }

  lemma {:induction false} ConcatAppend(a: seq<string>, b: seq<string>)
    ensures Concat(a + b) == Concat(a) + Concat(b)
    decreases |a|
  {
    if a != [] {
      assert (a + b)[0] == a[0];
      assert (a + b)[1..] == a[1..] + b;
      ConcatAppend(a[1..], b);
      assert Concat(a + b) == a[0] + Concat(a[1..] + b);
      assert Concat(a) == a[0] + Concat(a[1..]);
    } else {
      assert a + b == b;
    }
  }

  lemma ConcatFlush(current: string)
    ensures Concat(Flush(current)) == current
    ensures Concat([current]) == current
  {
    assert [current][1..] == [];
  }

  /** A scan gives back the pending literal followed by the rest. */
  lemma {:induction false} ScanConcat(rest: string, current: string)
    ensures Concat(Scan(rest, current)) == current + rest
    decreases |rest|
  {
    if rest == [] {
      ConcatFlush(current);
      assert current + rest == current;
    } else if MatchAt(rest).Some? {
      var ph := MatchAt(rest).value;
      ScanConcat(rest[|ph|..], []);
      ConcatAtPlaceholder(rest, current, ph);
    } else {
      ScanConcat(rest[1..], current + [rest[0]]);
      ConcatAtChar(rest, current);
    }
  }

  lemma ConcatAtPlaceholder(rest: string, current: string, ph: string)
    requires MatchAt(rest) == Some(ph)
    requires Concat(Scan(rest[|ph|..], [])) == [] + rest[|ph|..]
    ensures Concat(Scan(rest, current)) == current + rest
  {
    var tail := rest[|ph|..];
    assert Scan(rest, current) == Flush(current) + [ph] + Scan(tail, []);
    ConcatPlaceholder(current, ph, Scan(tail, []), tail);
    assert rest == ph + tail;
  }

  lemma ConcatAtChar(rest: string, current: string)
    requires rest != [] && MatchAt(rest).None?
    requires Concat(Scan(rest[1..], current + [rest[0]])) == current + [rest[0]] + rest[1..]
    ensures Concat(Scan(rest, current)) == current + rest
  {
    assert Scan(rest, current) == Scan(rest[1..], current + [rest[0]]);
    assert [rest[0]] + rest[1..] == rest;
    Regroup(current, [rest[0]], rest[1..], current + rest);
  }

  /** Joining the pending literal, a placeholder and the parts after them. */
  lemma ConcatPlaceholder(current: string, ph: string, after: seq<string>, tail: string)
    requires Concat(after) == tail
    ensures Concat(Flush(current) + [ph] + after) == current + (ph + tail)
  {
    ConcatFlush(current);
    ConcatFlush(ph);
    ConcatAppend(Flush(current) + [ph], after);
    ConcatAppend(Flush(current), [ph]);
  }

  /** A literal part: non-empty, and no placeholder starts anywhere in it. */
  predicate Literal(l: string) {
    l != [] && forall k :: 0 <= k < |l| ==> MatchAt(l[k..]).None?
  }

  /** The shape of a split layout: each part is a placeholder or a literal,
      and a literal is followed by a placeholder or by nothing, so no two
      literals are adjacent. */
  predicate WellFormed(parts: seq<string>)
    decreases |parts|
  {
    if parts == [] then true
    else if parts[0] in Placeholders then WellFormed(parts[1..])
    else Literal(parts[0]) && (|parts| == 1 || (parts[1] in Placeholders && WellFormed(parts[1..])))
  }

  /** A placeholder starting a longer text is still found. */
  lemma StartsWithAppend(x: string, y: string, p: string)
    requires StartsWith(x, p)
    ensures StartsWith(x + y, p)
  {
    assert (x + y)[..|p|] == x[..|p|];
  }

  /** While a literal is collected, no placeholder started at any of its
      positions, given what followed. */
  predicate Pending(current: string, rest: string) {
    forall k :: 0 <= k < |current| ==> MatchAt(current[k..] + rest).None?
  }

  lemma PendingLiteral(current: string, rest: string)
    requires current != [] && Pending(current, rest)
    ensures Literal(current)
  {
    forall k | 0 <= k < |current|
      ensures MatchAt(current[k..]).None?
    {
      if MatchAt(current[k..]).Some? {
        MatchNone(current[k..] + rest);
        StartsWithAppend(current[k..], rest, MatchAt(current[k..]).value);
      }
    }
  }

  /** Every scan result is well formed. */
  lemma {:induction false} ScanWellFormed(rest: string, current: string)
    requires Pending(current, rest)
    ensures WellFormed(Scan(rest, current))
    decreases |rest|
  {
    if rest == [] {
      if current != [] {
        PendingLiteral(current, rest);
        assert [current][1..] == [];
      }
    } else if MatchAt(rest).Some? {
      var ph := MatchAt(rest).value;
      ScanWellFormed(rest[|ph|..], []);
      WellFormedAtPlaceholder(rest, current, ph);
    } else {
      PendingExtend(rest, current);
      ScanWellFormed(rest[1..], current + [rest[0]]);
      assert Scan(rest, current) == Scan(rest[1..], current + [rest[0]]);
    }
  }

  /** A placeholder closes the pending literal, which is a literal part. */
  lemma WellFormedAtPlaceholder(rest: string, current: string, ph: string)
    requires MatchAt(rest) == Some(ph) && Pending(current, rest)
    requires WellFormed(Scan(rest[|ph|..], []))
    ensures WellFormed(Scan(rest, current))
  {
    var tail := Scan(rest[|ph|..], []);
    assert Scan(rest, current) == Flush(current) + [ph] + tail;
    assert ([ph] + tail)[1..] == tail;
    if current != [] {
      PendingLiteral(current, rest);
      var r := [current] + [ph] + tail;
      assert r[1..] == [ph] + tail;
      assert r[0] !in Placeholders by {
        assert current[0..] == current;
      }
    } else {
      assert [] + [ph] + tail == [ph] + tail;
    }
  }

  /** A character that starts no placeholder extends the pending literal. */
  lemma PendingExtend(rest: string, current: string)
    requires rest != [] && MatchAt(rest).None? && Pending(current, rest)
    ensures Pending(current + [rest[0]], rest[1..])
  {
    var next := current + [rest[0]];
    forall k | 0 <= k < |next|
      ensures MatchAt(next[k..] + rest[1..]).None?
    {
      if k < |current| {
        assert next[k..] + rest[1..] == current[k..] + rest;
      } else {
        assert next[k..] + rest[1..] == rest;
      }
    }
  }

  // The round trip: splitting joined parts gives the parts back.

  /** Every placeholder opens with `{` and has no other `{`. */
  lemma PlaceholderBraces(p: string)
    requires p in Placeholders
    ensures |p| > 1 && p[0] == '{'
    ensures forall j :: 1 <= j < |p| ==> p[j] != '{'
  {
  }

  /** A placeholder at the front of a text is the one found there. */
  lemma MatchPlaceholder(p: string, y: string)
    requires p in Placeholders
    ensures MatchAt(p + y) == Some(p)
  {
    StartsWithAppend(p, y, p);
    assert (p + y)[1] == p[1];
  }

  /** Text in which no placeholder starts stays so when followed by nothing
      or by text opening with `{`: a placeholder reaching across the join
      would have a second `{`. */
  lemma NoCrossing(x: string, y: string)
    requires x != [] && MatchAt(x).None?
    requires y == [] || y[0] == '{'
    ensures MatchAt(x + y).None?
  {
    MatchNone(x);
    MatchNone(x + y);
    forall p | p in Placeholders
      ensures !StartsWith(x + y, p)
    {
      PlaceholderBraces(p);
      if |p| <= |x| {
        assert (x + y)[..|p|] == x[..|p|];
      } else if y != [] && |p| <= |x + y| {
        assert (x + y)[|x|] == y[0];
      }
    }
  }

  /** Scanning a literal only collects it. */
  lemma {:induction false} ScanLiteral(l: string, y: string, current: string)
    requires forall k :: 0 <= k < |l| ==> MatchAt(l[k..] + y).None?
    ensures Scan(l + y, current) == Scan(y, current + l)
    decreases |l|
  {
    if l != [] {
      var s := l + y;
      assert l[0..] == l && s[0] == l[0];
      assert MatchAt(s).None?;
      assert s[1..] == l[1..] + y;
      forall k | 0 <= k < |l[1..]|
        ensures MatchAt(l[1..][k..] + y).None?
      {
        assert l[1..][k..] == l[k + 1..];
      }
      ScanLiteral(l[1..], y, current + [l[0]]);
      assert current + [l[0]] + l[1..] == current + l;
    } else {
      assert l + y == y && current + l == current;
    }
  }

  /** With a placeholder next, the pending literal is flushed first. */
  lemma ScanAtPlaceholder(y: string, current: string)
    requires MatchAt(y).Some?
    ensures Scan(y, current) == Flush(current) + Scan(y, [])
  {
  }

  /** The joined parts of a well-formed split start with `{` whenever the
      first part is a placeholder. */
  lemma ConcatOpens(parts: seq<string>)
    requires parts != [] && parts[0] in Placeholders
    ensures Concat(parts) != [] && Concat(parts)[0] == '{'
    ensures MatchAt(Concat(parts)) == Some(parts[0])
  {
    PlaceholderBraces(parts[0]);
    MatchPlaceholder(parts[0], Concat(parts[1..]));
  }

  /** Splitting the join of a well-formed split gives it back, so every
      well-formed split is the split of exactly one text. */
  lemma {:induction false} SplitJoin(parts: seq<string>)
    requires WellFormed(parts)
    ensures Scan(Concat(parts), []) == parts
    decreases |parts|
  {
    if parts != [] {
      var y := Concat(parts[1..]);
      if parts[0] in Placeholders {
        SplitJoin(parts[1..]);
        JoinPlaceholder(parts[0], y, parts[1..]);
      } else if |parts| > 1 {
        ConcatOpens(parts[1..]);
        SplitJoin(parts[1..]);
        JoinLiteral(parts[0], y, parts[1..]);
      } else {
        JoinLiteral(parts[0], [], []);
      }
      assert parts == [parts[0]] + parts[1..];
    }
  }

  /** A placeholder in front of a text is split off as its own part. */
  lemma JoinPlaceholder(p: string, y: string, after: seq<string>)
    requires p in Placeholders && Scan(y, []) == after
    ensures Scan(p + y, []) == [p] + after
  {
    MatchPlaceholder(p, y);
    assert (p + y)[|p|..] == y;
  }

  /** A literal in front of nothing, or of a text opening with a
      placeholder, is split off as one part. */
  lemma JoinLiteral(l: string, y: string, after: seq<string>)
    requires Literal(l) && Scan(y, []) == after
    requires y == [] || (y[0] == '{' && MatchAt(y).Some?)
    ensures Scan(l + y, []) == [l] + after
  {
    forall k | 0 <= k < |l|
      ensures MatchAt(l[k..] + y).None?
    {
      NoCrossing(l[k..], y);
    }
    ScanLiteral(l, y, []);
    assert [] + l == l;
    if y == [] {
      assert Scan(y, l) == [l];
    } else {
      ScanAtPlaceholder(y, l);
    }
  }

  /** `{tag}` and `{msg}` between literal text split as expected. */
  lemma ParseExample()
    ensures Scan("[{tag}] {msg}", []) == ["[", "{tag}", "] ", "{msg}"]
  {
    var parts := ["[", "{tag}", "] ", "{msg}"];
    assert Concat(parts) == "[{tag}] {msg}" by {
      assert parts[1..][1..][1..][1..] == [];
    }
    assert WellFormed(parts) by {
      assert Literal("[") by {
        assert "["[0..] == "[";
      }
      assert Literal("] ") by {
        assert "] "[0..] == "] " && "] "[1..] == " ";
      }
      assert parts[1..] == ["{tag}", "] ", "{msg}"];
      assert parts[1..][1..] == ["] ", "{msg}"];
      assert parts[1..][1..][1..] == ["{msg}"];
    }
    SplitJoin(parts);
  }
}
