/** String helpers with the semantics of the Rust `str` methods the system
    calls (`to_uppercase`, `trim`, `starts_with`, `trim_end_matches`,
    `replace`, `find`). Case mapping and whitespace follow the ASCII subset of
    Unicode; strings are sequences of characters. */
module Text {
  import opened Wrappers

  predicate IsAscii(s: string) {
    forall i :: 0 <= i < |s| ==> s[i] as int < 128
  }

  function UpperChar(c: char): char {
    if 'a' <= c <= 'z' then (c as int - 32) as char else c
  }

  function LowerChar(c: char): char {
    if 'A' <= c <= 'Z' then (c as int + 32) as char else c
  }

  function Upper(s: string): (r: string)
    ensures |r| == |s|
    ensures forall i :: 0 <= i < |s| ==> r[i] == UpperChar(s[i])
  {
    seq(|s|, i requires 0 <= i < |s| => UpperChar(s[i]))
  }

  function Lower(s: string): (r: string)
    ensures |r| == |s|
    ensures forall i :: 0 <= i < |s| ==> r[i] == LowerChar(s[i])
  {
    seq(|s|, i requires 0 <= i < |s| => LowerChar(s[i]))
  }

  /** Rust's `char::is_whitespace` on ASCII: tab, line feed, vertical tab,
      form feed, carriage return and space. */
  predicate IsSpace(c: char) {
    c == ' ' || '\t' <= c <= '\r'
  }

  function TrimStart(s: string): (r: string)
    ensures |r| <= |s| && r == s[|s| - |r|..]
    ensures r == [] || !IsSpace(r[0])
    decreases |s|
  {
    if |s| > 0 && IsSpace(s[0]) then TrimStart(s[1..]) else s
  }

  function TrimEnd(s: string): (r: string)
    ensures |r| <= |s| && r == s[..|r|]
    ensures r == [] || !IsSpace(r[|r| - 1])
    decreases |s|
  {
    if |s| > 0 && IsSpace(s[|s| - 1]) then TrimEnd(s[..|s| - 1]) else s
  }

  function Trim(s: string): string {
    TrimEnd(TrimStart(s))
  }

  /** Upper-casing works character by character. */
  lemma UpperAppend(a: string, b: string)
    ensures Upper(a + b) == Upper(a) + Upper(b)
  {
  }

  /** Lower-casing commutes with trimming, since no space is a letter. */
  lemma {:induction false} TrimStartLower(s: string)
    ensures TrimStart(Lower(s)) == Lower(TrimStart(s))
    decreases |s|
  {
    if |s| > 0 && IsSpace(s[0]) {
      assert Lower(s)[1..] == Lower(s[1..]);
      TrimStartLower(s[1..]);
    }
  }

  lemma {:induction false} TrimEndLower(s: string)
    ensures TrimEnd(Lower(s)) == Lower(TrimEnd(s))
    decreases |s|
  {
    if |s| > 0 && IsSpace(s[|s| - 1]) {
      assert Lower(s)[..|s| - 1] == Lower(s[..|s| - 1]);
      TrimEndLower(s[..|s| - 1]);
    }
  }

  /** Upper-casing forgets an earlier lower-casing. */
  lemma UpperLower(s: string)
    ensures Upper(Lower(s)) == Upper(s)
  {
  }

  predicate StartsWith(s: string, p: string) {
    |p| <= |s| && s[..|p|] == p
  }

  predicate EndsWith(s: string, p: string) {
    |p| <= |s| && s[|s| - |p|..] == p
  }

  /** `p` occurs in `s` starting at index `i`. */
  predicate OccursAt(s: string, p: string, i: nat)
    requires i <= |s|
  {
    StartsWith(s[i..], p)
  }

  predicate Occurs(s: string, p: string) {
    exists i: nat :: i <= |s| && OccursAt(s, p, i)
  }

  /** Rust's `trim_start_matches(c)`: drops every leading `c`. */
  function TrimStartChar(s: string, c: char): (r: string)
    ensures |r| <= |s| && r == s[|s| - |r|..]
    ensures r == [] || r[0] != c
    ensures forall i :: 0 <= i < |s| - |r| ==> s[i] == c
    decreases |s|
  {
    if |s| > 0 && s[0] == c then TrimStartChar(s[1..], c) else s
  }

  /** Stripping `c` from `k` copies of `c` followed by a string that does not
      start with `c` leaves exactly that string. */
  lemma {:induction false} TrimStartCharPrefix(c: char, k: nat, h: string)
    requires h == [] || h[0] != c
    ensures TrimStartChar(Repeat(c, k) + h, c) == h
  {
    if k == 0 {
      assert Repeat(c, k) + h == h;
    } else {
      var s := Repeat(c, k) + h;
      assert s[1..] == Repeat(c, k - 1) + h;
      TrimStartCharPrefix(c, k - 1, h);
    }
  }

  /** Rust's `trim_end_matches(p)`: drops `p` from the end for as long as the
      string still ends with it. */
  function TrimEndMatches(s: string, p: string): (r: string)
    requires |p| > 0
    ensures |r| <= |s| && r == s[..|r|]
    ensures !EndsWith(r, p)
    decreases |s|
  {
    if EndsWith(s, p) then TrimEndMatches(s[..|s| - |p|], p) else s
  }

  /** Rust's `str::replace(from, to)` for a non-empty pattern: every
      non-overlapping occurrence, scanning left to right, is replaced. */
  function Replace(s: string, from: string, to: string): string
    requires |from| > 0
    decreases |s|
  {
    if |s| < |from| then s
    else if StartsWith(s, from) then to + Replace(s[|from|..], from, to)
    else [s[0]] + Replace(s[1..], from, to)
  }

  /** Reference definition of replacing one character: each `c` becomes
      `rep`, every other character stays. */
  function SubstChar(s: string, c: char, rep: string): string
    decreases |s|
  {
    if s == [] then [] else (if s[0] == c then rep else [s[0]]) + SubstChar(s[1..], c, rep)
  }

  function Repeat(c: char, n: nat): (r: string)
    ensures |r| == n
    ensures forall i :: 0 <= i < n ==> r[i] == c
  {
    seq(n, _ => c)
  }

  /** Rust's `find(c)`: the index of the first `c`, if any. */
  function IndexOf(s: string, c: char): (r: Option<nat>)
    ensures r.Some? ==> r.value < |s| && s[r.value] == c && c !in s[..r.value]
    ensures r.None? <==> c !in s
    decreases |s|
  {
    if s == [] then None
    else if s[0] == c then Some(0)
    else
      match IndexOf(s[1..], c)
      case None => None
      case Some(k) => Some(k + 1)
  }

  /** A pattern that does not occur is left alone by `Replace`. */
  lemma {:induction false} ReplaceAbsent(s: string, from: string, to: string)
    requires |from| > 0
    requires !Occurs(s, from)
    ensures Replace(s, from, to) == s
    decreases |s|
  {
    if |s| < |from| {
    } else {
      assert !OccursAt(s, from, 0);
      assert s[0..] == s;
      assert !StartsWith(s, from);
      forall i: nat | i <= |s[1..]|
        ensures !OccursAt(s[1..], from, i)
      {
        assert s[1..][i..] == s[i + 1..];
        assert !OccursAt(s, from, i + 1);
      }
      ReplaceAbsent(s[1..], from, to);
    }
  }

  /** A string that is exactly the pattern is replaced by the substitute. */
  lemma ReplaceWhole(p: string, v: string)
    requires |p| > 0
    ensures Replace(p, p, v) == v
  {
    assert p[|p|..] == [];
    assert Replace(p[|p|..], p, v) == [];
  }

  /** Replacing a one-character pattern is `SubstChar`. */
  lemma {:induction false} ReplaceCharIsSubst(s: string, c: char, rep: string)
    ensures Replace(s, [c], rep) == SubstChar(s, c, rep)
    decreases |s|
  {
    if s != [] {
      ReplaceCharIsSubst(s[1..], c, rep);
      if s[0] == c {
        assert StartsWith(s, [c]);
      } else {
        assert !StartsWith(s, [c]);
      }
    }
  }

  /** After substituting a character by a string free of it, the character
      is gone. */
  lemma {:induction false} SubstCharRemoves(s: string, c: char, rep: string)
    requires c !in rep
    ensures c !in SubstChar(s, c, rep)
    decreases |s|
  {
    if s != [] {
      SubstCharRemoves(s[1..], c, rep);
    }
  }

  /** Substituting a character that does not occur changes nothing. */
  lemma {:induction false} SubstCharAbsent(s: string, c: char, rep: string)
    requires c !in s
    ensures SubstChar(s, c, rep) == s
    decreases |s|
  {
    if s != [] {
      SubstCharAbsent(s[1..], c, rep);
      assert s == [s[0]] + s[1..];
    }
  }
}
