/** The log retention engine of `crates/k-lib/src/logger.rs`: `cleanup`
    (an age pass, then a size pass over the files left), `stats`, and
    `parse_size`. The directory walk, the clock and file removal are inputs:
    the walk yields `(path, size, age in days)` records and removal of a path
    either succeeds or not. */
module Retention {
  import opened Wrappers
  import PathBuf = Paths
  import opened Text
  import opened Decimal
  import opened ConfigCache

  /** A `.log` file found under the base directory. */
  datatype LogFile = LogFile(path: string, size: nat, age: nat)

  /** The total size of some files. */
  function Sizes(fs: seq<LogFile>): nat
    decreases |fs|
  {
    if fs == [] then 0 else fs[0].size + Sizes(fs[1..])
  }

  lemma {:induction false} SizesAppend(a: seq<LogFile>, b: seq<LogFile>)
    ensures Sizes(a + b) == Sizes(a) + Sizes(b)
    decreases |a|
  {
    if a == [] {
      assert a + b == b;
    } else {
      assert (a + b)[1..] == a[1..] + b;
      SizesAppend(a[1..], b);
    }
  }

  lemma Associative(a: seq<LogFile>, b: seq<LogFile>, c: seq<LogFile>)
    ensures a + (b + c) == (a + b) + c
  {
  }

  /** Reordering files does not change their total size. */
  lemma {:induction false} SizesPermutation(a: seq<LogFile>, b: seq<LogFile>)
    requires multiset(a) == multiset(b)
    ensures Sizes(a) == Sizes(b)
    decreases |a|
  {
    if a == [] {
      assert |b| == |multiset(b)| == 0;
    } else {
      var x := a[0];
      assert x in multiset(b);
      var j :| 0 <= j < |b| && b[j] == x;
      var rest := b[..j] + b[j + 1..];
      SizesRemoveAt(b, j);
      RemoveAtMultiset(b, j);
      assert multiset(a) == multiset{x} + multiset(a[1..]) by {
        assert a == [x] + a[1..];
      }
      Cancel(x, multiset(a[1..]), multiset(rest));
      SizesPermutation(a[1..], rest);
    }
  }

  lemma Cancel(x: LogFile, p: multiset<LogFile>, q: multiset<LogFile>)
    requires multiset{x} + p == q + multiset{x}
    ensures p == q
  {
    assert forall y :: p[y] == (multiset{x} + p)[y] - multiset{x}[y];
    assert forall y :: q[y] == (q + multiset{x})[y] - multiset{x}[y];
  }

  /** Taking one file out of a list lowers its total by that file's size. */
  lemma SizesRemoveAt(b: seq<LogFile>, j: nat)
    requires j < |b|
    ensures Sizes(b) == b[j].size + Sizes(b[..j] + b[j + 1..])
  {
    assert b == b[..j] + ([b[j]] + b[j + 1..]);
    SizesAppend(b[..j], [b[j]] + b[j + 1..]);
    SizesAppend(b[..j], b[j + 1..]);
    assert ([b[j]] + b[j + 1..])[1..] == b[j + 1..];
  }

  /** Taking one file out of a list takes it out of its multiset. */
  lemma RemoveAtMultiset(b: seq<LogFile>, j: nat)
    requires j < |b|
    ensures multiset(b) == multiset(b[..j] + b[j + 1..]) + multiset{b[j]}
  {
    assert b == b[..j] + [b[j]] + b[j + 1..];
  }

  /** The displayed paths of some files, in order. */
  function Paths(fs: seq<LogFile>): (r: seq<string>)
    ensures |r| == |fs|
    ensures forall i :: 0 <= i < |fs| ==> r[i] == fs[i].path
  {
    seq(|fs|, i requires 0 <= i < |fs| => fs[i].path)
  }

  function Reverse(s: seq<LogFile>): (r: seq<LogFile>)
    ensures |r| == |s|
    ensures forall i :: 0 <= i < |s| ==> r[i] == s[|s| - 1 - i]
    decreases |s|
  {
    if s == [] then [] else Reverse(s[1..]) + [s[0]]
  }

  lemma {:induction false} SizesReverse(s: seq<LogFile>)
    ensures Sizes(Reverse(s)) == Sizes(s)
    decreases |s|
  {
    if s != [] {
      SizesReverse(s[1..]);
      SizesAppend(Reverse(s[1..]), [s[0]]);
      assert Sizes([s[0]]) == s[0].size;
    }
  }

  // ---------------------------------------------------------------------------
  // Ordering the files: `sort_by_key(|f| Reverse(f.age))`, a stable sort with
  // the oldest files first.
  // ---------------------------------------------------------------------------

  predicate OldestFirst(fs: seq<LogFile>) {
    forall i, j :: 0 <= i < j < |fs| ==> fs[i].age >= fs[j].age
  }

  /** Insert `x` before the first file no older than it. */
  function Insert(x: LogFile, s: seq<LogFile>): (r: seq<LogFile>)
    ensures |r| == |s| + 1
    ensures r[0] == x || (|s| > 0 && r[0] == s[0])
    decreases |s|
  {
    if s == [] || s[0].age <= x.age then [x] + s
    else [s[0]] + Insert(x, s[1..])
  }

  /** Inserting adds exactly `x`. */
  lemma {:induction false} InsertPermutes(x: LogFile, s: seq<LogFile>)
    ensures multiset(Insert(x, s)) == multiset(s) + multiset{x}
    decreases |s|
  {
    if s != [] && s[0].age > x.age {
      InsertPermutes(x, s[1..]);
      assert s == [s[0]] + s[1..];
      assert multiset([s[0]] + Insert(x, s[1..])) == multiset{s[0]} + multiset(Insert(x, s[1..]));
    }
  }

  /** Inserting into an ordered list keeps it ordered. */
  lemma {:induction false} InsertOrdered(x: LogFile, s: seq<LogFile>)
    requires OldestFirst(s)
    ensures OldestFirst(Insert(x, s))
    decreases |s|
  {
    if s == [] || s[0].age <= x.age {
      ConsOldestFirst(x, s);
    } else {
      assert OldestFirst(s[1..]);
      InsertOrdered(x, s[1..]);
      var rest := Insert(x, s[1..]);
      assert |rest| > 0 ==> rest[0].age <= s[0].age;
      ConsOldestFirst(s[0], rest);
    }
  }

  /** A file no younger than the head of an ordered list may go in front. */
  lemma ConsOldestFirst(h: LogFile, rest: seq<LogFile>)
    requires OldestFirst(rest)
    requires |rest| > 0 ==> rest[0].age <= h.age
    ensures OldestFirst([h] + rest)
  {
    var r := [h] + rest;
    forall i, j | 0 <= i < j < |r|
      ensures r[i].age >= r[j].age
    {
      if i == 0 {
        assert r[j] == rest[j - 1];
        assert rest[0].age >= rest[j - 1].age;
      } else {
        assert r[i] == rest[i - 1] && r[j] == rest[j - 1];
      }
    }
  }

  /** `sort_by_key` with the age reversed: an ordering of the same files,
      oldest first. */
  function SortOldestFirst(fs: seq<LogFile>): (r: seq<LogFile>)
    ensures multiset(r) == multiset(fs)
    ensures OldestFirst(r)
    decreases |fs|
  {
    if fs == [] then []
    else
      var rest := SortOldestFirst(fs[1..]);
      assert fs == [fs[0]] + fs[1..];
      InsertPermutes(fs[0], rest);
      InsertOrdered(fs[0], rest);
      Insert(fs[0], rest)
  }

  /** The files of age `a`, in order. */
  function OfAge(fs: seq<LogFile>, a: nat): seq<LogFile>
    decreases |fs|
  {
    if fs == [] then [] else (if fs[0].age == a then [fs[0]] else []) + OfAge(fs[1..], a)
  }

  lemma OfAgeCons(f: LogFile, s: seq<LogFile>, a: nat)
    ensures OfAge([f] + s, a) == (if f.age == a then [f] else []) + OfAge(s, a)
  {
    assert ([f] + s)[1..] == s;
  }

  lemma {:induction false} InsertOfAge(x: LogFile, s: seq<LogFile>, a: nat)
    ensures OfAge(Insert(x, s), a) == (if x.age == a then [x] else []) + OfAge(s, a)
    decreases |s|
  {
    if s == [] || s[0].age <= x.age {
      OfAgeCons(x, s, a);
    } else {
      var rest := Insert(x, s[1..]);
      var tail := OfAge(s[1..], a);
      InsertOfAge(x, s[1..], a);
      OfAgeCons(s[0], rest, a);
      assert s == [s[0]] + s[1..];
      OfAgeCons(s[0], s[1..], a);
      if x.age == a {
        assert s[0].age != a;
        assert OfAge(Insert(x, s), a) == [] + ([x] + tail);
        assert [] + ([x] + tail) == [x] + ([] + tail);
      } else {
        assert [] + tail == tail;
      }
    }
  }



  /** The sort is stable: files of equal age keep the order the walk found
      them in. */
  lemma {:induction false} SortStable(fs: seq<LogFile>, a: nat)
    ensures OfAge(SortOldestFirst(fs), a) == OfAge(fs, a)
    decreases |fs|
  {
    if fs != [] {
      SortStable(fs[1..], a);
      InsertOfAge(fs[0], SortOldestFirst(fs[1..]), a);
    }
  }

  // ---------------------------------------------------------------------------
  // The two passes of `cleanup`.
  // ---------------------------------------------------------------------------

  /** What a cleanup has done so far: files removed and the bytes they held,
      and, in a dry run, files it would remove and their bytes. */
  datatype Tally = Tally(deleted: seq<LogFile>, freed: nat, wouldDelete: seq<LogFile>, wouldFree: nat)

  const NoTally := Tally([], 0, [], 0)

  /** Each byte count is the size of its list. */
  predicate Accounted(t: Tally) {
    t.freed == Sizes(t.deleted) && t.wouldFree == Sizes(t.wouldDelete)
  }

  /** Acting on one chosen file: a dry run only lists it; otherwise it is
      removed, and counted only when the removal succeeds. */
  function Take(t: Tally, f: LogFile, dry: bool, removable: string -> bool): (r: Tally)
    ensures dry ==> r == t.(wouldDelete := t.wouldDelete + [f], wouldFree := t.wouldFree + f.size)
    ensures !dry && removable(f.path) ==> r == t.(deleted := t.deleted + [f], freed := t.freed + f.size)
    ensures !dry && !removable(f.path) ==> r == t
    ensures Accounted(t) ==> Accounted(r)
  {
    SizesAppend(t.deleted, [f]);
    SizesAppend(t.wouldDelete, [f]);
    assert Sizes([f]) == f.size;
    if dry then t.(wouldDelete := t.wouldDelete + [f], wouldFree := t.wouldFree + f.size)
    else if removable(f.path) then t.(deleted := t.deleted + [f], freed := t.freed + f.size)
    else t
  }

  /** The age rule: everything when `delete_all`, else strictly older than
      the maximum age. */
  predicate AgeSelected(f: LogFile, maxAge: nat, deleteAll: bool) {
    deleteAll || f.age > maxAge
  }

  /** The age pass, file by file in the given order. */
  function AgePass(files: seq<LogFile>, maxAge: nat, deleteAll: bool, dry: bool,
                   removable: string -> bool, t: Tally): (r: Tally)
    ensures Accounted(t) ==> Accounted(r)
    decreases |files|
  {
    if files == [] then t
    else
      var t' := if AgeSelected(files[0], maxAge, deleteAll) then Take(t, files[0], dry, removable) else t;
      AgePass(files[1..], maxAge, deleteAll, dry, removable, t')
  }

  /** Reference: the files the age rule selects, in order. */
  function AgePicked(files: seq<LogFile>, maxAge: nat, deleteAll: bool): seq<LogFile>
    decreases |files|
  {
    if files == [] then []
    else (if AgeSelected(files[0], maxAge, deleteAll) then [files[0]] else [])
         + AgePicked(files[1..], maxAge, deleteAll)
  }

  /** Reference: the selected files whose removal succeeds, in order. */
  function AgeRemoved(files: seq<LogFile>, maxAge: nat, deleteAll: bool, removable: string -> bool): seq<LogFile>
    decreases |files|
  {
    if files == [] then []
    else (if AgeSelected(files[0], maxAge, deleteAll) && removable(files[0].path) then [files[0]] else [])
         + AgeRemoved(files[1..], maxAge, deleteAll, removable)
  }

  /** A real age pass removes exactly the selected files whose removal
      succeeds, in order, and lists nothing. */
  lemma {:induction false} AgePassRemoves(files: seq<LogFile>, maxAge: nat, deleteAll: bool,
                                          removable: string -> bool, t: Tally)
    ensures var r := AgePass(files, maxAge, deleteAll, false, removable, t);
            && r.wouldDelete == t.wouldDelete && r.wouldFree == t.wouldFree
            && r.deleted == t.deleted + AgeRemoved(files, maxAge, deleteAll, removable)
    decreases |files|
  {
    if files == [] {
      assert t.deleted + [] == t.deleted;
    } else {
      var t' := if AgeSelected(files[0], maxAge, deleteAll) then Take(t, files[0], false, removable) else t;
      AgePassRemoves(files[1..], maxAge, deleteAll, removable, t');
      Associative(t.deleted, [files[0]], AgeRemoved(files[1..], maxAge, deleteAll, removable));
    }
  }

  /** A dry age pass lists exactly the selected files, in order, and
      removes nothing. */
  lemma {:induction false} AgePassLists(files: seq<LogFile>, maxAge: nat, deleteAll: bool,
                                        removable: string -> bool, t: Tally)
    ensures var r := AgePass(files, maxAge, deleteAll, true, removable, t);
            && r.deleted == t.deleted && r.freed == t.freed
            && r.wouldDelete == t.wouldDelete + AgePicked(files, maxAge, deleteAll)
    decreases |files|
  {
    if files == [] {
      assert t.wouldDelete + [] == t.wouldDelete;
    } else {
      var t' := if AgeSelected(files[0], maxAge, deleteAll) then Take(t, files[0], true, removable) else t;
      AgePassLists(files[1..], maxAge, deleteAll, removable, t');
      Associative(t.wouldDelete, [files[0]], AgePicked(files[1..], maxAge, deleteAll));
    }
  }

  /** The files whose paths are not in `gone`, in order. */
  function Remaining(files: seq<LogFile>, gone: seq<string>): (r: seq<LogFile>)
    ensures forall f :: f in r ==> f in files && f.path !in gone
    ensures forall i :: 0 <= i < |files| && files[i].path !in gone ==> files[i] in r
    decreases |files|
  {
    if files == [] then []
    else (if files[0].path in gone then [] else [files[0]]) + Remaining(files[1..], gone)
  }

  /** What the size pass ends with: the tally and its running total. */
  datatype Swept = Swept(tally: Tally, total: int)

  /** The size pass over `queue`: before each file, stop if the running
      total is within the limit; otherwise act on the file. The total drops
      by a file's size when the file is removed and, if `lowerInDry`, when a
      dry run lists it. */
  function Sweep(queue: seq<LogFile>, total: int, limit: nat, dry: bool, lowerInDry: bool,
                 removable: string -> bool, t: Tally): (r: Swept)
    ensures Accounted(t) ==> Accounted(r.tally)
    decreases |queue|
  {
    if queue == [] || total <= limit then Swept(t, total)
    else
      var f := queue[0];
      var lowered := if dry then lowerInDry else removable(f.path);
      Sweep(queue[1..], if lowered then total - f.size else total, limit, dry, lowerInDry, removable,
            Take(t, f, dry, removable))
  }

  /** Reference: the leading files of `queue` that must go, one after the
      other, until the total is within the limit. */
  function Taken(queue: seq<LogFile>, total: int, limit: nat): (r: seq<LogFile>)
    ensures |r| <= |queue| && r == queue[..|r|]
    decreases |queue|
  {
    if queue == [] || total <= limit then []
    else [queue[0]] + Taken(queue[1..], total - queue[0].size, limit)
  }

  /** Taking files in turn reaches the limit whenever the queue holds enough
      bytes: in particular when the total is the queue's own size. */
  lemma {:induction false} TakenReachesLimit(queue: seq<LogFile>, total: int, limit: nat)
    requires total <= Sizes(queue) + limit
    ensures total - Sizes(Taken(queue, total, limit)) <= limit
    decreases |queue|
  {
    if queue != [] && total > limit {
      TakenReachesLimit(queue[1..], total - queue[0].size, limit);
    }
  }

  /** A real size pass in which every removal succeeds removes exactly the
      greedy prefix of its queue, and its total drops by their size. */
  lemma {:induction false} SweepRemovesTaken(queue: seq<LogFile>, total: int, limit: nat, lowerInDry: bool,
                                             removable: string -> bool, t: Tally)
    requires forall f :: f in queue ==> removable(f.path)
    ensures Sweep(queue, total, limit, false, lowerInDry, removable, t).tally.deleted
            == t.deleted + Taken(queue, total, limit)
    ensures Sweep(queue, total, limit, false, lowerInDry, removable, t).total
            == total - Sizes(Taken(queue, total, limit))
    decreases |queue|
  {
    if queue == [] || total <= limit {
      assert t.deleted + [] == t.deleted;
    } else {
      var f := queue[0];
      assert removable(f.path);
      var t' := Take(t, f, false, removable);
      assert t'.deleted == t.deleted + [f];
      assert forall g :: g in queue[1..] ==> removable(g.path);
      SweepRemovesTaken(queue[1..], total - f.size, limit, lowerInDry, removable, t');
      var rest := Taken(queue[1..], total - f.size, limit);
      assert Taken(queue, total, limit) == [f] + rest;
      assert Sweep(queue, total, limit, false, lowerInDry, removable, t)
             == Sweep(queue[1..], total - f.size, limit, false, lowerInDry, removable, t');
      Associative(t.deleted, [f], rest);
      assert Sizes([f] + rest) == f.size + Sizes(rest) by {
        assert ([f] + rest)[1..] == rest;
      }
    }
  }


  /** A dry size pass that lowers its total lists the same greedy prefix. */
  lemma {:induction false} SweepDryListsTaken(queue: seq<LogFile>, total: int, limit: nat,
                                              removable: string -> bool, t: Tally)
    ensures var r := Sweep(queue, total, limit, true, true, removable, t);
            && r.tally.wouldDelete == t.wouldDelete + Taken(queue, total, limit)
            && r.tally.deleted == t.deleted
    decreases |queue|
  {
    if queue == [] || total <= limit {
      assert t.wouldDelete + [] == t.wouldDelete;
    } else {
      var f := queue[0];
      SweepDryListsTaken(queue[1..], total - f.size, limit, removable, Take(t, f, true, removable));
      var rest := Taken(queue[1..], total - f.size, limit);
      Associative(t.wouldDelete, [f], rest);
    }
  }

  /** A dry size pass that never lowers its total lists either nothing or
      its whole queue. */
  lemma {:induction false} SweepDryListsAll(queue: seq<LogFile>, total: int, limit: nat,
                                            removable: string -> bool, t: Tally)
    ensures var r := Sweep(queue, total, limit, true, false, removable, t);
            && r.tally.wouldDelete == t.wouldDelete + (if total <= limit then [] else queue)
            && r.tally.deleted == t.deleted && r.tally.freed == t.freed
    decreases |queue|
  {
    if queue == [] || total <= limit {
      assert t.wouldDelete + [] == t.wouldDelete;
    } else {
      SweepDryListsAll(queue[1..], total, limit, removable, Take(t, queue[0], true, removable));
      Associative(t.wouldDelete, [queue[0]], queue[1..]);
      assert [queue[0]] + queue[1..] == queue;
    }
  }

  // ---------------------------------------------------------------------------
  // `cleanup` as written, and as its comments describe it.
  // ---------------------------------------------------------------------------

  /** With `delete_all` the age rule selects every file. */
  lemma {:induction false} AgePickedAll(files: seq<LogFile>, maxAge: nat)
    ensures AgePicked(files, maxAge, true) == files
    decreases |files|
  {
    if files != [] {
      AgePickedAll(files[1..], maxAge);
      assert files == [files[0]] + files[1..];
    }
  }

  /** The size pass as written: the files the age pass did not remove, in
      reverse of the oldest-first order (so newest first), against their
      total; a dry run never lowers the total. */
  function SizePass(sorted: seq<LogFile>, aged: Tally, limit: nat, dry: bool,
                    removable: string -> bool): (r: Swept)
    ensures Accounted(aged) ==> Accounted(r.tally)
  {
    var remaining := Remaining(sorted, Paths(aged.deleted));
    Sweep(Reverse(remaining), Sizes(remaining), limit, dry, false, removable, aged)
  }

  /** The decisions of `cleanup` on the files found: sort oldest first, run
      the age pass, then, when there is a size limit, the size pass. */
  function CleanupFiles(files: seq<LogFile>, maxAge: nat, limit: Option<nat>, deleteAll: bool, dry: bool,
                        removable: string -> bool): (t: Tally)
    ensures Accounted(t)
  {
    var sorted := SortOldestFirst(files);
    var aged := AgePass(sorted, maxAge, deleteAll, dry, removable, NoTally);
    match limit
    case None => aged
    case Some(l) => SizePass(sorted, aged, l, dry, removable).tally
  }

  /** A real size pass in which every removal succeeds ends within the
      limit, having removed the newest of the remaining files first. */
  lemma SizePassReachesLimit(sorted: seq<LogFile>, aged: Tally, limit: nat, removable: string -> bool)
    requires forall f :: f in sorted ==> removable(f.path)
    ensures var remaining := Remaining(sorted, Paths(aged.deleted));
            var r := SizePass(sorted, aged, limit, false, removable);
            && r.total <= limit
            && r.tally.deleted == aged.deleted + Taken(Reverse(remaining), Sizes(remaining), limit)
  {
    var remaining := Remaining(sorted, Paths(aged.deleted));
    var queue := Reverse(remaining);
    assert forall f :: f in queue ==> f in remaining;
    SweepRemovesTaken(queue, Sizes(remaining), limit, false, removable, aged);
    SizesReverse(remaining);
    TakenReachesLimit(queue, Sizes(remaining), limit);
  }

  /** Nothing filtered out leaves the list as it is. */
  lemma {:induction false} RemainingNone(files: seq<LogFile>)
    ensures Remaining(files, []) == files
    decreases |files|
  {
    if files != [] {
      RemainingNone(files[1..]);
      assert [files[0]] + files[1..] == files;
    }
  }

  /** A dry run as written: the age pass lists its picks, and the size pass,
      whose total never drops, lists every file (newest first, age picks
      again) as soon as the files exceed the limit. */
  lemma DryRunAsWritten(files: seq<LogFile>, maxAge: nat, limit: nat, deleteAll: bool, removable: string -> bool)
    ensures var sorted := SortOldestFirst(files);
            var t := CleanupFiles(files, maxAge, Some(limit), deleteAll, true, removable);
            && t.deleted == [] && t.freed == 0
            && t.wouldDelete == AgePicked(sorted, maxAge, deleteAll)
                                + (if Sizes(sorted) <= limit then [] else Reverse(sorted))
  {
    var sorted := SortOldestFirst(files);
    var aged := AgePass(sorted, maxAge, deleteAll, true, removable, NoTally);
    assert aged.deleted == [] && aged.freed == 0 && aged.wouldDelete == AgePicked(sorted, maxAge, deleteAll) by {
      AgePassLists(sorted, maxAge, deleteAll, removable, NoTally);
      assert NoTally.wouldDelete + AgePicked(sorted, maxAge, deleteAll) == AgePicked(sorted, maxAge, deleteAll);
    }
    SizePassDry(sorted, aged, limit, removable);
  }

  /** A dry size pass as written, after an age pass that removed nothing. */
  lemma SizePassDry(sorted: seq<LogFile>, aged: Tally, limit: nat, removable: string -> bool)
    requires aged.deleted == []
    ensures var t := SizePass(sorted, aged, limit, true, removable).tally;
            && t.deleted == [] && t.freed == aged.freed
            && t.wouldDelete == aged.wouldDelete + (if Sizes(sorted) <= limit then [] else Reverse(sorted))
  {
    assert Paths(aged.deleted) == [];
    RemainingNone(sorted);
    SizesReverse(sorted);
    SweepDryListsAll(Reverse(sorted), Sizes(sorted), limit, removable, aged);
  }


  /** The size pass as its comments describe it: the files neither removed
      nor listed by the age pass, oldest first, with a dry run lowering its
      total as a real run would. */
  function SizePassIntended(sorted: seq<LogFile>, aged: Tally, limit: nat, dry: bool,
                            removable: string -> bool): (r: Swept)
    ensures Accounted(aged) ==> Accounted(r.tally)
  {
    var remaining := Remaining(sorted, Paths(aged.deleted) + Paths(aged.wouldDelete));
    Sweep(remaining, Sizes(remaining), limit, dry, true, removable, aged)
  }

  /** `cleanup` with the intended size pass. */
  function CleanupFilesIntended(files: seq<LogFile>, maxAge: nat, limit: Option<nat>, deleteAll: bool, dry: bool,
                                removable: string -> bool): (t: Tally)
    ensures Accounted(t)
  {
    var sorted := SortOldestFirst(files);
    var aged := AgePass(sorted, maxAge, deleteAll, dry, removable, NoTally);
    match limit
    case None => aged
    case Some(l) => SizePassIntended(sorted, aged, l, dry, removable).tally
  }

  /** The intended size pass removes the oldest remaining files first and,
      when every removal succeeds, ends within the limit. */
  lemma SizePassIntendedOldestFirst(sorted: seq<LogFile>, aged: Tally, limit: nat, removable: string -> bool)
    requires forall f :: f in sorted ==> removable(f.path)
    ensures var remaining := Remaining(sorted, Paths(aged.deleted) + Paths(aged.wouldDelete));
            var r := SizePassIntended(sorted, aged, limit, false, removable);
            && r.total <= limit
            && r.tally.deleted == aged.deleted + Taken(remaining, Sizes(remaining), limit)
  {
    var remaining := Remaining(sorted, Paths(aged.deleted) + Paths(aged.wouldDelete));
    SweepRemovesTaken(remaining, Sizes(remaining), limit, true, removable, aged);
    TakenReachesLimit(remaining, Sizes(remaining), limit);
  }

  /** With every removal succeeding, the age pass removes all it selects. */
  lemma {:induction false} AgeRemovedAll(files: seq<LogFile>, maxAge: nat, deleteAll: bool, removable: string -> bool)
    requires forall f :: f in files ==> removable(f.path)
    ensures AgeRemoved(files, maxAge, deleteAll, removable) == AgePicked(files, maxAge, deleteAll)
    decreases |files|
  {
    if files != [] {
      assert files[0] in files;
      assert forall f :: f in files[1..] ==> f in files;
      AgeRemovedAll(files[1..], maxAge, deleteAll, removable);
    }
  }

  /** Intended behaviour: a dry run lists exactly what a real run in which
      every removal succeeds removes, and reports the same byte count. */
  lemma IntendedDryRunAgrees(files: seq<LogFile>, maxAge: nat, limit: Option<nat>, deleteAll: bool,
                             removable: string -> bool)
    requires forall f :: f in files ==> removable(f.path)
    ensures CleanupFilesIntended(files, maxAge, limit, deleteAll, true, removable).wouldDelete
            == CleanupFilesIntended(files, maxAge, limit, deleteAll, false, removable).deleted
    ensures CleanupFilesIntended(files, maxAge, limit, deleteAll, true, removable).wouldFree
            == CleanupFilesIntended(files, maxAge, limit, deleteAll, false, removable).freed
  {
    var sorted := SortOldestFirst(files);
    assert forall f :: f in sorted ==> f in multiset(files);
    var dryAged := AgePass(sorted, maxAge, deleteAll, true, removable, NoTally);
    var realAged := AgePass(sorted, maxAge, deleteAll, false, removable, NoTally);
    AgePassLists(sorted, maxAge, deleteAll, removable, NoTally);
    AgePassRemoves(sorted, maxAge, deleteAll, removable, NoTally);
    AgeRemovedAll(sorted, maxAge, deleteAll, removable);
    assert dryAged.wouldDelete == realAged.deleted;
    if limit.Some? {
      var l := limit.value;
      assert Paths(dryAged.deleted) + Paths(dryAged.wouldDelete) == Paths(realAged.deleted) + Paths(realAged.wouldDelete);
      var remaining := Remaining(sorted, Paths(realAged.deleted) + Paths(realAged.wouldDelete));
      SweepDryListsTaken(remaining, Sizes(remaining), l, removable, dryAged);
      SweepRemovesTaken(remaining, Sizes(remaining), l, true, removable, realAged);
    }
  }

  // ---------------------------------------------------------------------------
  // Options, sizes and the entry points.
  // ---------------------------------------------------------------------------

  const KiB := 1024
  const MiB := 1024 * 1024
  const GiB := 1024 * 1024 * 1024
  const U64Max := 0xFFFF_FFFF_FFFF_FFFF

  /** Rust's saturating float-to-`u64` cast, on an integer. */
  function Saturate(x: int): (r: nat)
    ensures r <= U64Max
    ensures 0 <= x <= U64Max ==> r == x
  {
    if x < 0 then 0 else if x > U64Max then U64Max else x
  }

  /** The number part of a size and its multiplier: a `G`/`GB`, `M`/`MB` or
      `K`/`KB` suffix (tested on the upper-cased text, in that order) is cut
      off with every repetition of it. */
  function SplitUnit(u: string): (string, nat) {
    if EndsWith(u, "G") || EndsWith(u, "GB") then (CutUnitOf(u, 'G'), GiB)
    else if EndsWith(u, "M") || EndsWith(u, "MB") then (CutUnitOf(u, 'M'), MiB)
    else if EndsWith(u, "K") || EndsWith(u, "KB") then (CutUnitOf(u, 'K'), KiB)
    else (u, 1)
  }

  /** Cutting a unit: every trailing `<c>B`, then every trailing `<c>`. */
  function CutUnitOf(u: string, c: char): string {
    TrimEndMatches(TrimEndMatches(u, [c] + "B"), [c])
  }

  /** `parse_size`: trim, upper-case, split off the unit, trim the number
      and read it; the product is cast to `u64` with saturation. */
  function ParseSize(s: string): (r: Option<nat>)
    ensures r.Some? ==> r.value <= U64Max
  {
    var (num, mult) := SplitUnit(Upper(Trim(s)));
    match ParseInteger(Trim(num))
    case None => None
    case Some(n) => Some(Saturate(n * mult))
  }

  /** The multiplier of a unit letter. */
  function Scale(c: char): nat {
    if c == 'K' then KiB else if c == 'M' then MiB else if c == 'G' then GiB else 1
  }

  /** Text without spaces at either end is left alone by trimming. */
  lemma TrimUnchanged(s: string)
    requires s == [] || (!IsSpace(s[0]) && !IsSpace(s[|s| - 1]))
    ensures Trim(s) == s
  {
  }

  /** Text whose last character differs from the suffix's is not trimmed. */
  lemma TrimNotEnding(d: string, p: string)
    requires |p| > 0 && (|d| > 0 ==> d[|d| - 1] != p[|p| - 1])
    ensures TrimEndMatches(d, p) == d
  {
    if |d| >= |p| {
      assert d[|d| - |p|..][|p| - 1] == d[|d| - 1];
    }
  }

  /** Trimming a suffix from text that ends with it. */
  lemma TrimSuffix(d: string, p: string)
    requires |p| > 0
    ensures TrimEndMatches(d + p, p) == TrimEndMatches(d, p)
  {
    assert EndsWith(d + p, p);
    assert (d + p)[..|d + p| - |p|] == d;
  }

  /** Whether text ends with a one- or two-letter suffix, by its last
      letters. */
  lemma EndsWithLetters(u: string, p: string)
    requires 1 <= |p| <= 2
    ensures |p| == 1 ==> (EndsWith(u, p) <==> |u| >= 1 && u[|u| - 1] == p[0])
    ensures |p| == 2 ==> (EndsWith(u, p) <==> |u| >= 2 && u[|u| - 2] == p[0] && u[|u| - 1] == p[1])
  {
    if |u| >= |p| {
      var tail := u[|u| - |p|..];
      assert |p| == 1 ==> tail == [u[|u| - 1]];
      assert |p| == 2 ==> tail == [u[|u| - 2], u[|u| - 1]];
    }
  }

  /** The number part left after cutting the unit. */
  lemma CutUnit(d: string, c: char, withB: bool)
    requires UnitLetter(c) && (|d| > 0 ==> d[|d| - 1] != c && d[|d| - 1] != 'B')
    ensures CutUnitOf(d + [c] + (if withB then "B" else ""), c) == d
  {
    if withB {
      assert d + [c] + "B" == d + ([c] + "B");
      CutPair(d, c);
    } else {
      assert d + [c] + "" == d + [c];
      CutSingle(d, c);
    }
  }

  lemma CutPair(d: string, c: char)
    requires UnitLetter(c) && (|d| > 0 ==> d[|d| - 1] != c && d[|d| - 1] != 'B')
    ensures CutUnitOf(d + ([c] + "B"), c) == d
  {
    TrimSuffix(d, [c] + "B");
    TrimNotEnding(d, [c] + "B");
    TrimNotEnding(d, [c]);
  }

  lemma CutSingle(d: string, c: char)
    requires UnitLetter(c) && (|d| > 0 ==> d[|d| - 1] != c && d[|d| - 1] != 'B')
    ensures CutUnitOf(d + [c], c) == d
  {
    TrimNotEnding(d + [c], [c] + "B");
    TrimSuffix(d, [c]);
    TrimNotEnding(d, [c]);
  }

  /** A unit letter other than `B` after a number. */
  predicate UnitLetter(c: char) {
    c == 'K' || c == 'M' || c == 'G'
  }

  /** The number part is empty or ends in a digit or a space. */
  predicate NumberEnd(d: string) {
    |d| > 0 ==> IsDigit(d[|d| - 1]) || d[|d| - 1] == ' '
  }

  /** Splitting a number followed by a unit letter and an optional `B`. */
  lemma SplitScaled(d: string, c: char, withB: bool)
    requires NumberEnd(d) && UnitLetter(c)
    ensures SplitUnit(d + [c] + (if withB then "B" else "")) == (d, Scale(c))
  {
    UnitBranchOf(d, c, withB);
    CutUnit(d, c, withB);
  }


  /** Which unit branch a number with a unit letter takes. */
  lemma UnitBranchOf(d: string, c: char, withB: bool)
    requires NumberEnd(d) && UnitLetter(c)
    ensures var u := d + [c] + (if withB then "B" else "");
            && (EndsWith(u, "G") || EndsWith(u, "GB") <==> c == 'G')
            && (EndsWith(u, "M") || EndsWith(u, "MB") <==> c == 'M')
            && (EndsWith(u, "K") || EndsWith(u, "KB") <==> c == 'K')
  {
    var u := d + [c] + (if withB then "B" else "");
    if withB {
      assert u[|u| - 1] == 'B' && u[|u| - 2] == c;
      if |d| > 0 {
        assert u[|u| - 3] == d[|d| - 1];
      }
    } else {
      assert u[|u| - 1] == c;
      if |d| > 0 {
        assert u[|u| - 2] == d[|d| - 1];
      }
    }
    EndsWithLetters(u, "G");
    EndsWithLetters(u, "GB");
    EndsWithLetters(u, "M");
    EndsWithLetters(u, "MB");
    EndsWithLetters(u, "K");
    EndsWithLetters(u, "KB");
  }

  /** A number followed by `K`, `KB`, `M`, `MB`, `G` or `GB`, with or
      without a space before the unit, is that many KiB, MiB or GiB; the
      product saturates at `u64::MAX`. */
  lemma ParseSizeScaled(n: nat, c: char, withB: bool, spaced: bool)
    requires UnitLetter(c)
    ensures ParseSize(Show(n) + (if spaced then " " else "") + [c] + (if withB then "B" else ""))
            == Some(Saturate(n * Scale(c)))
  {
    ShowValue(n);
    ParseDigitsScaled(Show(n), c, withB, spaced);
    assert WithUnit(Spaced(Show(n), spaced), c, withB)
           == Show(n) + (if spaced then " " else "") + [c] + (if withB then "B" else "");
  }

  /** A number, optionally followed by a space. */
  function Spaced(x: string, spaced: bool): string {
    x + (if spaced then " " else "")
  }

  /** A number part followed by a unit letter and an optional `B`. */
  function WithUnit(d: string, c: char, withB: bool): string {
    d + [c] + (if withB then "B" else "")
  }

  /** The same for any string of digits. */
  lemma ParseDigitsScaled(x: string, c: char, withB: bool, spaced: bool)
    requires |x| > 0 && AllDigits(x) && UnitLetter(c)
    ensures ParseSize(WithUnit(Spaced(x, spaced), c, withB)) == Some(Saturate(DigitsValue(x) * Scale(c)))
  {
    ScaledFacts(x, spaced, c, withB);
    ParseSizeFrom(WithUnit(Spaced(x, spaced), c, withB), Spaced(x, spaced), Scale(c), DigitsValue(x));
  }

  /** What `parse_size` sees in a number followed by a unit. */
  lemma ScaledFacts(x: string, spaced: bool, c: char, withB: bool)
    requires |x| > 0 && AllDigits(x) && UnitLetter(c)
    ensures Trim(WithUnit(Spaced(x, spaced), c, withB)) == WithUnit(Spaced(x, spaced), c, withB)
    ensures Upper(WithUnit(Spaced(x, spaced), c, withB)) == WithUnit(Spaced(x, spaced), c, withB)
    ensures SplitUnit(WithUnit(Spaced(x, spaced), c, withB)) == (Spaced(x, spaced), Scale(c))
    ensures ParseInteger(Trim(Spaced(x, spaced))) == Some(DigitsValue(x))
  {
    var d := Spaced(x, spaced);
    UnitTailAfter(x, spaced, c, withB);
    ScaledNormal(x, spaced, c, withB);
    SpacedNumber(x, spaced);
    SplitScaled(d, c, withB);
  }

  /** A unit tail after a number, spelt out. */
  lemma UnitTailAfter(x: string, spaced: bool, c: char, withB: bool)
    ensures x + UnitTail(spaced, c, withB)
            == x + (if spaced then " " else "") + [c] + (if withB then "B" else "")
  {
  }

  /** How `parse_size` reads text that is already trimmed and upper-case. */
  lemma ParseSizeFrom(s: string, num: string, mult: nat, n: int)
    requires Trim(s) == s
    requires Upper(s) == s
    requires SplitUnit(s) == (num, mult)
    requires ParseInteger(Trim(num)) == Some(n)
    ensures ParseSize(s) == Some(Saturate(n * mult))
  {
  }




  /** An optional space, a unit letter and an optional `B`. */
  function UnitTail(spaced: bool, c: char, withB: bool): string {
    (if spaced then " " else "") + [c] + (if withB then "B" else "")
  }

  /** A unit tail is upper-case and ends in a letter. */
  lemma UnitTailNormal(spaced: bool, c: char, withB: bool)
    requires UnitLetter(c)
    ensures var t := UnitTail(spaced, c, withB);
            |t| > 0 && Upper(t) == t && !IsSpace(t[|t| - 1])
  {
    var t := UnitTail(spaced, c, withB);
    assert forall i :: 0 <= i < |t| ==> t[i] == ' ' || t[i] == c || t[i] == 'B';
  }

  /** Digits, then a unit tail, are already trimmed and upper-case. */
  lemma ScaledNormal(d: string, spaced: bool, c: char, withB: bool)
    requires |d| > 0 && AllDigits(d) && UnitLetter(c)
    ensures var s := d + UnitTail(spaced, c, withB);
            Trim(s) == s && Upper(s) == s
  {
    var t := UnitTail(spaced, c, withB);
    var s := d + t;
    UnitTailNormal(spaced, c, withB);
    assert Upper(s) == s by {
      DigitsNormal(d);
      UpperAppend(d, t);
    }
    assert Trim(s) == s by {
      assert s[0] == d[0] && IsDigit(d[0]);
      assert s[|s| - 1] == t[|t| - 1];
      TrimUnchanged(s);
    }
  }

  /** Trimming the number part drops the space before the unit. */
  lemma SpacedNumber(d: string, spaced: bool)
    requires |d| > 0 && AllDigits(d)
    ensures var e := d + (if spaced then " " else "");
            NumberEnd(e) && Trim(e) == d
  {
    var e := d + (if spaced then " " else "");
    assert e[0] == d[0] && IsDigit(d[0]) && IsDigit(d[|d| - 1]);
    TrimUnchanged(d);
    if spaced {
      assert e[..|e| - 1] == d;
    } else {
      assert e == d;
    }
  }

  /** Units are read regardless of case. */
  lemma ParseSizeIgnoresCase(s: string)
    ensures ParseSize(Lower(s)) == ParseSize(s)
  {
    TrimStartLower(s);
    TrimEndLower(TrimStart(s));
    UpperLower(Trim(s));
  }

  /** A negative number saturates to zero bytes. */
  lemma ParseSizeNegative(n: nat)
    ensures ParseSize("-" + Show(n)) == Some(0)
  {
    MinusZero(Show(n));
    assert Minus(Show(n)) == "-" + Show(n);
  }

  /** A minus sign before a number. */
  function Minus(x: string): string {
    "-" + x
  }

  /** The same for any string of digits. */
  lemma {:induction false} MinusZero(x: string)
    requires |x| > 0 && AllDigits(x)
    ensures ParseSize(Minus(x)) == Some(0)
  {
    var d := Minus(x);
    MinusEnds(x);
    MinusTrim(x);
    MinusUpper(x);
    MinusParse(x);
    ParseSizeOfNonPositive(d, -(DigitsValue(x) as int));
  }

  /** Plain text of a number at most zero is zero bytes. */
  lemma ParseSizeOfNonPositive(d: string, n: int)
    requires |d| > 0 && IsDigit(d[|d| - 1])
    requires Trim(d) == d && Upper(d) == d
    requires ParseInteger(d) == Some(n) && n <= 0
    ensures ParseSize(d) == Some(0)
  {
    SaturateNonPositive(n);
    ParseSizeOfPlain(d, n);
  }

  /** The saturating cast sends every number at most zero to zero. */
  lemma SaturateNonPositive(n: int)
    requires n <= 0
    ensures Saturate(n) == 0
  {
  }

  /** Trimmed, upper-case text ending in a digit has no unit: it is parsed
      as a whole. */
  lemma ParseSizeOfPlain(d: string, n: int)
    requires |d| > 0 && IsDigit(d[|d| - 1])
    requires Trim(d) == d && Upper(d) == d
    requires ParseInteger(d) == Some(n)
    ensures ParseSize(d) == Some(Saturate(n))
  {
    NoUnit(d);
  }

  lemma MinusParse(x: string)
    requires |x| > 0 && AllDigits(x)
    ensures ParseInteger(Minus(x)) == Some(-(DigitsValue(x) as int))
  {
    MinusEnds(x);
  }

  lemma MinusEnds(x: string)
    requires |x| > 0 && AllDigits(x)
    ensures Minus(x)[1..] == x && Minus(x)[0] == '-' && IsDigit(Minus(x)[|Minus(x)| - 1])
  {
    assert Minus(x)[|Minus(x)| - 1] == x[|x| - 1];
  }

  lemma MinusTrim(x: string)
    requires |x| > 0 && AllDigits(x)
    ensures Trim(Minus(x)) == Minus(x)
  {
    MinusEnds(x);
    TrimUnchanged(Minus(x));
  }

  lemma MinusUpper(x: string)
    requires |x| > 0 && AllDigits(x)
    ensures Upper(Minus(x)) == Minus(x)
  {
    var d := Minus(x);
    forall i | 0 <= i < |d|
      ensures Upper(d)[i] == d[i]
    {
      if i == 0 {
        assert d[0] == '-';
      } else {
        assert d[i] == x[i - 1] && IsDigit(x[i - 1]);
      }
    }
  }




  /** Text with no number is rejected: empty or blank text, or a bare
      unit. */
  lemma ParseSizeRejects(blank: string, c: char, withB: bool)
    requires forall i :: 0 <= i < |blank| ==> IsSpace(blank[i])
    requires UnitLetter(c)
    ensures ParseSize(blank) == None
    ensures ParseSize(WithUnit("", c, withB)) == None
  {
    BlankTrims(blank);
    ParseSizeFails(blank, [], 1);
    BareNormal(c, withB);
    SplitBare(c, withB);
    ParseSizeFails(WithUnit("", c, withB), [], Scale(c));
  }

  /** A bare unit is already trimmed and upper-case. */
  lemma BareNormal(c: char, withB: bool)
    requires UnitLetter(c)
    ensures Upper(Trim(WithUnit("", c, withB))) == WithUnit("", c, withB)
  {
    var u := WithUnit("", c, withB);
    UnitTailNormal(false, c, withB);
    assert u == UnitTail(false, c, withB);
    TrimUnchanged(u);
  }

  /** Text in which no character is a decimal digit. */
  predicate NoDigit(s: string) {
    forall i :: 0 <= i < |s| ==> !IsDigit(s[i])
  }

  /** Text without a single decimal digit is never a size, whatever units
      or signs it carries. */
  lemma ParseSizeWithoutDigits(s: string)
    requires NoDigit(s)
    ensures ParseSize(s) == None
  {
    NoDigitTrim(s);
    NoDigitUpper(Trim(s));
    var (num, mult) := SplitUnit(Upper(Trim(s)));
    NoDigitSplit(Upper(Trim(s)));
    NoDigitTrim(num);
    NoDigitNoInteger(Trim(num));
  }

  lemma NoDigitTrim(s: string)
    requires NoDigit(s)
    ensures NoDigit(Trim(s))
  {
    var t := TrimStart(s);
    assert forall i :: 0 <= i < |t| ==> t[i] == s[|s| - |t| + i];
  }

  lemma NoDigitUpper(s: string)
    requires NoDigit(s)
    ensures NoDigit(Upper(s))
  {
  }

  lemma NoDigitSplit(u: string)
    requires NoDigit(u)
    ensures NoDigit(SplitUnit(u).0)
  {
    var num := SplitUnit(u).0;
    assert num == u[..|num|];
  }

  lemma NoDigitNoInteger(m: string)
    requires NoDigit(m)
    ensures ParseInteger(m).None?
  {
  }

  /** How `parse_size` rejects text whose number part does not parse. */
  lemma ParseSizeFails(s: string, num: string, mult: nat)
    requires SplitUnit(Upper(Trim(s))) == (num, mult) && ParseInteger(Trim(num)).None?
    ensures ParseSize(s) == None
  {
  }


  /** Blank text trims to nothing. */
  lemma {:induction false} BlankTrims(blank: string)
    requires forall i :: 0 <= i < |blank| ==> IsSpace(blank[i])
    ensures TrimStart(blank) == []
    decreases |blank|
  {
    if blank != [] {
      BlankTrims(blank[1..]);
    }
  }

  /** A bare unit leaves an empty number part. */
  lemma SplitBare(c: char, withB: bool)
    requires UnitLetter(c)
    ensures SplitUnit(WithUnit("", c, withB)) == ("", Scale(c))
  {
    SplitScaled("", c, withB);
  }


  /** A number with no unit letter after it is not split. */
  lemma NoUnit(d: string)
    requires |d| > 0 && IsDigit(d[|d| - 1])
    ensures SplitUnit(d) == (d, 1)
  {
    EndsWithLetters(d, "G");
    EndsWithLetters(d, "GB");
    EndsWithLetters(d, "M");
    EndsWithLetters(d, "MB");
    EndsWithLetters(d, "K");
    EndsWithLetters(d, "KB");
  }

  /** Digits are already trimmed and upper-case. */
  lemma DigitsNormal(d: string)
    requires |d| > 0 && AllDigits(d)
    ensures Trim(d) == d && Upper(d) == d
  {
    assert IsDigit(d[0]) && IsDigit(d[|d| - 1]);
    TrimUnchanged(d);
    assert forall i :: 0 <= i < |d| ==> Upper(d)[i] == d[i] by {
      forall i | 0 <= i < |d| ensures Upper(d)[i] == d[i] {
        assert IsDigit(d[i]);
      }
    }
  }


  /** A bare number is a count of bytes. */
  lemma ParseSizeBytes(n: nat)
    ensures ParseSize(Show(n)) == Some(Saturate(n))
  {
    var d := Show(n);
    DigitsNormal(d);
    NoUnit(d);
    ParseShow(n);
  }



  /** The maximum age: the option, else the configured one. */
  datatype CleanupOptions = CleanupOptions(maxAgeDays: Option<nat>, maxTotalSize: Option<string>,
                                           deleteAll: bool, dryRun: bool)

  function MaxAge(options: CleanupOptions, retention: RetentionConfig): (r: nat)
    ensures options.maxAgeDays.Some? ==> r == options.maxAgeDays.value
    ensures options.maxAgeDays.None? ==> r == retention.maxAgeDays
  {
    options.maxAgeDays.GetOr(retention.maxAgeDays)
  }

  /** The size limit: the option's text if given, else the configured text,
      then parsed. An option that does not parse means no limit; it does not
      fall back to the configured one. */
  function SizeLimit(options: CleanupOptions, retention: RetentionConfig): (r: Option<nat>)
    ensures options.maxTotalSize.Some? ==> r == ParseSize(options.maxTotalSize.value)
    ensures options.maxTotalSize.None? && retention.maxTotalSize.Some? ==> r == ParseSize(retention.maxTotalSize.value)
    ensures options.maxTotalSize.None? && retention.maxTotalSize.None? ==> r.None?
  {
    var text := if options.maxTotalSize.Some? then options.maxTotalSize else retention.maxTotalSize;
    match text
    case None => None
    case Some(t) => ParseSize(t)
  }

  datatype CleanupResult = CleanupResult(deleted: seq<string>, freed: nat, wouldDelete: seq<string>, wouldFree: nat)

  function Report(t: Tally): (r: CleanupResult)
    ensures r.deleted == Paths(t.deleted) && r.wouldDelete == Paths(t.wouldDelete)
    ensures r.freed == t.freed && r.wouldFree == t.wouldFree
  {
    CleanupResult(Paths(t.deleted), t.freed, Paths(t.wouldDelete), t.wouldFree)
  }

  const HomeError := "Could not find home dir"

  /** `resolve_base_dir`: a directory starting with `~` has every `~`
      replaced by the home directory, which must be known. */
  function ResolveBaseDir(baseDir: string, home: Option<string>): (r: Result<string, string>)
    ensures !StartsWith(baseDir, "~") ==> r == Success(baseDir)
    ensures StartsWith(baseDir, "~") && home.None? ==> r == Failure(HomeError)
    ensures StartsWith(baseDir, "~") && home.Some? ==> r == Success(SubstChar(baseDir, '~', home.value))
  {
    match PathBuf.ExpandHome(baseDir, home)
    case None => Failure(HomeError)
    case Some(dir) => Success(dir)
  }

  /** `cleanup`. `present` and `walk` stand for the base directory test and
      the recursive collection of `.log` files; `prune` for the removal of
      empty directories after a real run. */
  function Cleanup(baseDir: string, home: Option<string>, retention: RetentionConfig, options: CleanupOptions,
                   present: string -> bool, walk: string -> Result<seq<LogFile>, string>,
                   removable: string -> bool, prune: string -> Option<string>): (r: Result<CleanupResult, string>)
    ensures ResolveBaseDir(baseDir, home).Failure? ==> r == Failure(HomeError)
    ensures ResolveBaseDir(baseDir, home).Success? ==>
              var dir := ResolveBaseDir(baseDir, home).value;
              && (present(dir) && walk(dir).Failure? ==> r == Failure(walk(dir).error))
              && (!options.dryRun && prune(dir).Some? && (!present(dir) || walk(dir).Success?) ==> r == Failure(prune(dir).value))
              && ((!present(dir) || walk(dir).Success?) && (options.dryRun || prune(dir).None?) ==> r.Success?)
    ensures r.Success? && options.dryRun ==> r.value.deleted == [] && r.value.freed == 0
    ensures r.Success? && !options.dryRun ==> r.value.wouldDelete == [] && r.value.wouldFree == 0
    ensures r.Success? ==>
              var dir := ResolveBaseDir(baseDir, home).value;
              var files := if present(dir) then walk(dir).value else [];
              r.value == Report(CleanupFiles(files, MaxAge(options, retention), SizeLimit(options, retention),
                                             options.deleteAll, options.dryRun, removable))
  {
    var dir :- ResolveBaseDir(baseDir, home);
    var files :- if present(dir) then walk(dir) else Success([]);
    var t := CleanupFiles(files, MaxAge(options, retention), SizeLimit(options, retention),
                          options.deleteAll, options.dryRun, removable);
    CleanupSeparatesDryRun(files, MaxAge(options, retention), SizeLimit(options, retention),
                           options.deleteAll, options.dryRun, removable);
    if !options.dryRun && prune(dir).Some? then Failure(prune(dir).value)
    else Success(Report(t))
  }

  /** A dry run removes nothing; a real run lists nothing. */
  lemma CleanupSeparatesDryRun(files: seq<LogFile>, maxAge: nat, limit: Option<nat>, deleteAll: bool, dry: bool,
                               removable: string -> bool)
    ensures var t := CleanupFiles(files, maxAge, limit, deleteAll, dry, removable);
            (dry ==> t.deleted == []) && (!dry ==> t.wouldDelete == [])
  {
    var sorted := SortOldestFirst(files);
    var aged := AgePass(sorted, maxAge, deleteAll, dry, removable, NoTally);
    if dry {
      AgePassLists(sorted, maxAge, deleteAll, removable, NoTally);
      if limit.Some? {
        var remaining := Remaining(sorted, Paths(aged.deleted));
        SweepDryListsAll(Reverse(remaining), Sizes(remaining), limit.value, removable, aged);
      }
    } else {
      AgePassRemoves(sorted, maxAge, deleteAll, removable, NoTally);
      if limit.Some? {
        var remaining := Remaining(sorted, Paths(aged.deleted));
        SweepRealListsNothing(Reverse(remaining), Sizes(remaining), limit.value, removable, aged);
      }
    }
  }

  /** A real size pass lists nothing. */
  lemma {:induction false} SweepRealListsNothing(queue: seq<LogFile>, total: int, limit: nat,
                                                 removable: string -> bool, t: Tally)
    ensures Sweep(queue, total, limit, false, false, removable, t).tally.wouldDelete == t.wouldDelete
    decreases |queue|
  {
    if queue != [] && total > limit {
      var f := queue[0];
      SweepRealListsNothing(queue[1..], if removable(f.path) then total - f.size else total, limit, removable,
                            Take(t, f, false, removable));
    }
  }

  /** What `stats` reports: the number and total size of the files, the
      paths of the oldest and newest, and the files as found. */
  datatype LogStats = LogStats(totalFiles: nat, totalSize: nat, oldest: Option<string>, newest: Option<string>,
                               byAge: seq<LogFile>)

  /** `max_by_key` on age: the last of the oldest files. */
  function LastOldest(fs: seq<LogFile>): (k: nat)
    requires |fs| > 0
    ensures k < |fs|
    ensures forall j :: 0 <= j < |fs| ==> fs[j].age <= fs[k].age
    ensures forall j :: k < j < |fs| ==> fs[j].age < fs[k].age
    decreases |fs|
  {
    if |fs| == 1 then 0
    else
      var k := LastOldest(fs[..|fs| - 1]);
      if fs[|fs| - 1].age >= fs[k].age then |fs| - 1 else k
  }

  /** `min_by_key` on age: the first of the newest files. */
  function FirstNewest(fs: seq<LogFile>): (k: nat)
    requires |fs| > 0
    ensures k < |fs|
    ensures forall j :: 0 <= j < |fs| ==> fs[j].age >= fs[k].age
    ensures forall j :: 0 <= j < k ==> fs[j].age > fs[k].age
    decreases |fs|
  {
    if |fs| == 1 then 0
    else
      var k := FirstNewest(fs[..|fs| - 1]);
      if fs[|fs| - 1].age < fs[k].age then |fs| - 1 else k
  }

  /** `stats`: a missing base directory gives all zeros; otherwise the
      counts of the files found, with the oldest and newest named. */
  function Stats(baseDir: string, home: Option<string>, present: string -> bool,
                 walk: string -> Result<seq<LogFile>, string>): (r: Result<LogStats, string>)
    ensures ResolveBaseDir(baseDir, home).Failure? ==> r == Failure(HomeError)
    ensures ResolveBaseDir(baseDir, home).Success? ==>
              var dir := ResolveBaseDir(baseDir, home).value;
              && (!present(dir) ==> r == Success(LogStats(0, 0, None, None, [])))
              && (present(dir) && walk(dir).Failure? ==> r == Failure(walk(dir).error))
              && (present(dir) && walk(dir).Success? ==>
                    var fs := walk(dir).value;
                    && r.Success? && r.value.byAge == fs
                    && (fs != [] ==> r.value.oldest == Some(fs[LastOldest(fs)].path)
                                     && r.value.newest == Some(fs[FirstNewest(fs)].path)))
    ensures r.Success? ==>
              && r.value.totalFiles == |r.value.byAge|
              && r.value.totalSize == Sizes(r.value.byAge)
              && (r.value.oldest.None? <==> r.value.byAge == [])
              && (r.value.newest.None? <==> r.value.byAge == [])
              && (r.value.byAge != [] ==>
                    var fs := r.value.byAge;
                    && (exists k :: 0 <= k < |fs| && r.value.oldest == Some(fs[k].path)
                                    && (forall j :: 0 <= j < |fs| ==> fs[j].age <= fs[k].age))
                    && (exists k :: 0 <= k < |fs| && r.value.newest == Some(fs[k].path)
                                    && (forall j :: 0 <= j < |fs| ==> fs[j].age >= fs[k].age)))
  {
    var dir :- ResolveBaseDir(baseDir, home);
    if !present(dir) then Success(LogStats(0, 0, None, None, []))
    else
      var files :- walk(dir);
      if files == [] then Success(LogStats(0, 0, None, None, []))
      else
        var o := LastOldest(files);
        var n := FirstNewest(files);
        Success(LogStats(|files|, Sizes(files), Some(files[o].path), Some(files[n].path), files))
  }
  /** A dry run with `delete_all` and no size limit lists every file found,
      oldest first, and would free their total size; it removes nothing. */
  lemma DeleteAllDryRun(files: seq<LogFile>, maxAge: nat, removable: string -> bool)
    ensures var t := CleanupFiles(files, maxAge, None, true, true, removable);
            && t.deleted == [] && multiset(t.wouldDelete) == multiset(files) && t.wouldFree == Sizes(files)
  {
    var sorted := SortOldestFirst(files);
    AgePassLists(sorted, maxAge, true, removable, NoTally);
    AgePickedAll(sorted, maxAge);
    assert [] + sorted == sorted;
    SizesPermutation(sorted, files);
  }

  /** `stats` and `cleanup` see the same files: a dry run with `delete_all`
      and no size limit would delete as many files as `stats` counts and free
      exactly the total size it reports. */
  lemma StatsAgreesWithDryRun(baseDir: string, home: Option<string>, retention: RetentionConfig,
                              present: string -> bool, walk: string -> Result<seq<LogFile>, string>,
                              removable: string -> bool, prune: string -> Option<string>)
    requires retention.maxTotalSize.None?
    requires Stats(baseDir, home, present, walk).Success?
    ensures var st := Stats(baseDir, home, present, walk).value;
            var c := Cleanup(baseDir, home, retention, CleanupOptions(None, None, true, true),
                             present, walk, removable, prune);
            && c.Success? && c.value.deleted == []
            && |c.value.wouldDelete| == st.totalFiles && c.value.wouldFree == st.totalSize
  {
    var dir := ResolveBaseDir(baseDir, home).value;
    var files := if present(dir) then walk(dir).value else [];
    var options := CleanupOptions(None, None, true, true);
    DeleteAllDryRun(files, MaxAge(options, retention), removable);
    var t := CleanupFiles(files, MaxAge(options, retention), None, true, true, removable);
    assert |t.wouldDelete| == |multiset(t.wouldDelete)| == |multiset(files)| == |files|;
  }


  // ---------------------------------------------------------------------------
  // The two discrepancies, on concrete files.
  // ---------------------------------------------------------------------------

  /** Every removal succeeds. */
  predicate Succeeds(path: string) {
    true
  }

  /** Three ten-byte files, from newest to oldest, none past the age limit. */
  predicate ThreeWithinAge(n: LogFile, m: LogFile, o: LogFile, maxAge: nat) {
    && n.age < m.age < o.age <= maxAge
    && n.size == 10 && m.size == 10 && o.size == 10
  }

  lemma ReverseTwo(a: LogFile, b: LogFile)
    ensures Reverse([a, b]) == [b, a]
  {
    var r := Reverse([a, b]);
    assert r[0] == b && r[1] == a;
  }

  lemma ReverseThree(a: LogFile, b: LogFile, c: LogFile)
    ensures Reverse([a, b, c]) == [c, b, a]
  {
    var r := Reverse([a, b, c]);
    assert r[0] == c && r[1] == b && r[2] == a;
  }

  /** How the reference passes treat those three files. */
  lemma ThreeFiles(n: LogFile, m: LogFile, o: LogFile, maxAge: nat, dry: bool)
    requires ThreeWithinAge(n, m, o, maxAge)
    ensures SortOldestFirst([n, m, o]) == [o, m, n]
    ensures Sizes([o, m, n]) == 30
    ensures Reverse([o, m, n]) == [n, m, o]
    ensures AgePass([o, m, n], maxAge, false, dry, Succeeds, NoTally) == NoTally
    ensures AgePicked([o, m, n], maxAge, false) == []
    ensures Taken([n, m, o], 30, 15) == [n, m]
    ensures Taken([o, m, n], 30, 15) == [o, m]
  {
    ThreeSorted(n, m, o);
    ReverseThree(o, m, n);
    ThreeAged(o, m, n, maxAge, dry);
    ThreeTaken(n, m, o);
    ThreeTaken(o, m, n);
  }

  lemma ThreeAged(a: LogFile, b: LogFile, c: LogFile, maxAge: nat, dry: bool)
    requires a.age <= maxAge && b.age <= maxAge && c.age <= maxAge
    requires a.size == 10 && b.size == 10 && c.size == 10
    ensures Sizes([a, b, c]) == 30
    ensures AgePass([a, b, c], maxAge, false, dry, Succeeds, NoTally) == NoTally
    ensures AgePicked([a, b, c], maxAge, false) == []
  {
    var q := [a, b, c];
    assert q[1..] == [b, c] && q[1..][1..] == [c] && [c][1..] == [];
    assert Sizes([c]) == 10;
    assert AgePass([c], maxAge, false, dry, Succeeds, NoTally) == NoTally;
    assert AgePass(q[1..], maxAge, false, dry, Succeeds, NoTally) == NoTally;
    assert AgePicked([c], maxAge, false) == [];
    assert AgePicked(q[1..], maxAge, false) == [];
  }

  lemma ThreeSorted(n: LogFile, m: LogFile, o: LogFile)
    requires n.age < m.age < o.age
    ensures SortOldestFirst([n, m, o]) == [o, m, n]
  {
    var fs := [n, m, o];
    assert fs[1..] == [m, o];
    assert SortOldestFirst([m, o]) == [o, m] by {
      assert [m, o][1..] == [o] && [o][1..] == [];
      assert SortOldestFirst([o]) == [o];
    }
    assert Insert(n, [o, m]) == [o, m, n] by {
      assert [o, m][1..] == [m] && [m][1..] == [];
      assert Insert(n, [m]) == [m, n];
    }
  }

  lemma ThreeTaken(a: LogFile, b: LogFile, c: LogFile)
    requires a.size == 10 && b.size == 10 && c.size == 10
    ensures Taken([a, b, c], 30, 15) == [a, b]
  {
    var q := [a, b, c];
    assert q[1..] == [b, c] && q[1..][1..] == [c];
    assert Taken([c], 10, 15) == [];
    assert Taken(q[1..], 20, 15) == [b];
  }

  /** Three ten-byte files within the age limit against a fifteen-byte
      limit: as written, the size pass removes the two newest. */
  lemma SizePassOrder(n: LogFile, m: LogFile, o: LogFile, maxAge: nat)
    requires ThreeWithinAge(n, m, o, maxAge)
    ensures CleanupFiles([n, m, o], maxAge, Some(15), false, false, Succeeds).deleted == [n, m]
  {
    var q := [o, m, n];
    ThreeFiles(n, m, o, maxAge, false);
    assert CleanupFiles([n, m, o], maxAge, Some(15), false, false, Succeeds)
           == SizePass(q, NoTally, 15, false, Succeeds).tally;
    assert Remaining(q, Paths(NoTally.deleted)) == q by {
      assert Paths(NoTally.deleted) == [];
      RemainingNone(q);
    }
    SizePassReachesLimit(q, NoTally, 15, Succeeds);
    assert [] + [n, m] == [n, m];
  }

  /** The same files with the intended size pass: the two oldest go. */
  lemma SizePassOrderIntended(n: LogFile, m: LogFile, o: LogFile, maxAge: nat)
    requires ThreeWithinAge(n, m, o, maxAge)
    ensures CleanupFilesIntended([n, m, o], maxAge, Some(15), false, false, Succeeds).deleted == [o, m]
  {
    var q := [o, m, n];
    ThreeFiles(n, m, o, maxAge, false);
    assert CleanupFilesIntended([n, m, o], maxAge, Some(15), false, false, Succeeds)
           == SizePassIntended(q, NoTally, 15, false, Succeeds).tally;
    assert Remaining(q, Paths(NoTally.deleted) + Paths(NoTally.wouldDelete)) == q by {
      assert Paths([]) + Paths([]) == [];
      RemainingNone(q);
    }
    SizePassIntendedOldestFirst(q, NoTally, 15, Succeeds);
    assert [] + [o, m] == [o, m];
  }

  /** The same files in a dry run as written: every file is listed, while a
      real run removes two. */
  lemma DryRunOverstates(n: LogFile, m: LogFile, o: LogFile, maxAge: nat)
    requires ThreeWithinAge(n, m, o, maxAge)
    ensures CleanupFiles([n, m, o], maxAge, Some(15), false, true, Succeeds).wouldDelete == [n, m, o]
  {
    ThreeFiles(n, m, o, maxAge, true);
    DryRunAsWritten([n, m, o], maxAge, 15, false, Succeeds);
    assert [] + [n, m, o] == [n, m, o];
  }

  /** As intended, the dry run lists what the real run removes. */
  lemma DryRunOverstatesIntended(n: LogFile, m: LogFile, o: LogFile, maxAge: nat)
    requires ThreeWithinAge(n, m, o, maxAge)
    ensures CleanupFilesIntended([n, m, o], maxAge, Some(15), false, true, Succeeds).wouldDelete == [o, m]
  {
    SizePassOrderIntended(n, m, o, maxAge);
    IntendedDryRunAgrees([n, m, o], maxAge, Some(15), false, Succeeds);
  }

  /** How the reference passes treat a stale file followed by a young one. */
  lemma TwoFiles(stale: LogFile, young: LogFile, maxAge: nat)
    requires young.age <= maxAge < stale.age
    ensures SortOldestFirst([stale, young]) == [stale, young]
    ensures AgePicked([stale, young], maxAge, false) == [stale]
    ensures Sizes([stale, young]) == stale.size + young.size
    ensures stale.path != young.path ==> Remaining([stale, young], [stale.path]) == [young]
  {
    var q := [stale, young];
    assert q[1..] == [young] && [young][1..] == [];
    assert SortOldestFirst([young]) == [young];
    assert AgePicked([young], maxAge, false) == [];
    assert Sizes([young]) == young.size;
    assert stale.path != young.path ==> Remaining([young], [stale.path]) == [young];
  }

  /** A file past the age limit and one within it whose sizes together
      exceed the limit, in a dry run as written: the stale file is listed
      twice. */
  lemma DryRunRelists(stale: LogFile, young: LogFile, maxAge: nat, limit: nat)
    requires young.age <= maxAge < stale.age
    requires stale.size + young.size > limit
    ensures CleanupFiles([stale, young], maxAge, Some(limit), false, true, Succeeds).wouldDelete
            == [stale, young, stale]
  {
    TwoFiles(stale, young, maxAge);
    ReverseTwo(stale, young);
    DryRunAsWritten([stale, young], maxAge, limit, false, Succeeds);
    assert [stale] + [young, stale] == [stale, young, stale];
  }

  /** As intended, each of the two files is listed at most once: the stale
      one by age, the other when it alone exceeds the limit. */
  lemma DryRunRelistsIntended(stale: LogFile, young: LogFile, maxAge: nat, limit: nat)
    requires young.age <= maxAge < stale.age
    requires stale.path != young.path
    ensures CleanupFilesIntended([stale, young], maxAge, Some(limit), false, true, Succeeds).wouldDelete
            == [stale] + (if young.size > limit then [young] else [])
  {
    var q := [stale, young];
    TwoFiles(stale, young, maxAge);
    var aged := AgePass(q, maxAge, false, true, Succeeds, NoTally);
    TwoAgedDry(stale, young, maxAge);
    TwoSizedDry(stale, young, aged, limit);
    assert CleanupFilesIntended(q, maxAge, Some(limit), false, true, Succeeds)
           == SizePassIntended(q, aged, limit, true, Succeeds).tally;
  }

  /** The dry age pass over the two files lists the stale one only. */
  lemma TwoAgedDry(stale: LogFile, young: LogFile, maxAge: nat)
    requires young.age <= maxAge < stale.age
    ensures var aged := AgePass([stale, young], maxAge, false, true, Succeeds, NoTally);
            aged.wouldDelete == [stale] && aged.deleted == []
  {
    TwoFiles(stale, young, maxAge);
    AgePassLists([stale, young], maxAge, false, Succeeds, NoTally);
  }

  /** The intended dry size pass after it lists the young file exactly when
      it alone exceeds the limit. */
  lemma TwoSizedDry(stale: LogFile, young: LogFile, aged: Tally, limit: nat)
    requires stale.path != young.path
    requires aged.wouldDelete == [stale] && aged.deleted == []
    ensures SizePassIntended([stale, young], aged, limit, true, Succeeds).tally.wouldDelete
            == [stale] + (if young.size > limit then [young] else [])
  {
    var q := [stale, young];
    assert q[1..] == [young] && [young][1..] == [];
    assert Paths(aged.deleted) + Paths(aged.wouldDelete) == [stale.path] by {
      assert Paths(aged.deleted) == [];
      assert Paths(aged.wouldDelete) == [stale.path];
    }
    assert Remaining(q, [stale.path]) == [young] by {
      assert Remaining([young], [stale.path]) == [young];
    }
    assert Sizes([young]) == young.size;
    assert Taken([young], young.size, limit) == if young.size > limit then [young] else [];
    SweepDryListsTaken([young], young.size, limit, Succeeds, aged);
  }

}
