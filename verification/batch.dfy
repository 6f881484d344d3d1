/** The batch driver of `src/cli/commands/apply.rs` (identical in
    `crates/hi_cli/src/commands/apply.rs`), and the same loop in
    `cook_db` of `crates/kitchn_cli/src/main.rs`: every listed item is applied
    in order, ignored ones are counted and skipped, hook failures are counted,
    and a hard error stops the batch. Applying one item is a parameter. */
module Batch {
  import opened Wrappers

  /** How a batch ends: nothing to apply, stopped by an error, or finished
      with its counters and whether the summary is a warning. */
  datatype Outcome =
    | NothingToApply
    | Aborted(error: string)
    | Finished(total: nat, skipped: nat, applied: nat, hookFailures: nat, warned: bool)

  /** The items handed to `apply`, in order, and how the batch ended. */
  datatype BatchRun<T> = BatchRun(attempted: seq<T>, outcome: Outcome)

  /** The items that are not ignored, in order. */
  function Eligible<T>(items: seq<T>, ignored: T -> bool): (r: seq<T>)
    ensures |r| <= |items|
    ensures forall x :: x in r ==> !ignored(x)
  {
    if items == [] then []
    else Eligible(items[..|items| - 1], ignored)
         + (if ignored(items[|items| - 1]) then [] else [items[|items| - 1]])
  }

  /** How many items are ignored. */
  function CountIgnored<T>(items: seq<T>, ignored: T -> bool): (n: nat)
    ensures n + |Eligible(items, ignored)| == |items|
  {
    if items == [] then 0
    else CountIgnored(items[..|items| - 1], ignored) + (if ignored(items[|items| - 1]) then 1 else 0)
  }

  /** How many eligible items report a failed hook (`Ok(false)`). */
  function CountHookFailures<T>(items: seq<T>, ignored: T -> bool, apply: T -> Result<bool, string>): (n: nat)
    ensures n <= |Eligible(items, ignored)|
  {
    if items == [] then 0
    else CountHookFailures(items[..|items| - 1], ignored, apply)
         + (if !ignored(items[|items| - 1]) && apply(items[|items| - 1]) == Success(false) then 1 else 0)
  }

  /** Every eligible item applies without a hard error. */
  predicate NoHardError<T>(items: seq<T>, ignored: T -> bool, apply: T -> Result<bool, string>) {
    forall i :: 0 <= i < |items| && !ignored(items[i]) ==> apply(items[i]).Success?
  }

  /** Item `k` is the first eligible item that fails hard. */
  predicate FirstHardError<T>(items: seq<T>, ignored: T -> bool, apply: T -> Result<bool, string>, k: int) {
    && 0 <= k < |items|
    && !ignored(items[k])
    && apply(items[k]).Failure?
    && NoHardError(items[..k], ignored, apply)
  }

  /** There is at most one first hard error. */
  lemma FirstHardErrorUnique<T>(items: seq<T>, ignored: T -> bool, apply: T -> Result<bool, string>, k: int, k': int)
    requires FirstHardError(items, ignored, apply, k) && FirstHardError(items, ignored, apply, k')
    ensures k == k'
  {
  }

  /** A list with a hard error has a first one. */
  lemma {:induction false} HardErrorHasFirst<T>(items: seq<T>, ignored: T -> bool, apply: T -> Result<bool, string>)
    requires !NoHardError(items, ignored, apply)
    ensures exists k :: FirstHardError(items, ignored, apply, k)
    decreases |items|
  {
    var n := |items| - 1;
    var init := items[..n];
    if NoHardError(init, ignored, apply) {
      assert FirstHardError(items, ignored, apply, n);
    } else {
      HardErrorHasFirst(init, ignored, apply);
      var k :| FirstHardError(init, ignored, apply, k);
      assert init[..k] == items[..k];
      assert FirstHardError(items, ignored, apply, k);
    }
  }

  /** `execute`: an empty list is reported and nothing runs; otherwise each
      item is skipped if ignored or applied, the first hard error ends the
      batch, and the summary warns exactly when some hook failed. */
  method Execute<T>(items: seq<T>, ignored: T -> bool, apply: T -> Result<bool, string>)
    returns (r: BatchRun<T>)
    ensures items == [] ==> r == BatchRun([], NothingToApply)
    ensures items != [] ==> !r.outcome.NothingToApply?
    ensures items != [] && NoHardError(items, ignored, apply) ==>
              var skipped := CountIgnored(items, ignored);
              var failures := CountHookFailures(items, ignored, apply);
              && r.attempted == Eligible(items, ignored)
              && r.outcome == Finished(|items|, skipped, |items| - skipped, failures, failures > 0)
    ensures r.outcome.Aborted? ==>
              exists k :: 0 <= k < |items| && !ignored(items[k]) && apply(items[k]) == Failure(r.outcome.error)
                          && NoHardError(items[..k], ignored, apply)
                          && r.attempted == Eligible(items[..k + 1], ignored)
    ensures r.outcome.Finished? ==> r.outcome.hookFailures <= r.outcome.applied
    ensures forall x :: x in r.attempted ==> x in items && !ignored(x)
    ensures !NoHardError(items, ignored, apply) ==> r.outcome.Aborted?
    ensures forall k :: FirstHardError(items, ignored, apply, k) ==>
              r.outcome == Aborted(apply(items[k]).error) && r.attempted == Eligible(items[..k + 1], ignored)
  {
    if items == [] {
      return BatchRun([], NothingToApply);
    }
    var attempted, skipped, failures, error := Visit(items, ignored, apply);
    if error.Some? {
      ghost var k :| 0 <= k < |items| && !ignored(items[k]) && apply(items[k]) == Failure(error.value)
                     && NoHardError(items[..k], ignored, apply)
                     && attempted == Eligible(items[..k + 1], ignored);
      EligibleExactly(items[..k + 1], ignored);
      forall k' | FirstHardError(items, ignored, apply, k')
        ensures k' == k
      {
        FirstHardErrorUnique(items, ignored, apply, k, k');
      }
    } else {
      EligibleExactly(items, ignored);
    }
    if error.Some? {
      return BatchRun(attempted, Aborted(error.value));
    }
    CountersAddUp(items, ignored, apply);
    return BatchRun(attempted, Finished(|items|, skipped, |items| - skipped, failures, failures > 0));
  }

  /** The loop of `execute`: visit items in order until one fails hard. */
  method Visit<T>(items: seq<T>, ignored: T -> bool, apply: T -> Result<bool, string>)
    returns (attempted: seq<T>, skipped: nat, failures: nat, error: Option<string>)
    ensures error.None? <==> NoHardError(items, ignored, apply)
    ensures error.None? ==>
              && attempted == Eligible(items, ignored)
              && skipped == CountIgnored(items, ignored)
              && failures == CountHookFailures(items, ignored, apply)
    ensures error.Some? ==>
              exists k :: 0 <= k < |items| && !ignored(items[k]) && apply(items[k]) == Failure(error.value)
                          && NoHardError(items[..k], ignored, apply)
                          && attempted == Eligible(items[..k + 1], ignored)
    ensures forall x :: x in attempted ==> !ignored(x)
  {
    skipped, failures, attempted := 0, 0, [];
    var i := 0;
    while i < |items|
      invariant 0 <= i <= |items|
      invariant skipped == CountIgnored(items[..i], ignored)
      invariant failures == CountHookFailures(items[..i], ignored, apply)
      invariant attempted == Eligible(items[..i], ignored)
      invariant NoHardError(items[..i], ignored, apply)
    {
      var x := items[i];
      Extend(items, i, ignored, apply);
      if ignored(x) {
        skipped := skipped + 1;
      } else {
        attempted := attempted + [x];
        match apply(x)
        case Failure(e) =>
          assert !NoHardError(items, ignored, apply) by {
            assert !ignored(items[i]) && apply(items[i]).Failure?;
          }
          assert !ignored(items[i]) && apply(items[i]) == Failure(e)
                 && NoHardError(items[..i], ignored, apply) && attempted == Eligible(items[..i + 1], ignored);
          return attempted, skipped, failures, Some(e);
        case Success(ok) =>
          if !ok {
            failures := failures + 1;
          }
      }
      assert skipped == CountIgnored(items[..i + 1], ignored);
      assert attempted == Eligible(items[..i + 1], ignored);
      i := i + 1;
    }
    assert items[..i] == items;
    error := None;
  }

  /** How the reference counts grow by one item. */
  lemma Extend<T>(items: seq<T>, i: nat, ignored: T -> bool, apply: T -> Result<bool, string>)
    requires i < |items|
    ensures CountIgnored(items[..i + 1], ignored) ==
              CountIgnored(items[..i], ignored) + (if ignored(items[i]) then 1 else 0)
    ensures CountHookFailures(items[..i + 1], ignored, apply) ==
              CountHookFailures(items[..i], ignored, apply)
              + (if !ignored(items[i]) && apply(items[i]) == Success(false) then 1 else 0)
    ensures Eligible(items[..i + 1], ignored) ==
              Eligible(items[..i], ignored) + (if ignored(items[i]) then [] else [items[i]])
    ensures NoHardError(items[..i], ignored, apply) && (!ignored(items[i]) ==> apply(items[i]).Success?) ==>
              NoHardError(items[..i + 1], ignored, apply)
  {
    var pre := items[..i + 1];
    assert pre[..|pre| - 1] == items[..i];
    assert pre[|pre| - 1] == items[i];
  }

  /** The eligible items are exactly the listed items that are not ignored. */
  lemma {:induction false} EligibleExactly<T>(items: seq<T>, ignored: T -> bool)
    ensures forall x :: x in Eligible(items, ignored) <==> x in items && !ignored(x)
  {
    if items != [] {
      var init := items[..|items| - 1];
      EligibleExactly(init, ignored);
      assert items == init + [items[|items| - 1]];
    }
  }

  /** Applied and skipped items together account for the whole list, and at
      most every applied item has a failed hook. */
  lemma CountersAddUp<T>(items: seq<T>, ignored: T -> bool, apply: T -> Result<bool, string>)
    ensures CountIgnored(items, ignored) <= |items|
    ensures CountHookFailures(items, ignored, apply) <= |items| - CountIgnored(items, ignored)
  {
  }

  /** With nothing ignored (as in `cook_db`), every item is attempted and
      nothing is skipped. */
  lemma {:induction false} NothingIgnored<T>(items: seq<T>, ignored: T -> bool)
    requires forall x :: !ignored(x)
    ensures Eligible(items, ignored) == items
    ensures CountIgnored(items, ignored) == 0
  {
    if items != [] {
      NothingIgnored(items[..|items| - 1], ignored);
      assert items == items[..|items| - 1] + [items[|items| - 1]];
    }
  }
}
