/** The pantry commands of `crates/kitchn_cli/src/main.rs`: emptying the
    pantry, cooking every ingredient, and naming a wrapped package. Applying
    an ingredient, encoding the pantry and writing it are parameters; the
    module's `strip_tags` is the one of `Markup`. */
module Kitchn {
  import opened Wrappers
  import opened Codec
  import opened Text
  import Decimal
  import Paths
  import Catalog
  import Batch
  import P = Pantry

  /** How `pantry clean` ended: the pantry left behind, the file written
      (if any), and the preset logged with its message. */
  datatype CleanRun = CleanRun(pantry: P.Pantry, written: Option<Catalog.DbFile>, preset: string, msg: string)

  /** `pantry clean`: an empty pantry is reported and neither cleared nor
      saved; otherwise it is cleared, then saved, and the number of
      ingredients removed is reported. A failed save is the command's error. */
  function PantryClean(p: P.Pantry, encode: map<string, P.Ingredient> -> seq<byte>, ioError: Option<string>): (r: Result<CleanRun, string>)
    ensures |p.ingredients| == 0 ==> r == Success(CleanRun(p, None, "pantry_empty", "pantry is already empty"))
    ensures |p.ingredients| > 0 && ioError.Some? ==> r == Failure(ioError.value)
    ensures |p.ingredients| > 0 && ioError.None? ==>
              && r.Success?
              && r.value.pantry.path == p.path && |r.value.pantry.ingredients| == 0
              && r.value.written == Some(Catalog.Present(encode(map[]), true, true))
              && r.value.preset == "pantry_clean_ok"
              && r.value.msg == "removed " + Decimal.Show(|p.ingredients|) + " ingredients"
  {
    var count := |p.ingredients|;
    if count == 0 then Success(CleanRun(p, None, "pantry_empty", "pantry is already empty"))
    else
      var cleaned := P.Clean(p);
      match P.Save(cleaned, encode, ioError)
      case Failure(e) => Failure(e)
      case Success(f) => Success(CleanRun(cleaned, Some(f), "pantry_clean_ok", "removed " + Decimal.Show(count) + " ingredients"))
  }

  /** The count reported is the length of the listing the source takes. */
  lemma CleanCountIsListed(p: P.Pantry)
    requires P.Valid(p)
    ensures |P.List(p)| == |p.ingredients|
  {
  }

  /** After a successful clean the saved file loads back as an empty pantry,
      and cleaning again is the empty case: nothing more is written. */
  lemma CleanThenLoad(p: P.Pantry, c: Codec<map<string, P.Ingredient>>)
    requires Sound(c) && |p.ingredients| > 0
    ensures PantryClean(p, c.encode, None).Success?
    ensures var run := PantryClean(p, c.encode, None).value;
            && P.Load(p.path, run.written.value, c.decode) == Success(run.pantry)
            && PantryClean(run.pantry, c.encode, None).value.written.None?
  {
    var run := PantryClean(p, c.encode, None).value;
    P.SaveThenLoad(run.pantry, c);
  }

  /** Nothing is ignored when cooking. */
  function Never<T>(x: T): bool {
    false
  }

  /** The batch loop with nothing ignored: every item is attempted in order
      until the first hard error. */
  method ApplyAll<T>(items: seq<T>, apply: T -> Result<bool, string>) returns (r: Batch.BatchRun<T>)
    ensures items == [] <==> r.outcome.NothingToApply?
    ensures Batch.NoHardError(items, Never, apply) && items != [] ==>
              var failures := Batch.CountHookFailures(items, Never, apply);
              && r.attempted == items
              && r.outcome == Batch.Finished(|items|, 0, |items|, failures, failures > 0)
    ensures r.outcome.Aborted? ==>
              exists k :: 0 <= k < |items| && apply(items[k]) == Failure(r.outcome.error)
                          && r.attempted == items[..k + 1]
    ensures !Batch.NoHardError(items, Never, apply) ==> r.outcome.Aborted?
    ensures forall k :: Batch.FirstHardError(items, Never, apply, k) ==>
              r.outcome == Batch.Aborted(apply(items[k]).error) && r.attempted == items[..k + 1]
  {
    r := Batch.Execute(items, Never, apply);
    Batch.NothingIgnored(items, Never);
    forall k | Batch.FirstHardError(items, Never, apply, k)
      ensures r.attempted == items[..k + 1]
    {
      Batch.NothingIgnored(items[..k + 1], Never);
    }
    if r.outcome.Aborted? {
      ghost var k :| 0 <= k < |items| && !Never(items[k]) && apply(items[k]) == Failure(r.outcome.error)
                     && Batch.NoHardError(items[..k], Never, apply)
                     && r.attempted == Batch.Eligible(items[..k + 1], Never);
      Batch.NothingIgnored(items[..k + 1], Never);
    }
  }

  /** `cook_db`: every listed ingredient is applied in name order; an empty
      pantry applies nothing, a hard error stops the run, and the failed
      hooks are counted. */
  method CookDb(p: P.Pantry, apply: P.Ingredient -> Result<bool, string>) returns (r: Batch.BatchRun<P.Ingredient>)
    requires P.Valid(p)
    ensures |p.ingredients| == 0 <==> r.outcome.NothingToApply?
    ensures Batch.NoHardError(P.List(p), Never, apply) && |p.ingredients| > 0 ==>
              var failures := Batch.CountHookFailures(P.List(p), Never, apply);
              && r.attempted == P.List(p)
              && r.outcome == Batch.Finished(|p.ingredients|, 0, |p.ingredients|, failures, failures > 0)
    ensures r.outcome.Aborted? ==>
              exists k :: 0 <= k < |p.ingredients| && apply(P.List(p)[k]) == Failure(r.outcome.error)
                          && r.attempted == P.List(p)[..k + 1]
    ensures !Batch.NoHardError(P.List(p), Never, apply) ==> r.outcome.Aborted?
    ensures forall k :: Batch.FirstHardError(P.List(p), Never, apply, k) ==>
              r.outcome == Batch.Aborted(apply(P.List(p)[k]).error) && r.attempted == P.List(p)[..k + 1]
  {
    var items := P.List(p);
    assert |items| == |p.ingredients|;
    r := ApplyAll(items, apply);
  }

  /** `wrap`: the output path given, else the input directory's name with
      `.bag`. */
  function WrapOutput(input: string, output: Option<string>): (r: string)
    ensures output.Some? ==> r == output.value
    ensures output.None? ==> EndsWith(r, ".bag")
  {
    output.GetOr(Paths.DefaultArchiveName(input, "bag"))
  }

  /** Wrapping `dir/name` without an output writes `name.bag`. */
  lemma WrapOutputOfDir(dir: string, name: string)
    requires Paths.IsNormal(name)
    ensures WrapOutput(dir + "/" + name, None) == name + ".bag"
    ensures Paths.HasExtension(WrapOutput(dir + "/" + name, None), "bag")
  {
    Paths.DefaultArchiveNameOfDir(dir, name, "bag");
  }
}
