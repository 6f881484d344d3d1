/** The legacy ingredient store of `crates/kitchn_lib/src/db.rs` (`Pantry`):
    the same keyed collection as the template store, keyed by `meta.name`. */
module Pantry {
  import opened Wrappers
  import opened Ordering
  import opened Codec
  import Catalog

  datatype IngredientMeta = IngredientMeta(name: string, version: string, authors: seq<string>, description: string)

  /** An ingredient: its metadata plus the payload the pantry never inspects
      (the ingredient file format is not part of this model). */
  datatype Ingredient = Ingredient(meta: IngredientMeta, payload: seq<string>)

  function MetaName(i: Ingredient): string {
    i.meta.name
  }

  datatype Pantry = Pantry(path: string, ingredients: map<string, Ingredient>)

  /** Each key is its ingredient's name. */
  predicate Valid(p: Pantry) {
    forall k :: k in p.ingredients ==> p.ingredients[k].meta.name == k
  }

  const OpenError := "Failed to open pantry database"
  const DecodeError := "Failed to decode pantry database"

  /** `Pantry::load`: a missing or empty file, or one whose size cannot be
      read, is an empty pantry; a non-empty
      file that fails to open or decode is an error. */
  function Load(path: string, f: Catalog.DbFile, decode: seq<byte> -> Option<map<string, Ingredient>>): (r: Result<Pantry, string>)
    ensures f.Absent? ==> r == Success(Pantry(path, map[]))
    ensures f.Present? && (|f.bytes| == 0 || !f.metadataOk) ==> r == Success(Pantry(path, map[]))
    ensures f.Present? && |f.bytes| > 0 && f.metadataOk && !f.opens ==> r == Failure(OpenError)
    ensures f.Present? && |f.bytes| > 0 && f.metadataOk && f.opens ==>
              (r.Success? <==> decode(f.bytes).Some?) &&
              (r.Success? ==> r.value == Pantry(path, decode(f.bytes).value)) &&
              (r.Failure? ==> r.error == DecodeError)
  {
    match Catalog.Load(f, decode, OpenError, DecodeError)
    case Success(m) => Success(Pantry(path, m))
    case Failure(e) => Failure(e)
  }

  /** `Pantry::save`. */
  function Save(p: Pantry, encode: map<string, Ingredient> -> seq<byte>, ioError: Option<string>): (r: Result<Catalog.DbFile, string>)
    ensures ioError.None? <==> r.Success?
    ensures r.Success? ==> r.value.Present? && r.value.bytes == encode(p.ingredients)
  {
    Catalog.Save(p.ingredients, encode, ioError)
  }

  lemma SaveThenLoad(p: Pantry, c: Codec<map<string, Ingredient>>)
    requires Sound(c)
    ensures Save(p, c.encode, None).Success?
    ensures Load(p.path, Save(p, c.encode, None).value, c.decode) == Success(p)
  {
    Catalog.SaveLoadRoundTrip(p.ingredients, c, OpenError, DecodeError);
  }

  /** `Pantry::store`: upsert under `meta.name`; a previous entry of that name
      is replaced whole. */
  function Store(p: Pantry, i: Ingredient): (r: Pantry)
    ensures r.path == p.path
    ensures i.meta.name in r.ingredients && r.ingredients[i.meta.name] == i
    ensures forall k :: k != i.meta.name ==> (k in r.ingredients <==> k in p.ingredients)
    ensures forall k :: k in p.ingredients && k != i.meta.name ==> r.ingredients[k] == p.ingredients[k]
    ensures |r.ingredients| == if i.meta.name in p.ingredients then |p.ingredients| else |p.ingredients| + 1
    ensures Valid(p) ==> Valid(r)
  {
    Pantry(p.path, Catalog.Upsert(p.ingredients, i, MetaName))
  }

  datatype Discarded = Discarded(pantry: Pantry, removed: Option<Ingredient>)

  /** `Pantry::discard`: the removed ingredient, or `None`; the other entries
      are untouched. */
  function Discard(p: Pantry, name: string): (r: Discarded)
    ensures name in p.ingredients ==> r.removed == Some(p.ingredients[name])
    ensures name !in p.ingredients ==> r.removed == None && r.pantry == p
    ensures r.pantry.path == p.path && r.pantry.ingredients.Keys == p.ingredients.Keys - {name}
    ensures forall k :: k in r.pantry.ingredients ==> r.pantry.ingredients[k] == p.ingredients[k]
    ensures Valid(p) ==> Valid(r.pantry)
  {
    var rm := Catalog.Remove(p.ingredients, name);
    Discarded(Pantry(p.path, rm.rest), rm.removed)
  }

  /** The `clean` the command line calls: the pantry becomes empty. */
  function Clean(p: Pantry): (r: Pantry)
    ensures r.path == p.path && |r.ingredients| == 0
  {
    Pantry(p.path, map[])
  }

  /** `Pantry::list`: every ingredient once, ascending by `meta.name`. */
  function List(p: Pantry): (r: seq<Ingredient>)
    requires Valid(p)
    ensures |r| == |p.ingredients|
    ensures forall i :: 0 <= i < |r| ==> r[i].meta.name in p.ingredients && p.ingredients[r[i].meta.name] == r[i]
    ensures forall i, j :: 0 <= i < j < |r| ==> Lt(r[i].meta.name, r[j].meta.name)
    ensures forall k :: k in p.ingredients ==> p.ingredients[k] in r
  {
    assert Catalog.KeyedByName(p.ingredients, MetaName);
    Catalog.Listing(p.ingredients, MetaName)
  }

  /** Storing then discarding a name that was absent gives back the pantry. */
  lemma StoreThenDiscard(p: Pantry, i: Ingredient)
    requires i.meta.name !in p.ingredients
    ensures Discard(Store(p, i), i.meta.name).pantry == p
    ensures Discard(Store(p, i), i.meta.name).removed == Some(i)
  {
    var q := Discard(Store(p, i), i.meta.name).pantry;
    assert q.ingredients.Keys == p.ingredients.Keys;
    assert q.ingredients == p.ingredients;
  }
}
