/** The persistent template store of `src/db.rs` (also `hi_core::db::Store`):
    a map from template name to template, backed by one file. */
module Store {
  import opened Wrappers
  import opened Ordering
  import opened Codec
  import opened Templates
  import Catalog

  datatype Store = Store(path: string, templates: map<string, Template>)

  /** The invariant every operation keeps: each key is its template's name. */
  predicate Valid(st: Store) {
    forall k :: k in st.templates ==> st.templates[k].manifest.name == k
  }

  const OpenError := "Failed to open store database"
  const DecodeError := "Failed to decode store database"

  /** `Store::load`: a missing or empty file is an empty store (first run),
      and so is one whose size cannot be read; a file that does not open or
      decode is an error, since the store has no other source of truth. */
  function Load(path: string, f: Catalog.DbFile, decode: seq<byte> -> Option<map<string, Template>>): (r: Result<Store, string>)
    ensures f.Absent? ==> r == Success(Store(path, map[]))
    ensures f.Present? && (|f.bytes| == 0 || !f.metadataOk) ==> r == Success(Store(path, map[]))
    ensures f.Present? && |f.bytes| > 0 && f.metadataOk && !f.opens ==> r == Failure(OpenError)
    ensures f.Present? && |f.bytes| > 0 && f.metadataOk && f.opens ==>
              (r.Success? <==> decode(f.bytes).Some?) &&
              (r.Success? ==> r.value == Store(path, decode(f.bytes).value)) &&
              (r.Failure? ==> r.error == DecodeError)
    ensures r.Success? ==> r.value.path == path
  {
    match Catalog.Load(f, decode, OpenError, DecodeError)
    case Success(m) => Success(Store(path, m))
    case Failure(e) => Failure(e)
  }

  /** `Store::save`: the file afterwards holds the encoding of the whole map. */
  function Save(st: Store, encode: map<string, Template> -> seq<byte>, ioError: Option<string>): (r: Result<Catalog.DbFile, string>)
    ensures ioError.None? <==> r.Success?
    ensures r.Success? ==> r.value.Present? && r.value.bytes == encode(st.templates)
  {
    Catalog.Save(st.templates, encode, ioError)
  }

  /** Saving and loading back from the same path yields the same store. */
  lemma SaveThenLoad(st: Store, c: Codec<map<string, Template>>)
    requires Sound(c)
    ensures Save(st, c.encode, None).Success?
    ensures Load(st.path, Save(st, c.encode, None).value, c.decode) == Success(st)
  {
    Catalog.SaveLoadRoundTrip(st.templates, c, OpenError, DecodeError);
  }

  /** `Store::add`: upsert under `manifest.name`, replacing any prior entry in
      full; the count grows only when the name is new. */
  function Add(st: Store, t: Template): (r: Store)
    ensures r.path == st.path
    ensures t.manifest.name in r.templates && r.templates[t.manifest.name] == t
    ensures forall k :: k != t.manifest.name ==> (k in r.templates <==> k in st.templates)
    ensures forall k :: k in st.templates && k != t.manifest.name ==> r.templates[k] == st.templates[k]
    ensures |r.templates| == if t.manifest.name in st.templates then |st.templates| else |st.templates| + 1
    ensures Valid(st) ==> Valid(r)
  {
    Store(st.path, Catalog.Upsert(st.templates, t, NameOf))
  }

  datatype Removed = Removed(store: Store, removed: Option<Template>)

  /** `Store::remove`: the removed template, or `None` and no change. */
  function Remove(st: Store, name: string): (r: Removed)
    ensures name in st.templates ==> r.removed == Some(st.templates[name]) && |r.store.templates| == |st.templates| - 1
    ensures name !in st.templates ==> r.removed == None && r.store == st
    ensures r.store.path == st.path && r.store.templates.Keys == st.templates.Keys - {name}
    ensures forall k :: k in r.store.templates ==> r.store.templates[k] == st.templates[k]
    ensures Valid(st) ==> Valid(r.store)
  {
    var rm := Catalog.Remove(st.templates, name);
    Removed(Store(st.path, rm.rest), rm.removed)
  }

  /** `Store::clear`. */
  function Clear(st: Store): (r: Store)
    ensures r.path == st.path && |r.templates| == 0
    ensures Valid(r)
  {
    Store(st.path, map[])
  }

  datatype Toggled = Toggled(store: Store, found: bool)

  /** `Store::set_ignored`: reports whether the name exists; only that
      template's `ignored` flag changes. */
  function SetIgnored(st: Store, name: string, state: bool): (r: Toggled)
    ensures r.found <==> name in st.templates
    ensures !r.found ==> r.store == st
    ensures r.store.path == st.path && r.store.templates.Keys == st.templates.Keys
    ensures r.found ==> r.store.templates[name].manifest.ignored == state
                        && SameButIgnored(r.store.templates[name], st.templates[name])
    ensures forall k :: k in st.templates && k != name ==> r.store.templates[k] == st.templates[k]
    ensures Valid(st) ==> Valid(r.store)
  {
    if name in st.templates then
      var t := st.templates[name];
      var t' := t.(manifest := t.manifest.(ignored := state));
      Toggled(Store(st.path, st.templates[name := t']), true)
    else
      Toggled(st, false)
  }

  /** `Store::list`: every template exactly once, ascending by name. */
  function List(st: Store): (r: seq<Template>)
    requires Valid(st)
    ensures |r| == |st.templates|
    ensures forall i :: 0 <= i < |r| ==> r[i].manifest.name in st.templates && st.templates[r[i].manifest.name] == r[i]
    ensures forall i, j :: 0 <= i < j < |r| ==> Lt(r[i].manifest.name, r[j].manifest.name)
    ensures forall k :: k in st.templates ==> st.templates[k] in r
  {
    assert Catalog.KeyedByName(st.templates, NameOf);
    Catalog.Listing(st.templates, NameOf)
  }

  /** The listing depends on the stored set only, not on insertion order:
      adding two differently named templates in either order lists the same. */
  lemma ListIgnoresInsertionOrder(st: Store, a: Template, b: Template)
    requires Valid(st)
    requires a.manifest.name != b.manifest.name
    ensures List(Add(Add(st, a), b)) == List(Add(Add(st, b), a))
  {
    Catalog.UpsertCommutes(st.templates, a, b, NameOf);
    assert Add(Add(st, a), b) == Add(Add(st, b), a);
  }

  /** Re-adding the same template is a no-op (upsert idempotence). */
  lemma AddIdempotent(st: Store, t: Template)
    ensures Add(Add(st, t), t) == Add(st, t)
  {
    assert Add(Add(st, t), t).templates == Add(st, t).templates;
  }
}
