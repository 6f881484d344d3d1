/** The keyed collection behind both the template store (`src/db.rs`) and the
    legacy pantry (`crates/kitchn_lib/src/db.rs`): a map from name to value,
    persisted as one binary blob. The two files differ only in the value type
    and in their error texts, so the shared logic is written once here,
    parameterised by the function that reads a value's name. */
module Catalog {
  import opened Wrappers
  import opened Ordering
  import opened Codec

  /** Every key names its own value. */
  predicate KeyedByName<V>(m: map<string, V>, name: V -> string) {
    forall k :: k in m ==> name(m[k]) == k
  }

  /** `insert(name, value)`: last write wins, no merge. */
  function Upsert<V>(m: map<string, V>, v: V, name: V -> string): (r: map<string, V>)
    ensures name(v) in r && r[name(v)] == v
    ensures forall k :: k != name(v) ==> (k in r <==> k in m)
    ensures forall k :: k in m && k != name(v) ==> r[k] == m[k]
    ensures |r| == if name(v) in m then |m| else |m| + 1
    ensures KeyedByName(m, name) ==> KeyedByName(r, name)
  {
    var r := m[name(v) := v];
    assert r.Keys == m.Keys + {name(v)};
    r
  }

  /** Upserts of differently named values commute. */
  lemma UpsertCommutes<V>(m: map<string, V>, a: V, b: V, name: V -> string)
    requires name(a) != name(b)
    ensures Upsert(Upsert(m, a, name), b, name) == Upsert(Upsert(m, b, name), a, name)
  {
    var x := Upsert(Upsert(m, a, name), b, name);
    var y := Upsert(Upsert(m, b, name), a, name);
    assert x == m[name(a) := a][name(b) := b];
    assert y == m[name(b) := b][name(a) := a];
    assert x.Keys == y.Keys;
  }

  datatype Removal<V> = Removal(rest: map<string, V>, removed: Option<V>)

  /** `HashMap::remove`: the prior value, if any, and the map without it. */
  function Remove<V>(m: map<string, V>, key: string): (r: Removal<V>)
    ensures key in m ==> r.removed == Some(m[key]) && |r.rest| == |m| - 1
    ensures key !in m ==> r.removed == None && r.rest == m
    ensures r.rest.Keys == m.Keys - {key}
    ensures forall k :: k in r.rest ==> r.rest[k] == m[k]
  {
    if key in m then
      var rest := map k | k in m && k != key :: m[k];
      assert rest.Keys == m.Keys - {key};
      Removal(rest, Some(m[key]))
    else
      Removal(m, None)
  }

  /** What a listing promises: every stored value exactly once, ascending by
      name. */
  ghost predicate IsListing<V>(m: map<string, V>, name: V -> string, r: seq<V>) {
    && |r| == |m|
    && (forall i :: 0 <= i < |r| ==> name(r[i]) in m && m[name(r[i])] == r[i])
    && (forall i, j :: 0 <= i < j < |r| ==> Lt(name(r[i]), name(r[j])))
    && (forall k :: k in m ==> m[k] in r)
  }

  /** `values().collect()` followed by `sort_by_key(name)`. */
  function Listing<V>(m: map<string, V>, name: V -> string): (r: seq<V>)
    requires KeyedByName(m, name)
    ensures IsListing(m, name, r)
  {
    var keys := SortedKeys(m.Keys);
    var r := seq(|keys|, i requires 0 <= i < |keys| => m[keys[i]]);
    ValuesInKeyOrder(m, name, keys, r);
    r
  }

  /** The values of a map taken in ascending key order form its listing. */
  lemma ValuesInKeyOrder<V>(m: map<string, V>, name: V -> string, keys: seq<string>, r: seq<V>)
    requires KeyedByName(m, name)
    requires StrictlySorted(keys) && |keys| == |m|
    requires forall i :: 0 <= i < |keys| ==> keys[i] in m
    requires forall k :: k in m ==> k in keys
    requires |r| == |keys| && forall i :: 0 <= i < |keys| ==> r[i] == m[keys[i]]
    ensures IsListing(m, name, r)
  {
    assert forall i :: 0 <= i < |r| ==> name(r[i]) == keys[i];
    forall k | k in m
      ensures m[k] in r
    {
      var i :| 0 <= i < |keys| && keys[i] == k;
      assert r[i] == m[k];
    }
  }

  /** The names of a sequence of values, in order. */
  function Names<V>(r: seq<V>, name: V -> string): (ns: seq<string>)
    ensures |ns| == |r| && forall i :: 0 <= i < |r| ==> ns[i] == name(r[i])
  {
    seq(|r|, i requires 0 <= i < |r| => name(r[i]))
  }

  /** A listing's names are strictly ascending and are exactly the keys. */
  lemma ListingNames<V>(m: map<string, V>, name: V -> string, r: seq<V>)
    requires KeyedByName(m, name)
    requires IsListing(m, name, r)
    ensures StrictlySorted(Names(r, name))
    ensures forall x :: x in Names(r, name) <==> x in m
  {
    var ns := Names(r, name);
    forall x | x in m
      ensures x in ns
    {
      var j :| 0 <= j < |r| && r[j] == m[x];
      assert ns[j] == x;
    }
  }

  /** Two sequences that both meet the listing's promise are equal. */
  lemma ListingsEqual<V>(m: map<string, V>, name: V -> string, r: seq<V>, l: seq<V>)
    requires KeyedByName(m, name)
    requires IsListing(m, name, r) && IsListing(m, name, l)
    ensures r == l
  {
    assert Names(r, name) == Names(l, name) by {
      ListingNames(m, name, r);
      ListingNames(m, name, l);
      SortedUnique(Names(r, name), Names(l, name));
    }
    forall i | 0 <= i < |r|
      ensures r[i] == l[i]
    {
      assert Names(r, name)[i] == Names(l, name)[i];
    }
  }

  /** The listing is a function of the map's contents alone: any sequence
      meeting the listing's promise is the listing. */
  lemma ListingUnique<V>(m: map<string, V>, name: V -> string, r: seq<V>)
    requires KeyedByName(m, name)
    requires IsListing(m, name, r)
    ensures r == Listing(m, name)
  {
    ListingsEqual(m, name, r, Listing(m, name));
  }

  /** The backing file as `load` finds it. `metadataOk` is whether the size
      probe succeeds (a failed probe reads as size 0); `opens` whether the file
      can be opened for reading. */
  datatype DbFile = Absent | Present(bytes: seq<byte>, metadataOk: bool, opens: bool)

  /** `load`: a missing or zero-length file is an empty map; otherwise the
      file must open and decode. */
  function Load<V>(f: DbFile, decode: seq<byte> -> Option<map<string, V>>,
                   openError: string, decodeError: string): (r: Result<map<string, V>, string>)
    ensures f.Absent? ==> r == Success(map[])
    ensures f.Present? && (|f.bytes| == 0 || !f.metadataOk) ==> r == Success(map[])
    ensures f.Present? && |f.bytes| > 0 && f.metadataOk && !f.opens ==> r == Failure(openError)
    ensures f.Present? && |f.bytes| > 0 && f.metadataOk && f.opens ==>
              (r.Success? <==> decode(f.bytes).Some?) &&
              (r.Success? ==> r.value == decode(f.bytes).value) &&
              (r.Failure? ==> r.error == decodeError)
  {
    match f
    case Absent => Success(map[])
    case Present(bytes, metadataOk, opens) =>
      var len := if metadataOk then |bytes| else 0;
      if len == 0 then Success(map[])
      else if !opens then Failure(openError)
      else match decode(bytes)
        case Some(m) => Success(m)
        case None => Failure(decodeError)
  }

  /** `save`: overwrite the file with the encoding of the whole map, or report
      the I/O error (directory creation, file creation or encoding). */
  function Save<V>(m: map<string, V>, encode: map<string, V> -> seq<byte>,
                   ioError: Option<string>): (r: Result<DbFile, string>)
    ensures ioError.Some? ==> r == Failure(ioError.value)
    ensures ioError.None? ==> r.Success? && r.value.Present? && r.value.bytes == encode(m)
  {
    match ioError
    case Some(e) => Failure(e)
    case None => Success(Present(encode(m), true, true))
  }

  /** Saving then loading gives back the same map, for any sound codec. */
  lemma SaveLoadRoundTrip<V(!new)>(m: map<string, V>, c: Codec<map<string, V>>, openError: string, decodeError: string)
    requires Sound(c)
    ensures Save(m, c.encode, None).Success?
    ensures Load(Save(m, c.encode, None).value, c.decode, openError, decodeError) == Success(m)
  {
    assert c.decode(c.encode(m)) == Some(m) && |c.encode(m)| > 0;
  }
}
