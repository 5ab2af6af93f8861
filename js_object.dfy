/** JavaScript values and objects as the world model stores them.

    Entities are dynamic property bags in the game, so a record is a map from
    property name to value. A JavaScript object whose key order matters (the
    store's `items` and `selected`, the type catalog) is a `Table`: its entries
    together with the order `Object.keys` reports them in. Every key the engine
    uses is a uuid, never an array index, so that order is
    insertion order. */
module JsObject {

  /** The type names an entity's `type` property holds: the keys of the type
      catalog, and `wood`, which the world data uses but the catalog lacks. */
  datatype ThingType = Goldmine | Townhall | Farm | Barracks | Peasant | Catapult | Wood

  /** A JavaScript value. `Undefined` stands for a property that is absent or
      holds `undefined`; `Kind` is a string naming a thing type; `Point` is an
      `{ x, y }` object (a goal); `IdList` is an array of ids (`thingsHosted`).
      A thing's `type` is taken to hold a `Kind`: only a `Kind` is looked up in
      the type catalog, never the same name held as a `Str`. */
  datatype Value =
    | Undefined
    | Num(n: real)
    | Str(s: string)
    | Kind(t: ThingType)
    | Flag(b: bool)
    | Point(x: real, y: real)
    | IdList(ids: seq<string>)

  /** The property names that the engine's code and world data use. */
  datatype Prop =
    // the canonical entity fields (`THING_PROPERTIES`)
    | Id | Type | Owner | X | Y | Goal | Health | TimeToBuild | ThingsHosted
    // the type catalog's fields
    | DisplayName | Class | Width | Height | Color | BuildTime | MaxHealth
    | FoodProduction | Gold | Lumber | Oil | Builder | Speed | Food
    // fields that only the world data or the UI mention
    | GoldContained | LumberContained | Selected

  type Record = map<Prop, Value>

  datatype Option<T> = None | Some(value: T)

  /** `record[key]`: reading a missing property gives `undefined`. */
  function Get(r: Record, key: Prop): Value
  {
    if key in r then r[key] else Undefined
  }

  /** JavaScript truthiness. */
  predicate Truthy(v: Value)
  {
    match v
    case Undefined => false
    case Num(n) => n != 0.0
    case Str(s) => s != ""
    case Kind(_) => true
    case Flag(b) => b
    case Point(_, _) => true
    case IdList(_) => true
  }

  predicate Distinct<T(==)>(s: seq<T>)
  {
    forall i, j :: 0 <= i < j < |s| ==> s[i] != s[j]
  }

  /** A prefix of a list without repetitions has none either. */
  lemma DistinctPrefix<T>(s: seq<T>, n: nat)
    requires Distinct(s) && n <= |s|
    ensures Distinct(s[..n])
  {
    forall i, j | 0 <= i < j < n ensures s[..n][i] != s[..n][j] {
      assert s[..n][i] == s[i] && s[..n][j] == s[j];
    }
  }

  /** The keys of `keys` that are not in `gone`, in their order. */
  function KeysNotIn(keys: seq<string>, gone: set<string>): (r: seq<string>)
    ensures forall k :: k in r <==> k in keys && k !in gone
    ensures Distinct(keys) ==> Distinct(r)
    ensures |r| <= |keys|
  {
    if keys == [] then []
    else if keys[0] in gone then KeysNotIn(keys[1..], gone)
    else [keys[0]] + KeysNotIn(keys[1..], gone)
  }

  /** Filtering out one set of keys and then another is filtering out both. */
  lemma {:induction false} KeysNotInTwice(keys: seq<string>, a: set<string>, b: set<string>)
    ensures KeysNotIn(KeysNotIn(keys, a), b) == KeysNotIn(keys, a + b)
  {
    if keys != [] {
      KeysNotInTwice(keys[1..], a, b);
      if keys[0] !in a {
        assert KeysNotIn(keys, a) == [keys[0]] + KeysNotIn(keys[1..], a);
        assert KeysNotIn(keys, a)[1..] == KeysNotIn(keys[1..], a);
      }
    }
  }

  /** Filtering keeps order: filtering a concatenation filters each part in
      turn. */
  lemma {:induction false} KeysNotInAppend(a: seq<string>, b: seq<string>, gone: set<string>)
    ensures KeysNotIn(a + b, gone) == KeysNotIn(a, gone) + KeysNotIn(b, gone)
  {
    if a == [] {
      assert a + b == b;
    } else {
      assert (a + b)[0] == a[0] && (a + b)[1..] == a[1..] + b;
      KeysNotInAppend(a[1..], b, gone);
    }
  }

  /** Two keys that survive the filter keep their relative order. */
  lemma KeysNotInOrder(keys: seq<string>, gone: set<string>, i: int, j: int)
    requires 0 <= i < j < |keys| && keys[i] !in gone && keys[j] !in gone
    ensures exists p, q ::
      0 <= p < q < |KeysNotIn(keys, gone)| && KeysNotIn(keys, gone)[p] == keys[i] && KeysNotIn(keys, gone)[q] == keys[j]
  {
    var front, back := keys[..j], keys[j..];
    assert keys == front + back;
    KeysNotInAppend(front, back, gone);
    var f := KeysNotIn(front, gone);
    assert back[0] == keys[j] && back == [keys[j]] + back[1..];
    assert KeysNotIn(back, gone)[0] == keys[j];
    assert front[i] == keys[i];
    var p :| 0 <= p < |f| && f[p] == keys[i];
    assert KeysNotIn(keys, gone)[p] == keys[i];
    assert KeysNotIn(keys, gone)[|f|] == keys[j];
  }

  /** A key set that shares nothing with `keys` filters out nothing. */
  lemma {:induction false} KeysNotInNothing(keys: seq<string>, gone: set<string>)
    requires forall k :: k in keys ==> k !in gone
    ensures KeysNotIn(keys, gone) == keys
  {
    if keys != [] {
      KeysNotInNothing(keys[1..], gone);
    }
  }

  /** An ordered JavaScript object whose properties hold records. */
  datatype Table = Table(entries: map<string, Record>, keys: seq<string>)
  {
    /** `keys` lists exactly the properties of the object. (That it lists each
        once, `Distinct(keys)`, is stated separately where it is needed.) */
    ghost predicate Valid()
    {
      forall k :: k in entries <==> k in keys
    }

    /** `Object.keys(t).map(k => t[k])`. */
    function Values(): (vs: seq<Record>)
      requires Valid()
      ensures |vs| == |keys|
      ensures forall i :: 0 <= i < |keys| ==> vs[i] == entries[keys[i]]
    {
      seq(|keys|, i requires 0 <= i < |keys| => entries[keys[i]])
    }

    /** `t[k] = v`: an existing property keeps its place, a new one goes last. */
    function Put(k: string, v: Record): (t: Table)
      ensures Valid() ==> t.Valid()
      ensures Valid() && Distinct(keys) ==> Distinct(t.keys)
      ensures t.entries == entries[k := v]
      ensures Valid() && k in entries ==> t.keys == keys
      ensures k !in entries ==> t.keys == keys + [k]
    {
      Table(entries[k := v], if k in entries then keys else keys + [k])
    }

    /** The object without the properties in `gone` (`delete t[k]` for each). */
    function Without(gone: set<string>): (t: Table)
      ensures Valid() ==> t.Valid()
      ensures Distinct(keys) ==> Distinct(t.keys)
      ensures t.entries.Keys == entries.Keys - gone
      ensures forall k :: k in t.entries ==> t.entries[k] == entries[k]
    {
      Table(entries - gone, KeysNotIn(keys, gone))
    }
  }

  const Empty: Table := Table(map[], [])

  /** Deleting one set of keys and then another is deleting both. */
  lemma WithoutTwice(t: Table, a: set<string>, b: set<string>)
    ensures t.Without(a).Without(b) == t.Without(a + b)
  {
    KeysNotInTwice(t.keys, a, b);
  }

  /** `{ ...a, ...b }` for the first `n` keys of `b`: each is assigned into a
      copy of `a` in `b`'s order. */
  function SpreadKeys(a: Table, b: Table, n: nat): (t: Table)
    requires b.Valid() && Distinct(b.keys) && n <= |b.keys|
    ensures a.Valid() ==> t.Valid()
    ensures a.Valid() && Distinct(a.keys) ==> Distinct(t.keys)
    ensures forall k :: k in t.entries <==> k in a.entries || k in b.keys[..n]
    ensures forall k :: k in t.entries ==> t.entries[k] == if k in b.keys[..n] then b.entries[k] else a.entries[k]
    ensures a.Valid() && (forall k :: k in b.entries ==> k !in a.entries) ==> t.keys == a.keys + b.keys[..n]
  {
    if n == 0 then a
    else
      var prev := SpreadKeys(a, b, n - 1);
      var k := b.keys[n - 1];
      assert b.keys[..n] == b.keys[..n - 1] + [k];
      assert k !in b.keys[..n - 1] by {
        forall i | 0 <= i < n - 1 ensures b.keys[i] != k { }
      }
      prev.Put(k, b.entries[k])
  }

  /** `{ ...a, ...b }`. When no key of `b` is in `a`, the keys of `b` follow
      those of `a`. */
  function Spread(a: Table, b: Table): (t: Table)
    requires b.Valid() && Distinct(b.keys)
    ensures a.Valid() ==> t.Valid()
    ensures a.Valid() && Distinct(a.keys) ==> Distinct(t.keys)
    ensures t.entries == a.entries + b.entries
    ensures a.Valid() && (forall k :: k in b.entries ==> k !in a.entries) ==> t.keys == a.keys + b.keys
  {
    assert b.keys[..|b.keys|] == b.keys;
    var t := SpreadKeys(a, b, |b.keys|);
    assert t.entries == a.entries + b.entries;
    t
  }
}
