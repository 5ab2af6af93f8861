/** The entity store: every thing of the world, keyed by id (`items`), and the
    player's selection (`selected`). The mutating operations are methods of the
    `Store` class; the read-only queries are functions over its two tables. */
module EntityStore {
  import opened JsObject
  import opened Constants

  /** Each stored record's `id` property names the key it is stored under. */
  ghost predicate IdsMatchKeys(t: Table)
  {
    forall k :: k in t.entries ==> Get(t.entries[k], Id) == Str(k)
  }

  /** A selection entry is `{ id }` and nothing else. */
  ghost predicate SelectionShape(t: Table)
  {
    forall k :: k in t.entries ==> t.entries[k] == map[Id := Str(k)]
  }

  /* ---------------------------------------------------------------- sanitize */

  /** `sanitizeThing(r)` as a value: a record with exactly the
      `THING_PROPERTIES` fields, each read from `r`. */
  function Canonical(r: Record): (c: Record)
    ensures forall p :: p in c <==> p in ThingProperties
    ensures forall p :: p in ThingProperties ==> c[p] == Get(r, p)
  {
    map p | p in ThingProperties :: Get(r, p)
  }

  /** Sanitizing depends only on the canonical fields, and sanitizing twice is
      sanitizing once. */
  lemma CanonicalSameFields(a: Record, b: Record)
    ensures Canonical(a) == Canonical(b) <==> forall p :: p in ThingProperties ==> Get(a, p) == Get(b, p)
    ensures Canonical(Canonical(a)) == Canonical(a)
  {
    if forall p :: p in ThingProperties ==> Get(a, p) == Get(b, p) {
      assert Canonical(a).Keys == Canonical(b).Keys;
    }
    if Canonical(a) == Canonical(b) {
      forall p | p in ThingProperties ensures Get(a, p) == Get(b, p) {
        assert Canonical(a)[p] == Canonical(b)[p];
      }
    }
    assert Canonical(Canonical(a)).Keys == Canonical(a).Keys;
  }

  /* ----------------------------------------------------------------- getArray */

  /** `ids.includes(thing.id)`, where a missing id list (`null`) admits every
      thing. */
  predicate Listed(thing: Record, ids: Option<seq<string>>)
  {
    ids.None? || (Get(thing, Id).Str? && Get(thing, Id).s in ids.value)
  }

  /** `{ ...thing, ...THING_TYPES[thing.type] }`: catalog fields overwrite the
      thing's; spreading the `undefined` of an unknown type adds nothing. */
  function Aggregate(thing: Record): (r: Record)
    ensures forall p :: p in ThingProperties ==> Get(r, p) == Get(thing, p)
    ensures TypeOf(Get(thing, Type)).None? ==> r == thing
    ensures TypeOf(Get(thing, Type)).Some? ==>
      var entry := TypeOf(Get(thing, Type)).value;
      r.Keys == thing.Keys + entry.Keys && forall p :: p in entry ==> r[p] == entry[p]
    ensures forall p :: p in thing && (TypeOf(Get(thing, Type)).None? || p !in TypeOf(Get(thing, Type)).value) ==>
      p in r && r[p] == thing[p]
  {
    match TypeOf(Get(thing, Type))
    case None => thing
    case Some(entry) =>
      CatalogHasNoCanonicalProperty();
      thing + entry
  }

  /** Joining in the catalog never changes what sanitizing keeps. */
  lemma AggregateKeepsCanonical(thing: Record)
    ensures Canonical(Aggregate(thing)) == Canonical(thing)
  {
    CanonicalSameFields(Aggregate(thing), thing);
  }

  /** `things.filter(thing => ids.includes(thing.id))`. */
  function Filter(vs: seq<Record>, ids: Option<seq<string>>): (r: seq<Record>)
    ensures |r| <= |vs|
    ensures forall t :: t in r <==> t in vs && Listed(t, ids)
    ensures ids.None? ==> r == vs
  {
    if vs == [] then []
    else if Listed(vs[0], ids) then [vs[0]] + Filter(vs[1..], ids)
    else Filter(vs[1..], ids)
  }

  /** The filter keeps store order: filtering a concatenation filters each
      part in turn. */
  lemma {:induction false} FilterAppend(a: seq<Record>, b: seq<Record>, ids: Option<seq<string>>)
    ensures Filter(a + b, ids) == Filter(a, ids) + Filter(b, ids)
  {
    if a == [] {
      assert a + b == b;
    } else {
      assert (a + b)[0] == a[0];
      assert (a + b)[1..] == a[1..] + b;
      FilterAppend(a[1..], b, ids);
    }
  }

  /** What `getArray` yields for one stored record; its id is the record's. */
  function View(thing: Record, aggregateType: bool): (r: Record)
    ensures Get(r, Id) == Get(thing, Id)
  {
    if aggregateType then Aggregate(thing) else thing
  }

  /** `things.map(thing => View(thing))`. */
  function Views(things: seq<Record>, aggregateType: bool): (r: seq<Record>)
    ensures |r| == |things|
    ensures forall i :: 0 <= i < |r| ==> r[i] == View(things[i], aggregateType)
  {
    seq(|things|, i requires 0 <= i < |things| => View(things[i], aggregateType))
  }

  /** `store.getArray(ids, { aggregateType })`: the stored records in store
      order, those whose id is listed when `ids` is given, each joined with its
      catalog entry when `aggregateType` is set. */
  function GetArray(items: Table, ids: Option<seq<string>>, aggregateType: bool): (r: seq<Record>)
    requires items.Valid()
    ensures ids.None? ==> (|r| == |items.keys| &&
      forall i :: 0 <= i < |r| ==> r[i] == View(items.entries[items.keys[i]], aggregateType))
    ensures forall k :: k in items.entries && Listed(items.entries[k], ids) ==>
      View(items.entries[k], aggregateType) in r
    ensures forall t :: t in r ==> Listed(t, ids)
  {
    var vs := items.Values();
    var things := Filter(vs, ids);
    var r := Views(things, aggregateType);
    forall k | k in items.entries && Listed(items.entries[k], ids)
      ensures View(items.entries[k], aggregateType) in r
    {
      var i :| 0 <= i < |items.keys| && items.keys[i] == k;
      assert vs[i] == items.entries[k];
      var j :| 0 <= j < |things| && things[j] == items.entries[k];
      assert r[j] == View(items.entries[k], aggregateType);
    }
    forall t | t in r ensures Listed(t, ids) {
      var j :| 0 <= j < |r| && r[j] == t;
      assert things[j] in things;
    }
    r
  }

  /** Every record `getArray` yields is the view of a stored record whose id
      is listed. */
  lemma GetArrayFromStore(items: Table, ids: Option<seq<string>>, aggregateType: bool)
    requires items.Valid()
    ensures var r := GetArray(items, ids, aggregateType);
      forall i :: 0 <= i < |r| ==> exists k ::
        k in items.entries && Listed(items.entries[k], ids) && r[i] == View(items.entries[k], aggregateType)
  {
    var vs := items.Values();
    var things := Filter(vs, ids);
    var r := GetArray(items, ids, aggregateType);
    forall i | 0 <= i < |r| ensures exists k ::
      k in items.entries && Listed(items.entries[k], ids) && r[i] == View(items.entries[k], aggregateType)
    {
      assert r[i] == View(things[i], aggregateType);
      assert things[i] in things;
      var j :| 0 <= j < |vs| && vs[j] == things[i];
      var k := items.keys[j];
      assert k in items.entries && items.entries[k] == things[i];
    }
  }

  /** `getArray` lists the store in insertion order: storing a record under a
      new key appends its view when it is listed, and nothing otherwise. */
  lemma GetArrayPutNew(items: Table, k: string, v: Record, ids: Option<seq<string>>, aggregateType: bool)
    requires items.Valid() && k !in items.entries
    ensures items.Put(k, v).Valid()
    ensures GetArray(items.Put(k, v), ids, aggregateType) ==
      GetArray(items, ids, aggregateType) + if Listed(v, ids) then [View(v, aggregateType)] else []
  {
    var vs := items.Values();
    PutNewValues(items, k, v);
    var a, b := Filter(vs, ids), Filter([v], ids);
    FilterAppend(vs, [v], ids);
    ViewsAppend(a, b, aggregateType);
    SingleView(v, ids, aggregateType);
  }

  /** A single record's filtered view. */
  lemma SingleView(v: Record, ids: Option<seq<string>>, aggregateType: bool)
    ensures Views(Filter([v], ids), aggregateType) == if Listed(v, ids) then [View(v, aggregateType)] else []
  {
    assert [v][1..] == [];
  }

  /** A new key's record comes last among the values. */
  lemma PutNewValues(items: Table, k: string, v: Record)
    requires items.Valid() && k !in items.entries
    ensures items.Put(k, v).Valid() && items.Put(k, v).Values() == items.Values() + [v]
  {
    var t, vs := items.Put(k, v), items.Values();
    forall i | 0 <= i < |t.keys| ensures t.Values()[i] == (vs + [v])[i] {
      if i < |vs| { assert t.keys[i] == items.keys[i]; }
    }
  }

  /** Mapping views over a concatenation maps each part. */
  lemma ViewsAppend(a: seq<Record>, b: seq<Record>, aggregateType: bool)
    ensures Views(a + b, aggregateType) == Views(a, aggregateType) + Views(b, aggregateType)
  {
    assert forall i :: 0 <= i < |a + b| ==> Views(a + b, aggregateType)[i] == View((a + b)[i], aggregateType);
  }

  /** The records hold pairwise different ids. */
  ghost predicate DistinctIds(vs: seq<Record>)
  {
    forall i, j :: 0 <= i < j < |vs| ==> Get(vs[i], Id) != Get(vs[j], Id)
  }

  /** Filtering keeps ids apart. */
  lemma {:induction false} FilterDistinctIds(vs: seq<Record>, ids: Option<seq<string>>)
    requires DistinctIds(vs)
    ensures DistinctIds(Filter(vs, ids))
  {
    if vs != [] {
      var rest := vs[1..];
      assert DistinctIds(rest) by {
        forall i, j | 0 <= i < j < |rest| ensures Get(rest[i], Id) != Get(rest[j], Id) {
          assert rest[i] == vs[i + 1] && rest[j] == vs[j + 1];
        }
      }
      FilterDistinctIds(rest, ids);
      if Listed(vs[0], ids) {
        var f := Filter(rest, ids);
        forall j | 0 <= j < |f| ensures Get(vs[0], Id) != Get(f[j], Id) {
          assert f[j] in rest;
          var m :| 0 <= m < |rest| && rest[m] == f[j];
          assert rest[m] == vs[m + 1];
        }
        assert Filter(vs, ids) == [vs[0]] + f;
      }
    }
  }

  /** In a store whose keys are listed once and whose records carry their
      keys as ids, `getArray` yields each record at most once: its results
      hold pairwise different ids. */
  lemma GetArrayDistinct(items: Table, ids: Option<seq<string>>, aggregateType: bool)
    requires items.Valid() && Distinct(items.keys) && IdsMatchKeys(items)
    ensures DistinctIds(GetArray(items, ids, aggregateType))
  {
    var vs := items.Values();
    assert DistinctIds(vs) by {
      forall i, j | 0 <= i < j < |vs| ensures Get(vs[i], Id) != Get(vs[j], Id) {
        assert Get(vs[i], Id) == Str(items.keys[i]) && Get(vs[j], Id) == Str(items.keys[j]);
      }
    }
    FilterDistinctIds(vs, ids);
    var f := Filter(vs, ids);
    var r := GetArray(items, ids, aggregateType);
    forall i, j | 0 <= i < j < |r| ensures Get(r[i], Id) != Get(r[j], Id) {
      assert r[i] == View(f[i], aggregateType) && r[j] == View(f[j], aggregateType);
    }
  }

  /** With ids matching keys, `getArray(ids)` holds exactly the records stored
      under the listed keys: unknown ids are skipped. */
  lemma GetArrayListedKeys(items: Table, ids: seq<string>)
    requires items.Valid() && IdsMatchKeys(items)
    ensures forall k :: k in items.entries && k in ids ==> items.entries[k] in GetArray(items, Some(ids), false)
    ensures forall t :: t in GetArray(items, Some(ids), false) ==>
      Get(t, Id).Str? && Get(t, Id).s in ids && Get(t, Id).s in items.entries && items.entries[Get(t, Id).s] == t
  {
    var r := GetArray(items, Some(ids), false);
    var vs := items.Values();
    forall t | t in r
      ensures Get(t, Id).Str? && Get(t, Id).s in ids && Get(t, Id).s in items.entries && items.entries[Get(t, Id).s] == t
    {
      assert t in vs;
      var i :| 0 <= i < |vs| && vs[i] == t;
      assert items.entries[items.keys[i]] == t;
    }
  }

  /** `store.getById(id)`: `None` is `undefined`. */
  function GetById(items: Table, id: string): (r: Option<Record>)
    ensures r.Some? <==> id in items.entries
    ensures r.Some? ==> r.value == items.entries[id]
  {
    if id in items.entries then Some(items.entries[id]) else None
  }

  /* ---------------------------------------------------------- getAtCoordinates */

  /** Whether the thing's catalog footprint, `[x, x + width) x [y, y + height)`,
      holds the point. A thing without numeric coordinates holds no point. */
  predicate Covers(thing: Record, entry: Record, x: real, y: real)
  {
    var tx, ty, w, h := Get(thing, X), Get(thing, Y), Get(entry, Width), Get(entry, Height);
    && tx.Num? && ty.Num? && w.Num? && h.Num?
    && tx.n <= x < tx.n + w.n
    && ty.n <= y < ty.n + h.n
  }

  /** Whether the `find` callback of `getAtCoordinates`, run on `thing`, reads
      a field of a missing catalog entry `THING_TYPES[thing.type]` and so
      throws a `TypeError`. Both match lines run, and each `&&` stops at a
      false left side: the `width` is read only once `x >= thing.x` holds, the
      `height` only once `y >= thing.y` holds. A coordinate that is not a
      number compares false. */
  predicate ReadsMissingEntry(thing: Record, x: real, y: real)
  {
    var tx, ty := Get(thing, X), Get(thing, Y);
    && TypeOf(Get(thing, Type)).None?
    && ((tx.Num? && x >= tx.n) || (ty.Num? && y >= ty.n))
  }

  /** Whether the callback returns `true`: the thing's type is in the catalog
      and its footprint holds the point. */
  predicate Hits(thing: Record, x: real, y: real)
  {
    TypeOf(Get(thing, Type)).Some? && Covers(thing, TypeOf(Get(thing, Type)).value, x, y)
  }

  /** The outcome of the `find` as written: the index of the first thing the
      callback matches, or of the first thing on which it throws, or no
      match. */
  datatype Find = NoMatch | Match(index: nat) | NoType(index: nat)

  /** The callback neither matches nor throws on any thing before `i`. */
  ghost predicate PassedOver(vs: seq<Record>, i: int, x: real, y: real)
    requires 0 <= i <= |vs|
  {
    forall j :: 0 <= j < i ==> !ReadsMissingEntry(vs[j], x, y) && !Hits(vs[j], x, y)
  }

  /** `things.find(callback)` as written. */
  function FindAtAsWritten(vs: seq<Record>, x: real, y: real): (r: Find)
    ensures r.NoMatch? ==> PassedOver(vs, |vs|, x, y)
    ensures r.Match? ==> r.index < |vs| && PassedOver(vs, r.index, x, y) && Hits(vs[r.index], x, y)
    ensures r.NoType? ==> r.index < |vs| && PassedOver(vs, r.index, x, y) && ReadsMissingEntry(vs[r.index], x, y)
  {
    if vs == [] then NoMatch
    else if ReadsMissingEntry(vs[0], x, y) then NoType(0)
    else if Hits(vs[0], x, y) then Match(0)
    else
      match FindAtAsWritten(vs[1..], x, y)
      case NoMatch => NoMatch
      case Match(i) => Match(i + 1)
      case NoType(i) => NoType(i + 1)
  }

  /** No thing before `i` holds the point. */
  ghost predicate NoneHits(vs: seq<Record>, i: int, x: real, y: real)
    requires 0 <= i <= |vs|
  {
    forall j :: 0 <= j < i ==> !Hits(vs[j], x, y)
  }

  /** The `find` as evidently intended: the index of the first thing whose
      catalog footprint holds the point. A thing whose type the catalog lacks
      holds no point and is passed over. */
  function FindAt(vs: seq<Record>, x: real, y: real): (r: Option<nat>)
    ensures r.None? ==> NoneHits(vs, |vs|, x, y)
    ensures r.Some? ==> r.value < |vs| && NoneHits(vs, r.value, x, y) && Hits(vs[r.value], x, y)
  {
    if vs == [] then None
    else if Hits(vs[0], x, y) then Some(0)
    else
      match FindAt(vs[1..], x, y)
      case None => None
      case Some(i) => Some(i + 1)
  }

  /** As written, the search throws exactly when it meets a thing whose
      missing catalog entry the callback reads before any thing holds the
      point. */
  lemma {:induction false} FindAtAsWrittenThrows(vs: seq<Record>, x: real, y: real)
    ensures FindAtAsWritten(vs, x, y).NoType? <==>
      exists j :: 0 <= j < |vs| && ReadsMissingEntry(vs[j], x, y) && NoneHits(vs, j, x, y)
  {
    if vs != [] {
      FindAtAsWrittenThrows(vs[1..], x, y);
      if !ReadsMissingEntry(vs[0], x, y) && !Hits(vs[0], x, y) {
        forall j | 0 < j < |vs| && ReadsMissingEntry(vs[j], x, y) && NoneHits(vs, j, x, y)
          ensures ReadsMissingEntry(vs[1..][j - 1], x, y) && NoneHits(vs[1..], j - 1, x, y)
        {
          assert vs[1..][j - 1] == vs[j];
        }
        forall j | 0 <= j < |vs[1..]| && ReadsMissingEntry(vs[1..][j], x, y) && NoneHits(vs[1..], j, x, y)
          ensures ReadsMissingEntry(vs[j + 1], x, y) && NoneHits(vs, j + 1, x, y)
        {
          assert vs[1..][j] == vs[j + 1];
        }
      }
    }
  }

  /** Where the search as written does not throw, it finds what the corrected
      search finds. */
  lemma {:induction false} FindAtAsWrittenAgrees(vs: seq<Record>, x: real, y: real)
    ensures !FindAtAsWritten(vs, x, y).NoType? ==>
      FindAt(vs, x, y) == if FindAtAsWritten(vs, x, y).Match? then Some(FindAtAsWritten(vs, x, y).index) else None
  {
    if vs != [] && !ReadsMissingEntry(vs[0], x, y) && !Hits(vs[0], x, y) {
      FindAtAsWrittenAgrees(vs[1..], x, y);
    }
  }

  /** The result of `getAtCoordinates` as written: `Thrown` stands for the
      `TypeError` raised on a thing whose type the catalog lacks. */
  datatype Hit = Nothing | Thing(thing: Record) | Thrown

  /** The matched record, joined with its selection entry when
      `aggregateSelection` is set and it is selected. */
  function WithSelection(m: Record, selected: Table, aggregateSelection: bool): (r: Record)
    ensures SelectionShape(selected) ==> r == m
    ensures !aggregateSelection ==> r == m
  {
    var id := Get(m, Id);
    if aggregateSelection && id.Str? && id.s in selected.entries then m + selected.entries[id.s] else m
  }

  /** `store.getAtCoordinates(x, y, { aggregateSelection })` as written. */
  function GetAtCoordinatesAsWritten(items: Table, selected: Table, x: real, y: real, aggregateSelection: bool): (r: Hit)
    requires items.Valid()
    ensures FindAtAsWritten(items.Values(), x, y).NoMatch? <==> r.Nothing?
    ensures FindAtAsWritten(items.Values(), x, y).NoType? <==> r.Thrown?
    ensures r.Thing? && (!aggregateSelection || SelectionShape(selected)) ==>
      r.thing == items.entries[items.keys[FindAtAsWritten(items.Values(), x, y).index]]
  {
    var vs := items.Values();
    match FindAtAsWritten(vs, x, y)
    case NoMatch => Nothing
    case NoType(_) => Thrown
    case Match(i) => Thing(WithSelection(vs[i], selected, aggregateSelection))
  }

  /** `store.getAtCoordinates(x, y, { aggregateSelection })` as evidently
      intended: the first stored thing whose catalog footprint holds the
      point, or `undefined` (`None`) when there is none. */
  function GetAtCoordinates(items: Table, selected: Table, x: real, y: real, aggregateSelection: bool): (r: Option<Record>)
    requires items.Valid()
    ensures r.None? <==> forall k :: k in items.entries ==> !Hits(items.entries[k], x, y)
    ensures r.Some? ==> exists i ::
      && 0 <= i < |items.keys| && Hits(items.entries[items.keys[i]], x, y)
      && (forall j :: 0 <= j < i ==> !Hits(items.entries[items.keys[j]], x, y))
      && r.value == WithSelection(items.entries[items.keys[i]], selected, aggregateSelection)
  {
    var vs := items.Values();
    match FindAt(vs, x, y)
    case None =>
      forall k | k in items.entries ensures !Hits(items.entries[k], x, y) {
        var i :| 0 <= i < |items.keys| && items.keys[i] == k;
        assert vs[i] == items.entries[k];
      }
      None
    case Some(i) =>
      assert vs[i] == items.entries[items.keys[i]];
      assert forall j :: 0 <= j < i ==> vs[j] == items.entries[items.keys[j]];
      Some(WithSelection(vs[i], selected, aggregateSelection))
  }

  /** As written, the search ends with a throw at the second thing when the
      first neither matches nor throws and the callback reads the second's
      missing catalog entry. */
  lemma ThrowsAtSecond(vs: seq<Record>, x: real, y: real)
    requires |vs| >= 2 && !ReadsMissingEntry(vs[0], x, y) && !Hits(vs[0], x, y)
    requires ReadsMissingEntry(vs[1], x, y)
    ensures FindAtAsWritten(vs, x, y) == NoType(1)
  {
    assert vs[1..][0] == vs[1];
  }

  /** Stamping an id on a thing that has none changes neither what the
      callback reads nor whether it matches. */
  lemma StampedLookup(id: string, thing: Record, x: real, y: real)
    requires Id !in thing
    ensures ReadsMissingEntry(Stamped(id, thing), x, y) == ReadsMissingEntry(thing, x, y)
    ensures Hits(Stamped(id, thing), x, y) == Hits(thing, x, y)
  {
    var s := Stamped(id, thing);
    assert Get(s, Type) == Get(thing, Type) && Get(s, X) == Get(thing, X) && Get(s, Y) == Get(thing, Y);
  }

  /** A wood tile at the origin stored before a peasant at `(1, 5)`: a click
      on the peasant throws as written, since `1 >= 0` sends the callback to
      the wood's missing catalog entry, and finds the peasant as intended. */
  lemma WoodBeforePeasant()
    ensures var wood := map[Id := Str("w"), Type := Kind(Wood), X := Num(0.0), Y := Num(0.0)];
      var peasant := map[Id := Str("p"), Type := Kind(Peasant), X := Num(1.0), Y := Num(5.0)];
      var items := Table(map["w" := wood, "p" := peasant], ["w", "p"]);
      && items.Valid()
      && GetAtCoordinatesAsWritten(items, Empty, 1.0, 5.0, true) == Thrown
      && GetAtCoordinates(items, Empty, 1.0, 5.0, true) == Some(peasant)
  {
    var wood := map[Id := Str("w"), Type := Kind(Wood), X := Num(0.0), Y := Num(0.0)];
    var peasant := map[Id := Str("p"), Type := Kind(Peasant), X := Num(1.0), Y := Num(5.0)];
    var items := Table(map["w" := wood, "p" := peasant], ["w", "p"]);
    var vs := items.Values();
    assert vs == [wood, peasant];
    assert ReadsMissingEntry(wood, 1.0, 5.0);
    assert Hits(peasant, 1.0, 5.0);
    assert vs[1..] == [peasant];
    assert FindAt(vs, 1.0, 5.0) == Some(1);
  }

  /** A thing whose type the catalog lacks that lies beyond the point on both
      axes is passed over without a throw, as written too. */
  lemma PastTheClickPassedOver(thing: Record, x: real, y: real)
    requires TypeOf(Get(thing, Type)).None?
    requires Get(thing, X).Num? && x < Get(thing, X).n && Get(thing, Y).Num? && y < Get(thing, Y).n
    ensures FindAtAsWritten([thing], x, y) == NoMatch
  {
  }

  /* -------------------------------------------------------------- getCollision */

  /** The `{ right, left, up, down }` direction flags of a move. */
  datatype Direction = Direction(right: bool, left: bool, up: bool, down: bool)

  /** `Math.floor(d) + (lead && size)`: the destination tile, pushed by the
      mover's size along an axis it leads on. */
  function SnapLead(d: real, lead: bool, size: Value): (r: real)
    requires lead ==> size.Num?
    ensures var tile := r - (if lead then size.n else 0.0);
      tile == tile.Floor as real && tile <= d < tile + 1.0
  {
    if lead then d.Floor as real + size.n else d.Floor as real
  }

  /** Whether `thing` (joined with its catalog entry) blocks the tile point
      `(px, py)` for the mover whose id is `sourceId`: it is another thing and
      its inclusive tile rectangle
      `[floor(x), floor(x) + width - 1] x [floor(y), floor(y) + height - 1]`
      holds the point. A thing without numeric position or size (a `wood`
      tile, whose type has no catalog entry) compares as `NaN` and blocks
      nothing. */
  predicate Blocks(thing: Record, sourceId: Value, px: real, py: real)
  {
    var tx, ty, w, h := Get(thing, X), Get(thing, Y), Get(thing, Width), Get(thing, Height);
    && Get(thing, Id) != sourceId
    && tx.Num? && ty.Num? && w.Num? && h.Num?
    && tx.n.Floor as real <= px <= tx.n.Floor as real + w.n - 1.0
    && ty.n.Floor as real <= py <= ty.n.Floor as real + h.n - 1.0
  }

  /** `things.some(blocks)`. */
  function AnyBlocks(vs: seq<Record>, sourceId: Value, px: real, py: real): (b: bool)
    ensures b <==> exists i :: 0 <= i < |vs| && Blocks(vs[i], sourceId, px, py)
  {
    if vs == [] then false
    else if Blocks(vs[0], sourceId, px, py) then true
    else
      var rest := AnyBlocks(vs[1..], sourceId, px, py);
      assert rest ==> exists i :: 0 <= i < |vs| && Blocks(vs[i], sourceId, px, py) by {
        if rest {
          var i :| 0 <= i < |vs[1..]| && Blocks(vs[1..][i], sourceId, px, py);
          assert vs[i + 1] == vs[1..][i];
        }
      }
      rest
  }

  /** `store.getCollision(source, destination, direction)` without the stray
      assignment at store.js line 86: whether some other stored thing's
      inclusive tile rectangle holds the destination's leading tile. Only the
      `right` and `down` flags matter. */
  function GetCollision(items: Table, source: Record, destX: real, destY: real, dir: Direction): (blocked: bool)
    requires items.Valid()
    requires dir.right ==> Get(source, Width).Num?
    requires dir.down ==> Get(source, Height).Num?
    ensures var px, py := SnapLead(destX, dir.right, Get(source, Width)), SnapLead(destY, dir.down, Get(source, Height));
      blocked <==> exists i :: 0 <= i < |items.keys| && Blocks(Aggregate(items.entries[items.keys[i]]), Get(source, Id), px, py)
  {
    var px, py := SnapLead(destX, dir.right, Get(source, Width)), SnapLead(destY, dir.down, Get(source, Height));
    AnyBlocks(GetArray(items, None, true), Get(source, Id), px, py)
  }

  /** The outcome of a call that may throw. */
  datatype Outcome<T> = Returned(value: T) | Threw

  /** The `some` of `getCollision` as written: the assignment to the
      undeclared `minX` throws a `ReferenceError` in a module (strict mode) on
      the first thing whose id differs from the mover's. */
  function AnyBlocksAsWritten(vs: seq<Record>, sourceId: Value, px: real, py: real): (r: Outcome<bool>)
    ensures r.Threw? <==> exists i :: 0 <= i < |vs| && Get(vs[i], Id) != sourceId
    ensures r.Returned? ==> r.value == false
  {
    if vs == [] then Returned(false)
    else if Get(vs[0], Id) == sourceId then
      var rest := AnyBlocksAsWritten(vs[1..], sourceId, px, py);
      assert rest.Threw? ==> exists i :: 0 <= i < |vs| && Get(vs[i], Id) != sourceId by {
        if rest.Threw? {
          var i :| 0 <= i < |vs[1..]| && Get(vs[1..][i], Id) != sourceId;
          assert vs[i + 1] == vs[1..][i];
        }
      }
      rest
    else Threw
  }

  /** `getCollision` as written. */
  function CollisionAsWritten(items: Table, source: Record, destX: real, destY: real, dir: Direction): (r: Outcome<bool>)
    requires items.Valid()
    requires dir.right ==> Get(source, Width).Num?
    requires dir.down ==> Get(source, Height).Num?
    ensures r.Threw? <==> exists i :: 0 <= i < |items.keys| && Get(items.entries[items.keys[i]], Id) != Get(source, Id)
  {
    var px, py := SnapLead(destX, dir.right, Get(source, Width)), SnapLead(destY, dir.down, Get(source, Height));
    AnyBlocksAsWritten(GetArray(items, None, true), Get(source, Id), px, py)
  }

  /** As written, `getCollision` throws on any store that holds a thing other
      than the mover, whether or not that thing is in the way. */
  lemma StrayAssignmentThrows(items: Table, source: Record, k: string, destX: real, destY: real, dir: Direction)
    requires items.Valid() && k in items.entries && Get(items.entries[k], Id) != Get(source, Id)
    requires dir.right ==> Get(source, Width).Num?
    requires dir.down ==> Get(source, Height).Num?
    ensures CollisionAsWritten(items, source, destX, destY, dir) == Threw
  {
    var i :| 0 <= i < |items.keys| && items.keys[i] == k;
  }

  /** A peasant joined with its catalog entry occupies one tile. */
  lemma PeasantOneTile(r: Record)
    requires Get(r, Type) == Kind(Peasant)
    ensures Get(Aggregate(r), Width) == Num(1.0) && Get(Aggregate(r), Height) == Num(1.0)
  {
    var peasant := Catalog(Peasant).value;
    assert Get(peasant, Width) == Num(1.0) && Get(peasant, Height) == Num(1.0);
  }

  /** Without the stray assignment, a one-tile mover at (1, 1) stepping right
      is blocked by another peasant at (2, 1). */
  lemma NeighbourBlocks(items: Table, source: Record, k: string)
    requires items.Valid() && k in items.entries
    requires Get(source, Width) == Num(1.0)
    requires var n := items.entries[k];
      Get(n, Id) != Get(source, Id) && Get(n, Type) == Kind(Peasant) && Get(n, X) == Num(2.0) && Get(n, Y) == Num(1.0)
    ensures GetCollision(items, source, 1.0, 1.0, Direction(true, false, false, false))
  {
    var i :| 0 <= i < |items.keys| && items.keys[i] == k;
    var a := Aggregate(items.entries[k]);
    PeasantOneTile(items.entries[k]);
    assert Get(a, Id) != Get(source, Id) && Get(a, X) == Num(2.0) && Get(a, Y) == Num(1.0) by {
      assert Id in ThingProperties && X in ThingProperties && Y in ThingProperties;
    }
    assert Blocks(a, Get(source, Id), 2.0, 1.0);
  }

  /* ---------------------------------------------------------- getSelectionArray */

  /** `store.getSelectionArray({ aggregateThings })`: the selection entries in
      selection order. The joined array built when `aggregateThings` is set is
      discarded, so the flag changes nothing. */
  function GetSelectionArray(selected: Table, aggregateThings: bool): (r: seq<Record>)
    requires selected.Valid()
    ensures |r| == |selected.keys|
    ensures SelectionShape(selected) ==> forall i :: 0 <= i < |r| ==> r[i] == map[Id := Str(selected.keys[i])]
  {
    selected.Values()
  }

  /* ---------------------------------------------------------------------- add */

  /** The stored form of an added thing: `{ id, ...thing }`. A thing with no
      `id` of its own keeps every field and gains the new id. */
  function Stamped(id: string, thing: Record): (r: Record)
    ensures Id !in thing ==> Get(r, Id) == Str(id) && forall p :: p != Id ==> Get(r, p) == Get(thing, p)
  {
    map[Id := Str(id)] + thing
  }

  /** The `thingMap` that `add` builds: each thing stamped with its id and
      assigned in input order. */
  function ThingMap(things: seq<Record>, ids: seq<string>): Table
    requires |ids| == |things|
    decreases |ids|
  {
    if ids == [] then Empty
    else
      var n := |ids| - 1;
      ThingMap(things[..n], ids[..n]).Put(ids[n], Stamped(ids[n], things[n]))
  }

  /** The `forEach` of `add` that fills `thingMap`. */
  method BuildThingMap(things: seq<Record>, ids: seq<string>) returns (thingMap: Table)
    requires |ids| == |things|
    ensures thingMap == ThingMap(things, ids)
  {
    thingMap := Empty;
    var i := 0;
    while i < |things|
      invariant 0 <= i <= |things|
      invariant thingMap == ThingMap(things[..i], ids[..i])
    {
      assert things[..i + 1][..i] == things[..i] && ids[..i + 1][..i] == ids[..i];
      thingMap := thingMap.Put(ids[i], Stamped(ids[i], things[i]));
      i := i + 1;
    }
    assert things[..i] == things && ids[..i] == ids;
  }

  /** With distinct ids, `thingMap` lists exactly the ids, in order. */
  lemma {:induction false} ThingMapKeys(things: seq<Record>, ids: seq<string>)
    requires |ids| == |things| && Distinct(ids)
    ensures ThingMap(things, ids).Valid() && ThingMap(things, ids).keys == ids
    decreases |ids|
  {
    if ids != [] {
      var n := |ids| - 1;
      DistinctPrefix(ids, n);
      ThingMapKeys(things[..n], ids[..n]);
      assert ids[n] !in ThingMap(things[..n], ids[..n]).entries by {
        forall i | 0 <= i < n ensures ids[..n][i] != ids[n] { }
      }
      assert ids[..n] + [ids[n]] == ids;
    }
  }

  /** With distinct ids, the `i`-th id of `thingMap` holds the `i`-th thing,
      stamped. */
  lemma {:induction false} ThingMapAt(things: seq<Record>, ids: seq<string>, i: int)
    requires |ids| == |things| && Distinct(ids) && 0 <= i < |ids|
    ensures ids[i] in ThingMap(things, ids).entries
    ensures ThingMap(things, ids).entries[ids[i]] == Stamped(ids[i], things[i])
    decreases |ids|
  {
    var n := |ids| - 1;
    if i < n {
      DistinctPrefix(ids, n);
      ThingMapAt(things[..n], ids[..n], i);
      assert ids[..n][i] == ids[i] && things[..n][i] == things[i];
      assert ids[i] != ids[n];
    }
  }

  /** With distinct ids, `thingMap` lists the ids in order, each holding its
      stamped thing. */
  lemma ThingMapShape(things: seq<Record>, ids: seq<string>)
    requires |ids| == |things| && Distinct(ids)
    ensures var t := ThingMap(things, ids);
      && t.Valid() && t.keys == ids
      && (forall i :: 0 <= i < |ids| ==> t.entries[ids[i]] == Stamped(ids[i], things[i]))
  {
    ThingMapKeys(things, ids);
    forall i | 0 <= i < |ids| ensures ThingMap(things, ids).entries[ids[i]] == Stamped(ids[i], things[i]) {
      ThingMapAt(things, ids, i);
    }
  }

  /** `this.items` after `add(things)` drew the fresh ids `ids`:
      `{ ...items, ...thingMap }`. */
  function Added(items: Table, things: seq<Record>, ids: seq<string>): Table
    requires |ids| == |things| && Distinct(ids)
  {
    ThingMapShape(things, ids);
    Spread(items, ThingMap(things, ids))
  }

  /** Adding keeps every stored entry and appends one entry per thing, under
      its fresh id, holding `{ id, ...thing }`. */
  lemma AddedShape(items: Table, things: seq<Record>, ids: seq<string>)
    requires items.Valid()
    requires |ids| == |things| && Distinct(ids)
    requires forall id :: id in ids ==> id !in items.entries
    ensures var t := Added(items, things, ids);
      && t.Valid() && t.keys == items.keys + ids
      && (forall k :: k in t.entries <==> k in items.entries || k in ids)
      && (forall k :: k in items.entries ==> t.entries[k] == items.entries[k])
      && (forall i :: 0 <= i < |ids| ==> t.entries[ids[i]] == Stamped(ids[i], things[i]))
  {
    ThingMapShape(things, ids);
  }

  /** Adding things that carry no `id` of their own keeps ids matching keys,
      and `getById` finds each added thing, unsanitized, under its new id. */
  lemma AddedThenGetById(items: Table, things: seq<Record>, ids: seq<string>)
    requires items.Valid() && IdsMatchKeys(items)
    requires |ids| == |things| && Distinct(ids)
    requires forall id :: id in ids ==> id !in items.entries
    requires forall i :: 0 <= i < |things| ==> Id !in things[i]
    ensures IdsMatchKeys(Added(items, things, ids))
    ensures forall i :: 0 <= i < |ids| ==>
      GetById(Added(items, things, ids), ids[i]) == Some(Stamped(ids[i], things[i]))
  {
    AddedShape(items, things, ids);
    var t := Added(items, things, ids);
    forall k | k in t.entries ensures Get(t.entries[k], Id) == Str(k) {
      if k !in items.entries {
        var i :| 0 <= i < |ids| && ids[i] == k;
        assert t.entries[k] == Stamped(ids[i], things[i]);
      }
    }
  }

  /** Adding to the empty store lists the things in input order, each under
      its fresh id and stamped with it. */
  lemma AddedToEmpty(things: seq<Record>, ids: seq<string>, i: int)
    requires |ids| == |things| && Distinct(ids) && 0 <= i < |things|
    ensures Added(Empty, things, ids).Valid() && Added(Empty, things, ids).keys == ids
    ensures Added(Empty, things, ids).Values()[i] == Stamped(ids[i], things[i])
  {
    AddedShape(Empty, things, ids);
  }

  /* ------------------------------------------------------------------- update */

  /** Every partial record names the entity it updates by a string `id`. */
  predicate HasIds(partials: seq<Record>)
  {
    forall i :: 0 <= i < |partials| ==> Get(partials[i], Id).Str?
  }

  /** The ids the partial records name. */
  function IdsOf(partials: seq<Record>): (ids: seq<string>)
    requires HasIds(partials)
    ensures |ids| == |partials|
    ensures forall i :: 0 <= i < |ids| ==> Str(ids[i]) == Get(partials[i], Id)
  {
    seq(|partials|, i requires 0 <= i < |partials| => Get(partials[i], Id).s)
  }

  /** An id is named by a list of partials exactly when the first partial or
      one of the rest names it. */
  lemma IdsOfCons(partials: seq<Record>)
    requires HasIds(partials) && partials != []
    ensures HasIds(partials[1..])
    ensures forall k :: k in IdsOf(partials) <==> k == Get(partials[0], Id).s || k in IdsOf(partials[1..])
  {
    var ids, rest := IdsOf(partials), IdsOf(partials[1..]);
    forall k | k in ids ensures k == Get(partials[0], Id).s || k in rest {
      var j :| 0 <= j < |ids| && ids[j] == k;
      if j > 0 {
        assert rest[j - 1] == k;
      }
    }
    forall k | k in rest ensures k in ids {
      var j :| 0 <= j < |rest| && rest[j] == k;
      assert ids[j + 1] == k;
    }
    assert ids[0] == Get(partials[0], Id).s;
  }

  /** One step of `update`: the record under the partial's id becomes the
      sanitized `{ ...(!replace && { ...thing }), ...partial }`. */
  function UpdateOne(items: Table, partial: Record, replace: bool): (t: Table)
    requires Get(partial, Id).Str?
    ensures t.entries.Keys == items.entries.Keys + {Get(partial, Id).s}
    ensures forall k :: k in items.entries && k != Get(partial, Id).s ==> t.entries[k] == items.entries[k]
  {
    var id := Get(partial, Id).s;
    var base := if !replace && id in items.entries then items.entries[id] else map[];
    items.Put(id, Canonical(base + partial))
  }

  /** One step keeps the table well formed and ids matching keys; a stored id
      keeps its place in the key order and a new one goes last. */
  lemma UpdateOneValid(items: Table, partial: Record, replace: bool)
    requires Get(partial, Id).Str? && items.Valid() && IdsMatchKeys(items)
    ensures var t, id := UpdateOne(items, partial, replace), Get(partial, Id).s;
      && t.Valid() && IdsMatchKeys(t) && (Distinct(items.keys) ==> Distinct(t.keys))
      && (id in items.entries ==> t.keys == items.keys)
      && (id !in items.entries ==> t.keys == items.keys + [id])
  {
  }

  /** The updated record holds exactly the canonical fields. A field the
      partial has takes the partial's value; any other keeps the old record's
      value when merging, and is `undefined` when replacing or when the id was
      not stored. */
  lemma UpdateOneFields(items: Table, partial: Record, replace: bool)
    requires Get(partial, Id).Str?
    ensures var r := UpdateOne(items, partial, replace).entries[Get(partial, Id).s];
      && (forall p :: p in r <==> p in ThingProperties)
      && (forall p :: p in ThingProperties ==>
            r[p] == if p in partial then partial[p]
              else if !replace && Get(partial, Id).s in items.entries then Get(items.entries[Get(partial, Id).s], p)
              else Undefined)
  {
  }

  /** `this.items` after `update(partials, { replace })`: the partials applied
      one after another. */
  function Updated(items: Table, partials: seq<Record>, replace: bool): Table
    requires HasIds(partials)
    decreases |partials|
  {
    if partials == [] then items
    else Updated(UpdateOne(items, partials[0], replace), partials[1..], replace)
  }

  /** `update` stores an entry under every id it is given, creating those not
      yet stored, and no other. */
  lemma {:induction false} UpdatedKeys(items: Table, partials: seq<Record>, replace: bool)
    requires HasIds(partials)
    ensures forall k :: k in Updated(items, partials, replace).entries <==> k in items.entries || k in IdsOf(partials)
    decreases |partials|
  {
    if partials != [] {
      UpdatedKeys(UpdateOne(items, partials[0], replace), partials[1..], replace);
      IdsOfCons(partials);
    }
  }

  /** `update` leaves every entry it is not given as it was. */
  lemma {:induction false} UpdatedFrame(items: Table, partials: seq<Record>, replace: bool)
    requires HasIds(partials)
    ensures forall k :: k in items.entries && k !in IdsOf(partials) ==>
      k in Updated(items, partials, replace).entries && Updated(items, partials, replace).entries[k] == items.entries[k]
    decreases |partials|
  {
    if partials != [] {
      UpdatedFrame(UpdateOne(items, partials[0], replace), partials[1..], replace);
      IdsOfCons(partials);
    }
  }

  /** `update` keeps the table well formed and free of repeated keys, with
      each record's id its key. */
  lemma {:induction false} UpdatedValid(items: Table, partials: seq<Record>, replace: bool)
    requires HasIds(partials) && items.Valid() && IdsMatchKeys(items)
    ensures Updated(items, partials, replace).Valid() && IdsMatchKeys(Updated(items, partials, replace))
    ensures Distinct(items.keys) ==> Distinct(Updated(items, partials, replace).keys)
    decreases |partials|
  {
    if partials != [] {
      UpdateOneValid(items, partials[0], replace);
      UpdatedValid(UpdateOne(items, partials[0], replace), partials[1..], replace);
    }
  }

  /** Applying one more partial is one more step. */
  lemma UpdatedSnoc(items: Table, partials: seq<Record>, i: nat, replace: bool)
    requires HasIds(partials) && i < |partials|
    ensures Updated(items, partials[..i + 1], replace) == UpdateOne(Updated(items, partials[..i], replace), partials[i], replace)
  {
    assert partials[..i + 1] == partials[..i] + [partials[i]];
    UpdatedAppend(items, partials[..i], [partials[i]], replace);
    assert [partials[i]][1..] == [];
  }

  /** Applying two lists of partials is applying the first, then the second. */
  lemma {:induction false} UpdatedAppend(items: Table, a: seq<Record>, b: seq<Record>, replace: bool)
    requires HasIds(a) && HasIds(b)
    ensures HasIds(a + b) && Updated(items, a + b, replace) == Updated(Updated(items, a, replace), b, replace)
    decreases |a|
  {
    assert HasIds(a + b) by {
      forall i | 0 <= i < |a + b| ensures Get((a + b)[i], Id).Str? {
        if i >= |a| { assert (a + b)[i] == b[i - |a|]; }
      }
    }
    if a == [] {
      assert a + b == b;
    } else {
      assert (a + b)[0] == a[0] && (a + b)[1..] == a[1..] + b;
      UpdatedAppend(UpdateOne(items, a[0], replace), a[1..], b, replace);
    }
  }

  /** Partials naming the same id are the same record. */
  predicate SameIdSameRecord(partials: seq<Record>)
  {
    forall i, j :: 0 <= i < |partials| && 0 <= j < |partials| && Get(partials[i], Id) == Get(partials[j], Id) ==>
      partials[i] == partials[j]
  }

  /** With `replace`, each named entry ends up as the sanitized partial, when
      every partial naming the same id is the same record. */
  lemma ReplacedEntries(items: Table, partials: seq<Record>)
    requires HasIds(partials) && SameIdSameRecord(partials)
    ensures forall i :: 0 <= i < |partials| ==>
      var id := IdsOf(partials)[i];
      id in Updated(items, partials, true).entries && Updated(items, partials, true).entries[id] == Canonical(partials[i])
  {
    forall i | 0 <= i < |partials|
      ensures IdsOf(partials)[i] in Updated(items, partials, true).entries
      ensures Updated(items, partials, true).entries[IdsOf(partials)[i]] == Canonical(partials[i])
    {
      ReplacedEntryAt(items, partials, i, IdsOf(partials)[i]);
    }
  }

  /** The entry the `i`-th partial names ends up as that partial, sanitized. */
  lemma {:induction false} ReplacedEntryAt(items: Table, partials: seq<Record>, i: int, id: string)
    requires HasIds(partials) && SameIdSameRecord(partials)
    requires 0 <= i < |partials| && Get(partials[i], Id) == Str(id)
    ensures id in Updated(items, partials, true).entries
    ensures Updated(items, partials, true).entries[id] == Canonical(partials[i])
    decreases |partials|
  {
    var next := UpdateOne(items, partials[0], true);
    var rest := partials[1..];
    assert HasIds(rest) && SameIdSameRecord(rest) by {
      assert forall j :: 0 <= j < |rest| ==> rest[j] == partials[j + 1];
    }
    if i > 0 {
      assert rest[i - 1] == partials[i];
      ReplacedEntryAt(next, rest, i - 1, id);
    } else if j :| 0 <= j < |rest| && Get(rest[j], Id) == Str(id) {
      assert rest[j] == partials[j + 1];
      ReplacedEntryAt(next, rest, j, id);
    } else {
      assert next.entries[id] == Canonical(partials[0]) by {
        assert map[] + partials[0] == partials[0];
      }
      assert id !in IdsOf(rest) by {
        forall j | 0 <= j < |rest| ensures IdsOf(rest)[j] != id {
          assert Str(IdsOf(rest)[j]) == Get(rest[j], Id);
        }
      }
      UpdatedFrame(next, rest, true);
    }
  }

  /** When the partials name distinct ids, each id ends up as if its partial
      had been applied alone to the original table. */
  lemma UpdatedDistinct(items: Table, partials: seq<Record>, replace: bool)
    requires HasIds(partials) && Distinct(IdsOf(partials))
    ensures forall i :: 0 <= i < |partials| ==>
      var id := IdsOf(partials)[i];
      id in Updated(items, partials, replace).entries &&
      Updated(items, partials, replace).entries[id] == UpdateOne(items, partials[i], replace).entries[id]
  {
    forall i | 0 <= i < |partials|
      ensures IdsOf(partials)[i] in Updated(items, partials, replace).entries
      ensures Updated(items, partials, replace).entries[IdsOf(partials)[i]] == UpdateOne(items, partials[i], replace).entries[IdsOf(partials)[i]]
    {
      UpdatedDistinctAt(items, partials, replace, i, IdsOf(partials)[i]);
    }
  }

  /** The `i`-th partial, whose id no other partial names, decides its entry
      alone. */
  lemma {:induction false} UpdatedDistinctAt(items: Table, partials: seq<Record>, replace: bool, i: int, id: string)
    requires HasIds(partials) && Distinct(IdsOf(partials))
    requires 0 <= i < |partials| && Get(partials[i], Id) == Str(id)
    ensures id in Updated(items, partials, replace).entries
    ensures Updated(items, partials, replace).entries[id] == UpdateOne(items, partials[i], replace).entries[id]
    decreases |partials|
  {
    var ids := IdsOf(partials);
    var next := UpdateOne(items, partials[0], replace);
    var rest := partials[1..];
    assert HasIds(rest) && IdsOf(rest) == ids[1..];
    if i == 0 {
      assert id !in IdsOf(rest) by {
        forall j | 0 <= j < |rest| ensures IdsOf(rest)[j] != id {
          assert IdsOf(rest)[j] == ids[j + 1];
        }
      }
      UpdatedFrame(next, rest, replace);
    } else {
      assert Distinct(IdsOf(rest)) by {
        forall a, b | 0 <= a < b < |rest| ensures IdsOf(rest)[a] != IdsOf(rest)[b] {
          assert IdsOf(rest)[a] == ids[a + 1] && IdsOf(rest)[b] == ids[b + 1];
        }
      }
      assert rest[i - 1] == partials[i];
      UpdatedDistinctAt(next, rest, replace, i - 1, id);
      assert ids[i] != ids[0];
      UpdateOneSameEntry(items, next, partials[i], replace);
    }
  }

  /** One step's result under its id depends only on what was stored there. */
  lemma UpdateOneSameEntry(a: Table, b: Table, partial: Record, replace: bool)
    requires Get(partial, Id).Str?
    requires var id := Get(partial, Id).s;
      && (id in a.entries <==> id in b.entries)
      && (id in a.entries ==> a.entries[id] == b.entries[id])
    ensures var id := Get(partial, Id).s;
      UpdateOne(a, partial, replace).entries[id] == UpdateOne(b, partial, replace).entries[id]
  {
  }

  /* -------------------------------------------------------- remove / unselect */

  /** A table after `ids.forEach(id => { delete table[id]; })`. */
  function Deleted(t: Table, ids: seq<string>): (r: Table)
    ensures forall k :: k in r.entries <==> k in t.entries && k !in ids
    ensures forall k :: k in r.entries ==> r.entries[k] == t.entries[k]
    ensures t.Valid() ==> r.Valid()
    ensures Distinct(t.keys) ==> Distinct(r.keys)
    decreases |ids|
  {
    if ids == [] then t else Deleted(t.Without({ids[0]}), ids[1..])
  }

  /** Deleting the ids one by one is deleting the set of them at once: the
      remaining keys keep their order. */
  lemma {:induction false} DeletedAtOnce(t: Table, ids: seq<string>)
    ensures Deleted(t, ids) == t.Without(set k | k in ids)
    decreases |ids|
  {
    if ids == [] {
      KeysNotInNothing(t.keys, {});
      assert t.entries - {} == t.entries;
      assert (set k | k in ids) == {};
    } else {
      DeletedAtOnce(t.Without({ids[0]}), ids[1..]);
      WithoutTwice(t, {ids[0]}, set k | k in ids[1..]);
      assert {ids[0]} + (set k | k in ids[1..]) == set k | k in ids;
    }
  }


  /** `this.selected` after `select(ids)`: each id's entry set to `{ id }`, in
      order, whether or not the id is stored in `items`. */
  function SelectAll(t: Table, ids: seq<string>): (r: Table)
    ensures forall k :: k in r.entries <==> k in t.entries || k in ids
    ensures forall k :: k in r.entries ==> r.entries[k] == if k in ids then map[Id := Str(k)] else t.entries[k]
    ensures t.Valid() ==> r.Valid()
    ensures SelectionShape(t) ==> SelectionShape(r)
    ensures t.Valid() && Distinct(t.keys) ==> Distinct(r.keys)
    decreases |ids|
  {
    if ids == [] then t
    else SelectAll(t.Put(ids[0], map[Id := Str(ids[0])]), ids[1..])
  }

  /** Selecting ids that are already selected changes nothing. */
  lemma {:induction false} SelectAlreadySelected(t: Table, ids: seq<string>)
    requires t.Valid()
    requires forall k :: k in ids ==> k in t.entries && t.entries[k] == map[Id := Str(k)]
    ensures SelectAll(t, ids) == t
    decreases |ids|
  {
    if ids != [] {
      var u := t.Put(ids[0], map[Id := Str(ids[0])]);
      assert u.entries == t.entries;
      assert u == t;
      SelectAlreadySelected(u, ids[1..]);
    }
  }

  /** `select` is idempotent. */
  lemma SelectIdempotent(t: Table, ids: seq<string>)
    requires t.Valid()
    ensures SelectAll(SelectAll(t, ids), ids) == SelectAll(t, ids)
  {
    SelectAlreadySelected(SelectAll(t, ids), ids);
  }

  /* -------------------------------------------------------------------- Store */

  /** The store instance the engine mutates. */
  class Store {
    var items: Table
    var selected: Table

    /** Both tables are well formed and list each key once, every stored
        record's `id` is its key and every selection entry is `{ id }`. */
    ghost predicate Valid()
      reads this
    {
      && items.Valid() && selected.Valid() && Distinct(items.keys) && Distinct(selected.keys)
      && IdsMatchKeys(items) && SelectionShape(selected)
    }

    constructor()
      ensures Valid() && items == Empty && selected == Empty
    {
      items := Empty;
      selected := Empty;
    }

    /** `add(things)`, where `ids` are the fresh ids `uuid()` draws, one per
        thing. Inputs carry no `id` of their own (one would override the
        drawn id). */
    method Add(things: seq<Record>, ids: seq<string>)
      requires |ids| == |things| && Distinct(ids)
      requires forall id :: id in ids ==> id !in items.entries
      requires forall i :: 0 <= i < |things| ==> Id !in things[i]
      modifies this
      ensures items == Added(old(items), things, ids) && selected == old(selected)
      ensures old(Valid()) ==> Valid()
    {
      var thingMap := BuildThingMap(things, ids);
      ThingMapShape(things, ids);
      items := Spread(items, thingMap);
      if old(Valid()) {
        AddedShape(old(items), things, ids);
        AddedThenGetById(old(items), things, ids);
      }
    }

    /** `sanitizeThing(thing)`: copies each `THING_PROPERTIES` field. */
    method SanitizeThing(thing: Record) returns (stripped: Record)
      ensures stripped == Canonical(thing)
    {
      stripped := map[];
      var i := 0;
      while i < |ThingProperties|
        invariant 0 <= i <= |ThingProperties|
        invariant forall p :: p in stripped <==> p in ThingProperties[..i]
        invariant forall p :: p in stripped ==> stripped[p] == Get(thing, p)
      {
        stripped := stripped[ThingProperties[i] := Get(thing, ThingProperties[i])];
        i := i + 1;
      }
      assert ThingProperties[..i] == ThingProperties;
    }

    /** `update(partials, { replace })`: each partial names its entity by a
        string `id`. */
    method Update(partials: seq<Record>, replace: bool)
      requires HasIds(partials)
      modifies this
      ensures items == Updated(old(items), partials, replace) && selected == old(selected)
      ensures old(Valid()) ==> Valid()
    {
      UpdateEach(partials, replace);
      if old(Valid()) {
        UpdatedValid(old(items), partials, replace);
      }
    }

    /** The `forEach` of `update`: each partial, merged into or replacing the
        stored record, is sanitized and written back under its id. */
    method UpdateEach(partials: seq<Record>, replace: bool)
      requires HasIds(partials)
      modifies this
      ensures items == Updated(old(items), partials, replace) && selected == old(selected)
    {
      var i := 0;
      while i < |partials|
        invariant 0 <= i <= |partials|
        invariant items == Updated(old(items), partials[..i], replace)
        invariant selected == old(selected)
      {
        UpdatedSnoc(old(items), partials, i, replace);
        UpdateEntry(partials[i], replace);
        i := i + 1;
      }
      assert partials[..i] == partials;
    }

    /** The callback of that `forEach` for one partial. */
    method UpdateEntry(partial: Record, replace: bool)
      requires Get(partial, Id).Str?
      modifies this
      ensures items == UpdateOne(old(items), partial, replace) && selected == old(selected)
    {
      var id := Get(partial, Id).s;
      var base := if !replace && id in items.entries then items.entries[id] else map[];
      var stripped := SanitizeThing(base + partial);
      items := items.Put(id, stripped);
    }

    /** `remove(ids)`: unknown ids are skipped; the selection is left alone. */
    method Remove(ids: seq<string>)
      modifies this
      ensures items == Deleted(old(items), ids) && selected == old(selected)
      ensures old(Valid()) ==> Valid()
    {
      var i := 0;
      while i < |ids|
        invariant 0 <= i <= |ids|
        invariant selected == old(selected)
        invariant Deleted(items, ids[i..]) == Deleted(old(items), ids)
      {
        assert ids[i..][1..] == ids[i + 1..];
        items := items.Without({ids[i]});
        i := i + 1;
      }
    }

    /** `select(ids)`. */
    method Select(ids: seq<string>)
      modifies this
      ensures selected == SelectAll(old(selected), ids) && items == old(items)
      ensures old(Valid()) ==> Valid()
    {
      var i := 0;
      while i < |ids|
        invariant 0 <= i <= |ids|
        invariant items == old(items)
        invariant SelectAll(selected, ids[i..]) == SelectAll(old(selected), ids)
      {
        assert ids[i..][1..] == ids[i + 1..];
        selected := selected.Put(ids[i], map[Id := Str(ids[i])]);
        i := i + 1;
      }
    }

    /** `unselect(ids)`: with no list (`null`) the selection is emptied;
        otherwise the listed ids are deleted from it. */
    method Unselect(ids: Option<seq<string>>)
      modifies this
      ensures selected == (if ids.None? then Empty else Deleted(old(selected), ids.value))
      ensures items == old(items)
      ensures old(Valid()) ==> Valid()
    {
      if ids.None? {
        selected := Empty;
        return;
      }
      var list := ids.value;
      var i := 0;
      while i < |list|
        invariant 0 <= i <= |list|
        invariant items == old(items)
        invariant Deleted(selected, list[i..]) == Deleted(old(selected), list)
      {
        assert list[i..][1..] == list[i + 1..];
        selected := selected.Without({list[i]});
        i := i + 1;
      }
    }
  }
}
