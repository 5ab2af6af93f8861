/** The static tables of the engine: the type catalog `THING_TYPES`, the
    canonical property list of a stored entity, the derived list of building
    names and the target tick length. */
module Constants {
  import opened JsObject

  /** Target milliseconds per game tick (30 ticks a second). */
  const MAX_FPS: real := 1000.0 / 30.0

  const BUILDING: string := "building"
  const UNIT: string := "unit"

  /** The `class` of each catalog type. */
  function ClassOf(t: ThingType): (c: string)
    ensures c == BUILDING <==> t in {Goldmine, Townhall, Farm, Barracks}
  {
    match t
    case Goldmine | Townhall | Farm | Barracks => BUILDING
    case Peasant | Catapult => UNIT
    case Wood => ""
  }

  /** The keys of `THING_TYPES`, in declaration order (`Object.keys`). */
  const CatalogKeys: seq<ThingType> := [Goldmine, Townhall, Farm, Barracks, Peasant, Catapult]

  /** `THING_TYPES[t]`: the catalog entry of a type; `wood` has none. */
  function Catalog(t: ThingType): (entry: Option<Record>)
    ensures entry.Some? <==> t in CatalogKeys
  {
    match t
    case Goldmine => Some(map[
      DisplayName := Str("Gold Mine"), Class := Str(ClassOf(t)),
      Height := Num(3.0), Width := Num(3.0), Color := Str("gold")])
    case Townhall => Some(map[
      DisplayName := Str("Town Hall"), Class := Str(ClassOf(t)),
      Height := Num(4.0), Width := Num(4.0), BuildTime := Num(255000.0),
      MaxHealth := Num(1200.0), FoodProduction := Num(1.0),
      Gold := Num(1000.0), Lumber := Num(600.0)])
    case Farm => Some(map[
      DisplayName := Str("Farm"), Class := Str(ClassOf(t)),
      Height := Num(2.0), Width := Num(2.0), BuildTime := Num(100000.0),
      MaxHealth := Num(400.0), FoodProduction := Num(4.0),
      Gold := Num(500.0), Lumber := Num(100.0)])
    case Barracks => Some(map[
      DisplayName := Str("Barracks"), Class := Str(ClassOf(t)),
      Height := Num(3.0), Width := Num(3.0), BuildTime := Num(200000.0),
      MaxHealth := Num(800.0), Gold := Num(300.0), Lumber := Num(400.0),
      Oil := Num(50.0)])
    case Peasant => Some(map[
      DisplayName := Str("Peasant"), Class := Str(ClassOf(t)), Builder := Flag(true),
      Height := Num(1.0), Width := Num(1.0), Speed := Num(150.0 / 1000.0),
      MaxHealth := Num(50.0), Food := Num(1.0)])
    case Catapult => Some(map[
      DisplayName := Str("Catapult"), Class := Str(ClassOf(t)),
      Height := Num(1.0), Width := Num(1.0), Speed := Num(200.0 / 1000.0),
      MaxHealth := Num(120.0), Food := Num(1.0)])
    case Wood => None
  }

  /** `THING_TYPES[thing.type]` for whatever value the `type` property holds. */
  function TypeOf(typeName: Value): (entry: Option<Record>)
    ensures entry.Some? <==> typeName.Kind? && typeName.t in CatalogKeys
  {
    if typeName.Kind? then Catalog(typeName.t) else None
  }

  /** `THING_PROPERTIES`: the fields a stored entity keeps after an update. */
  const ThingProperties: seq<Prop> :=
    [Id, Type, Owner, X, Y, Goal, Health, TimeToBuild, ThingsHosted]

  /** The entry's `class` is the one `ClassOf` names. */
  lemma CatalogClass(t: ThingType)
    requires t in CatalogKeys
    ensures Get(Catalog(t).value, Class) == Str(ClassOf(t))
  {
  }

  /** `THING_TYPES[name].class === 'building'` for a catalog key. */
  predicate IsBuilding(t: ThingType)
  {
    t in CatalogKeys && ClassOf(t) == BUILDING
  }

  /** The catalog keys among `names` whose class is `building`, in their order
      (the filter that defines `BUILDING_NAMES`). */
  function BuildingsIn(names: seq<ThingType>): (r: seq<ThingType>)
    ensures |r| <= |names|
  {
    if names == [] then []
    else if IsBuilding(names[0]) then [names[0]] + BuildingsIn(names[1..])
    else BuildingsIn(names[1..])
  }

  /** `BUILDING_NAMES`. */
  const BuildingNames: seq<ThingType> := BuildingsIn(CatalogKeys)

  /** Filtering a concatenation filters each part. */
  lemma {:induction false} BuildingsInAppend(a: seq<ThingType>, b: seq<ThingType>)
    ensures BuildingsIn(a + b) == BuildingsIn(a) + BuildingsIn(b)
  {
    if a == [] {
      assert a + b == b;
    } else {
      assert (a + b)[0] == a[0];
      assert (a + b)[1..] == a[1..] + b;
      BuildingsInAppend(a[1..], b);
    }
  }

  /** The filter keeps exactly the buildings of `names`. */
  lemma {:induction false} BuildingsInMembers(names: seq<ThingType>)
    ensures forall t :: t in BuildingsIn(names) <==> t in names && IsBuilding(t)
  {
    if names != [] {
      BuildingsInMembers(names[1..]);
      assert names == [names[0]] + names[1..];
    }
  }

  /** A list of buildings filters to itself; a list without one, to nothing. */
  lemma {:induction false} BuildingsInUniform(names: seq<ThingType>)
    ensures (forall t :: t in names ==> IsBuilding(t)) ==> BuildingsIn(names) == names
    ensures (forall t :: t in names ==> !IsBuilding(t)) ==> BuildingsIn(names) == []
  {
    if names != [] {
      assert names[0] in names;
      assert forall t :: t in names[1..] ==> t in names;
      BuildingsInUniform(names[1..]);
      assert [names[0]] + names[1..] == names;
    }
  }

  lemma ClassesInCatalog()
    ensures IsBuilding(Goldmine) && IsBuilding(Townhall) && IsBuilding(Farm) && IsBuilding(Barracks)
    ensures !IsBuilding(Peasant) && !IsBuilding(Catapult)
  {
  }

  /** `BUILDING_NAMES` is goldmine, townhall, farm, barracks, in that order. */
  lemma BuildingNamesInOrder()
    ensures BuildingNames == [Goldmine, Townhall, Farm, Barracks]
  {
    var buildings, units := [Goldmine, Townhall, Farm, Barracks], [Peasant, Catapult];
    ClassesInCatalog();
    BuildingsInUniform(buildings);
    BuildingsInUniform(units);
    BuildingsInAppend(buildings, units);
    assert CatalogKeys == buildings + units;
  }

  /** A footprint is a whole number of tiles, at least one in each direction. */
  predicate WholeTiles(v: Value)
  {
    v.Num? && v.n == v.n.Floor as real && v.n >= 1.0
  }

  /** Every catalog type has an integral footprint of at least 1 x 1. */
  lemma CatalogFootprints()
    ensures forall t :: t in CatalogKeys ==>
      WholeTiles(Get(Catalog(t).value, Width)) && WholeTiles(Get(Catalog(t).value, Height))
  {
  }

  /** The two unit types are the peasant and the catapult, each 1 x 1. */
  lemma UnitsAreOneTile()
    ensures forall t :: t in CatalogKeys && ClassOf(t) == UNIT ==>
      (t == Peasant || t == Catapult) &&
      Get(Catalog(t).value, Width) == Num(1.0) && Get(Catalog(t).value, Height) == Num(1.0)
  {
  }

  /** Only the peasant is a builder. */
  lemma OnlyPeasantBuilds()
    ensures forall t :: t in CatalogKeys ==> (Get(Catalog(t).value, Builder) == Flag(true) <==> t == Peasant)
  {
  }

  /** The unit speeds are 0.15 and 0.2 tiles per step; the gold mine has no
      build time, no maximum health and no speed. */
  lemma CatalogConstants()
    ensures MAX_FPS * 30.0 == 1000.0
    ensures Get(Catalog(Peasant).value, Speed) == Num(0.15)
    ensures Get(Catalog(Catapult).value, Speed) == Num(0.2)
    ensures Get(Catalog(Goldmine).value, BuildTime) == Undefined
    ensures Get(Catalog(Goldmine).value, MaxHealth) == Undefined
    ensures Get(Catalog(Goldmine).value, Speed) == Undefined
  {
  }

  /** `THING_PROPERTIES` lists nine distinct names. */
  lemma ThingPropertiesDistinct()
    ensures |ThingProperties| == 9 && Distinct(ThingProperties)
  {
  }

  /** No catalog entry defines a canonical property, so joining an entity with
      its type never changes what the store keeps of it. */
  lemma CatalogHasNoCanonicalProperty()
    ensures forall t, p :: Catalog(t).Some? && p in ThingProperties ==> p !in Catalog(t).value
  {
  }
}
