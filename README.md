# The world model of the war engine, in Dafny

This project models the in-memory world that the browser game "war" runs on. It proves properties of that model. It has five modules.

- `JsObject` (js_object.dfy): JavaScript values and property bags. A `Record` is a map from property name to value. An object whose key order matters is a `Table`: its entries, plus the order `Object.keys` reports them in. The module also models `t[k] = v`, `delete t[k]` and the spread `{ ...a, ...b }`.
- `Constants` (constants.dfy): the type catalog `THING_TYPES`, the canonical field list `THING_PROPERTIES`, the derived `BUILDING_NAMES` and the tick length `MAX_FPS`.
- `EntityStore` (store.dfy): the `Store` class.
  - Its two fields are `items` (every thing, keyed by id) and `selected` (the player's selection).
  - `add`, `update`, `remove`, `select` and `unselect` are methods that change those fields with loops.
  - `sanitizeThing` is a method with a loop, specified by the function `Canonical`.
  - The read-only queries `getArray`, `getById`, `getAtCoordinates`, `getCollision` and `getSelectionArray` are functions over the two tables.
  - `getAtCoordinates` and `getCollision` each come twice: as written, with the exception the code raises, and corrected (see "## Findings").
- `Engine` (engine.dfy):
  - the per-axis step toward a goal (`getCloserToGoal`);
  - the filling of the store with the world's things (`initStore`);
  - the tick that steps every moving thing and writes it back to the store (`updateThings`);
  - the goal clamp of a move order (`handleIntent`);
  - the click selection (`handleSelectThing`, `unselectAllThings`);
  - the delay before the next tick (`gameLoop`'s `cycleDelay`).
- `World1` (world1.dfy): the first map.
  - `generateForest` is a method with the source's nested loops, specified by the function `Forest`.
  - It also holds the map's `metadata` and its initial `things`.
  - It proves that every initial thing lies on the 14 x 14 map and that no two share a tile.

Positions, speeds and times are `real`. Ids are strings. The fresh ids that `uuid()` draws are a parameter of `Store.Add`.

## Model

| member | source | states |
|---|---|---|
| JsObject.Table.Put | src/engine/store.js:138 | `t[k] = v`: the entry is set; an existing key keeps its place in the key order and a new one goes last |
| JsObject.Table.Without | src/engine/store.js:144 | `delete t[k]`: exactly the given keys are gone, the other entries are unchanged, and a key list without repeats stays without repeats |
| JsObject.KeysNotInAppend | src/engine/store.js:142-146 | filtering deleted keys out of a concatenation filters each part in turn |
| JsObject.KeysNotInOrder | src/engine/store.js:142-146 | two keys that survive a deletion keep their relative order |
| JsObject.Spread | src/engine/store.js:124-127 | `{ ...a, ...b }`: the entries of `b` override those of `a`; when the two tables share no key, `b`'s keys follow `a`'s |
| Constants.ClassOf | src/engine/constants.js:34-94 | the class is `building` exactly for goldmine, townhall, farm and barracks |
| Constants.Catalog | src/engine/constants.js:34-94 | a type has a catalog entry exactly when it is one of the six catalog keys (`wood` has none) |
| Constants.TypeOf | src/engine/constants.js:34-94 | `THING_TYPES[v]` is defined exactly when `v` names a catalog key |
| Constants.CatalogClass | src/engine/constants.js:34-94 | each entry's `class` field is the one `ClassOf` gives |
| Constants.BuildingsIn | src/engine/constants.js:108-110 | the filter of BUILDING_NAMES: never longer than its input; what it keeps is stated through BuildingsInMembers, BuildingsInUniform and BuildingsInAppend |
| Constants.BuildingsInAppend | src/engine/constants.js:108-110 | filtering a concatenation for buildings filters each part |
| Constants.BuildingsInMembers | src/engine/constants.js:108-110 | the filter keeps exactly the buildings of its input |
| Constants.BuildingsInUniform | src/engine/constants.js:108-110 | a list of buildings filters to itself; a list with no building filters to nothing |
| Constants.ClassesInCatalog | src/engine/constants.js:34-94 | the four building types are buildings; peasant and catapult are not |
| Constants.BuildingNamesInOrder | src/engine/constants.js:108-110 | `BUILDING_NAMES` is goldmine, townhall, farm, barracks, in catalog order |
| Constants.CatalogFootprints | src/engine/constants.js:34-94 | every catalog type has a whole-number width and height of at least 1 |
| Constants.UnitsAreOneTile | src/engine/constants.js:34-94 | the unit types are exactly peasant and catapult, each 1 x 1 |
| Constants.OnlyPeasantBuilds | src/engine/constants.js:34-94 | `builder: true` holds for the peasant and for no other type |
| Constants.CatalogConstants | src/engine/constants.js:6-93 | `MAX_FPS` is 1000/30; peasant speed is 0.15, catapult speed 0.2; goldmine has no build time, maximum health or speed |
| Constants.ThingPropertiesDistinct | src/engine/constants.js:96-106 | `THING_PROPERTIES` lists nine distinct names |
| Constants.CatalogHasNoCanonicalProperty | src/engine/constants.js:34-106 | no catalog entry defines a canonical property |
| EntityStore.Canonical | src/engine/store.js:167-174 | the sanitized record has exactly the `THING_PROPERTIES` fields, each read from the input (`undefined` when absent) |
| EntityStore.CanonicalSameFields | src/engine/store.js:167-174 | two records sanitize alike exactly when their canonical fields agree; sanitizing is idempotent |
| EntityStore.Store.SanitizeThing | src/engine/store.js:167-174 | the loop builds exactly `Canonical(thing)` |
| EntityStore.Aggregate | src/engine/store.js:28-31 | catalog fields overwrite the thing's and add the catalog's keys; an unknown type adds nothing; canonical fields are untouched; every field of the thing the catalog entry lacks (such as `goldContained`) survives unchanged |
| EntityStore.Listed | src/engine/store.js:19-24 | definition (no contract of its own): `ids.includes(thing.id)`, every thing when no list is given; stated through Filter, GetArray and GetArrayFromStore |
| EntityStore.AggregateKeepsCanonical | src/engine/store.js:28-31 | joining in the catalog never changes what sanitizing keeps |
| EntityStore.Filter | src/engine/store.js:22-24 | the filter keeps exactly the things whose id is listed, and keeps everything when no list is given |
| EntityStore.FilterAppend | src/engine/store.js:22-24 | the filter keeps store order: filtering a concatenation filters each part in turn |
| EntityStore.View | src/engine/store.js:27-34 | the record `getArray` yields for one stored record keeps that record's id |
| EntityStore.Views | src/engine/store.js:27-34 | as many views as records, the `i`-th the view of the `i`-th record, in order |
| EntityStore.GetArray | src/engine/store.js:17-35 | with no id list, every stored record in key order (joined with its type when asked); with a list, the view of every stored record whose id is listed, and only records whose id is listed |
| EntityStore.GetArrayFromStore | src/engine/store.js:22-31 | every record `getArray` yields is the view of a stored record whose id is listed |
| EntityStore.GetArrayPutNew | src/engine/store.js:20-24 | `getArray` follows insertion order: storing a record under a new key appends its view when its id is listed, and nothing otherwise |
| EntityStore.GetArrayDistinct | src/engine/store.js:17-35 | in a store whose keys are listed once and hold their own ids, no two records `getArray` yields share an id, so each stored record appears at most once |
| EntityStore.FilterDistinctIds | src/engine/store.js:22-24 | filtering keeps records with pairwise different ids apart |
| EntityStore.GetArrayListedKeys | src/engine/store.js:17-35 | `getArray(ids)` holds exactly the records stored under the listed ids; unknown ids are skipped |
| EntityStore.GetById | src/engine/store.js:43-45 | the record stored under the id, and `undefined` exactly when there is none |
| EntityStore.Covers | src/engine/store.js:50-51 | definition (no contract of its own): the half-open footprint `[x, x + width) x [y, y + height)` holds the point; stated through Hits, FindAt and GetAtCoordinates |
| EntityStore.ReadsMissingEntry | src/engine/store.js:49-51 | the callback reads a field of a missing catalog entry exactly when the type is not in the catalog and `x >= thing.x` or `y >= thing.y` holds, the `&&` stopping at a false left side |
| EntityStore.Hits | src/engine/store.js:49-52 | the callback returns true exactly when the type is in the catalog and its footprint holds the point |
| EntityStore.FindAtAsWritten | src/engine/store.js:48-53 | as written: the first thing on which the callback matches or throws, no thing before it doing either; no match when none does |
| EntityStore.FindAt | src/engine/store.js:48-53 | corrected: the index of the first thing whose catalog footprint holds the point, no thing before it holding the point; none when no thing holds it; a thing the catalog lacks is passed over |
| EntityStore.FindAtAsWrittenThrows | src/engine/store.js:48-53 | as written, the search throws exactly when a thing whose missing catalog entry the callback reads comes before every thing that holds the point |
| EntityStore.FindAtAsWrittenAgrees | src/engine/store.js:48-53 | where the search as written does not throw, it finds the same thing as the corrected search, or nothing when that finds nothing |
| EntityStore.ThrowsAtSecond | src/engine/store.js:48-53 | as written, a first thing that neither matches nor throws followed by a thing whose missing entry is read ends the search with a throw at the second |
| EntityStore.PastTheClickPassedOver | src/engine/store.js:50-51 | a thing the catalog lacks lying beyond the point on both axes is passed over without a throw |
| EntityStore.WithSelection | src/engine/store.js:55-62 | when every selection entry is `{ id }`, the joined match is field for field the match itself; without `aggregateSelection` it is untouched |
| EntityStore.GetAtCoordinatesAsWritten | src/engine/store.js:47-63 | as written: nothing exactly when the search finds no match, a throw exactly when it throws, otherwise the stored record it found |
| EntityStore.GetAtCoordinates | src/engine/store.js:47-63 | corrected: `undefined` exactly when no stored thing holds the point; otherwise the first stored thing in key order that holds it, joined with its selection entry when asked |
| EntityStore.WoodBeforePeasant | src/engine/store.js:48-53 | a wood tile at the origin stored before a peasant at (1, 5): a click on the peasant throws as written and finds the peasant when corrected |
| EntityStore.Blocks | src/engine/store.js:74-96 | definition (no contract of its own): another thing whose inclusive tile rectangle holds the leading tile; stated through AnyBlocks, GetCollision and NeighbourBlocks |
| EntityStore.SnapLead | src/engine/store.js:66-69 | the destination tile: a whole number at most `d` and within 1 of it, pushed by the mover's size on an axis it leads on |
| EntityStore.AnyBlocks | src/engine/store.js:73-97 | `some` holds exactly when some thing blocks the point |
| EntityStore.GetCollision | src/engine/store.js:65-100 | blocked exactly when another thing's inclusive tile rectangle holds the destination's leading tile; the mover never blocks itself, and `left`/`up` play no part |
| EntityStore.AnyBlocksAsWritten | src/engine/store.js:73-97 | with the stray assignment, the `some` throws exactly when it reaches a thing other than the mover, and otherwise returns false |
| EntityStore.CollisionAsWritten | src/engine/store.js:65-100 | as written, `getCollision` throws exactly when the store holds a thing other than the mover |
| EntityStore.StrayAssignmentThrows | src/engine/store.js:86 | any store holding a second thing makes the as-written query throw |
| EntityStore.PeasantOneTile | src/engine/constants.js:75-84 | a peasant joined with its catalog entry is 1 x 1 |
| EntityStore.NeighbourBlocks | src/engine/store.js:87-94 | with the intended comparison, a 1 x 1 mover at (1, 1) stepping right is blocked by a peasant at (2, 1) |
| EntityStore.GetSelectionArray | src/engine/store.js:102-112 | the selection entries in selection order, each `{ id }`, whether or not `aggregateThings` is set |
| EntityStore.Stamped | src/engine/store.js:118-121 | `{ id, ...thing }` of a thing without its own id has the new id and keeps every other field |
| EntityStore.BuildThingMap | src/engine/store.js:115-122 | the loop builds the `thingMap` of stamped things in input order |
| EntityStore.ThingMap | src/engine/store.js:115-122 | definition (no contract of its own): each thing stamped with its id, assigned in input order; stated through BuildThingMap, ThingMapKeys, ThingMapAt and ThingMapShape |
| EntityStore.ThingMapShape | src/engine/store.js:115-122 | with distinct ids, `thingMap` lists the ids in order, each holding its stamped thing |
| EntityStore.ThingMapKeys | src/engine/store.js:115-122 | `thingMap` has exactly the things' ids as its keys, in the order of the things |
| EntityStore.ThingMapAt | src/engine/store.js:115-122 | with distinct ids, the id of the i-th thing holds that thing with its id stamped on it |
| EntityStore.Added | src/engine/store.js:124-127 | definition (no contract of its own): `{ ...items, ...thingMap }`; stated through AddedShape, AddedToEmpty and AddedThenGetById |
| EntityStore.AddedShape | src/engine/store.js:114-128 | `add` appends one key per thing, holding `{ id, ...thing }` unsanitized; existing entries are unchanged |
| EntityStore.AddedToEmpty | src/engine/store.js:114-128 | adding to the empty store gives keys in input order, the i-th value being the i-th thing stamped with its id |
| EntityStore.AddedThenGetById | src/engine/store.js:114-128 | after `add`, each record's id is still its key, and `getById` finds each added thing under its new id |
| EntityStore.Store.Add | src/engine/store.js:114-128 | the new items are the old ones with the stamped things appended; the selection is untouched; the store invariant is kept |
| EntityStore.IdsOf | src/engine/store.js:132 | the ids the partial records name, one per partial |
| EntityStore.UpdateOne | src/engine/store.js:131-139 | one step writes under the partial's id only; every other entry is unchanged |
| EntityStore.UpdateOneValid | src/engine/store.js:131-139 | one step keeps the table well formed, free of repeated keys and with ids matching keys; a stored id keeps its place and a new id goes last |
| EntityStore.UpdateOneFields | src/engine/store.js:132-138 | the written record has exactly the canonical fields; a field in the partial takes its value; otherwise the old value when merging, `undefined` when replacing or for a new id |
| EntityStore.UpdateOneSameEntry | src/engine/store.js:132-138 | a step's result under its id depends only on what was stored under that id |
| EntityStore.Updated | src/engine/store.js:130-140 | definition (no contract of its own): the partials applied one after another through UpdateOne; stated through UpdatedKeys, UpdatedFrame, UpdatedValid, UpdatedAppend and UpdatedDistinct |
| EntityStore.UpdatedKeys | src/engine/store.js:130-140 | after `update`, the keys are the old ones plus every given id; unknown ids are created |
| EntityStore.UpdatedFrame | src/engine/store.js:130-140 | `update` leaves every entry it is not given unchanged |
| EntityStore.UpdatedValid | src/engine/store.js:130-140 | `update` keeps the table well formed and free of repeated keys, with each record's id its key |
| EntityStore.UpdatedSnoc | src/engine/store.js:131 | applying one more partial is one more step |
| EntityStore.UpdatedAppend | src/engine/store.js:131 | applying two lists of partials is applying the first, then the second |
| EntityStore.ReplacedEntries | src/engine/store.js:132-138 | with `replace`, each named entry ends up as its sanitized partial, ignoring the old record |
| EntityStore.ReplacedEntryAt | src/engine/store.js:132-138 | with `replace`, the entry for one partial's id is that partial sanitized, whatever came before it |
| EntityStore.UpdatedDistinct | src/engine/store.js:130-140 | when the ids are distinct, each entry ends up as if its partial were applied alone |
| EntityStore.UpdatedDistinctAt | src/engine/store.js:130-140 | when the ids are distinct, the entry for the i-th partial's id is that partial applied alone to the old items |
| EntityStore.Store.UpdateEach | src/engine/store.js:131-139 | the loop applies the partials in order; the selection is untouched |
| EntityStore.Store.UpdateEntry | src/engine/store.js:131-139 | one step of the loop: the partial is merged into (or, with `replace`, replaces) its entry and sanitized; the selection is untouched |
| EntityStore.Store.Update | src/engine/store.js:130-140 | the items become the partials applied in order; the selection is untouched; the store invariant is kept |
| EntityStore.Deleted | src/engine/store.js:142-146 | the table without the listed ids; unknown ids are skipped; the other entries are unchanged; no key comes to be listed twice |
| EntityStore.DeletedAtOnce | src/engine/store.js:142-146 | deleting ids one by one is deleting the set of them at once, the rest keeping their order |
| EntityStore.Store.Remove | src/engine/store.js:142-146 | the items lose exactly the listed ids; the selection is untouched, so a removed thing can stay selected |
| EntityStore.SelectAll | src/engine/store.js:148-154 | each listed id's entry becomes `{ id }`, whether or not the id is stored; other entries are unchanged; no key comes to be listed twice |
| EntityStore.SelectAlreadySelected | src/engine/store.js:148-154 | selecting ids that are already selected changes nothing |
| EntityStore.SelectIdempotent | src/engine/store.js:148-154 | `select` twice is `select` once |
| EntityStore.Store.Select | src/engine/store.js:148-154 | the selection gains `{ id }` for each id; the items are untouched |
| EntityStore.Store.Unselect | src/engine/store.js:156-165 | with no list the selection is emptied; otherwise exactly the listed ids are deleted; the items are untouched |
| EntityStore.Store.constructor | src/engine/store.js:7-11 | a new store has two empty tables and satisfies the store invariant |
| Engine.StepAxis | src/engine/engine.js:201-211 | one axis moves toward the goal by at most `speed`, never past it, and not at all when on it |
| Engine.GetCloserToGoal | src/engine/engine.js:195-214 | each axis steps on its own; `done` holds exactly when both coordinates equal the goal's |
| Engine.AxisAfterSteps | src/engine/engine.js:201-211 | after `n` calls an axis is at `min(goal, start + n * speed)`, or the `max` when moving down |
| Engine.AxisArrives | src/engine/engine.js:201-211 | with a positive speed an axis is on its goal after `n` calls exactly when `n >= ceil(abs(goal - start) / speed)` |
| Engine.DoneAfter | src/engine/engine.js:213 | the call after `n` steps reports `done` exactly when both axes have had the steps they need |
| Engine.Moving | src/engine/engine.js:221-222 | definition (no contract of its own): the thing has a goal whose `x` or `y` differs from its own; stated through MovingAggregate and TickEntries |
| Engine.Moved | src/engine/engine.js:223-233 | definition (no contract of its own): `{ ...thing, x, y }` after one step, without `goal` when done; stated through MovedFields |
| Engine.MovedFields | src/engine/engine.js:225-233 | the moved record holds the step's coordinates, loses `goal` exactly when the step is done, and keeps every other field |
| Engine.Moves | src/engine/engine.js:220-235 | every update the tick issues carries a string id; which thing each update is for is stated through MovesFromMovers |
| Engine.MovesFrom | src/engine/engine.js:220-235 | the `j`-th update is the move of a thing of the list that has a goal it is not standing on |
| Engine.MovesFromMovers | src/engine/engine.js:220-235 | each update is the move of a moving thing of the list, and names that thing by its id |
| Engine.MovesSnoc | src/engine/engine.js:220-235 | the updates for one more thing are those before plus its move, if it moves |
| Engine.MovesStep | src/engine/engine.js:220-235 | the updates of a list are the first thing's move, if it moves, then those of the rest |
| Engine.MovesStoredAt | src/engine/engine.js:220-235 | after the tick's updates, each moving thing is stored as its sanitized move |
| Engine.MovesTail | src/engine/engine.js:220-235 | the tick's updates are the first thing's move (when it moves) followed by the updates of the rest |
| Engine.ReplacedByMove | src/engine/engine.js:220-235 | replacing a moving thing's entry by its move stores the sanitized move under its id |
| Engine.MovesHeadStored | src/engine/engine.js:220-235 | the first thing, when it moves, is stored as its sanitized move |
| Engine.MovesFrameAt | src/engine/engine.js:222 | an entry that no moving thing names is left as it was |
| Engine.MovesKeys | src/engine/engine.js:220-235 | when every moving thing is stored already, the tick adds no key |
| Engine.Snapshot | src/engine/engine.js:219 | the tick's snapshot lists each stored record, joined with its type, under its key |
| Engine.MovingAggregate | src/engine/engine.js:222 | joining in the catalog changes neither the goal nor the position |
| Engine.Tick | src/engine/engine.js:218-242 | definition (no contract of its own): the moves of the joined snapshot, each a replacing update; stated through TickEntries, TickEntryAt and MovesKeys |
| Engine.TickEntries | src/engine/engine.js:218-242 | a tick keeps the key set; each moving thing becomes its sanitized move, and every other thing, including one standing on its goal, is unchanged |
| Engine.TickEntryAt | src/engine/engine.js:218-242 | the entry under one key after a tick is the sanitized move when the thing moves, and the old entry otherwise |
| Engine.SteppableAt | src/engine/engine.js:218-242 | a stored moving entry stays moving and movable once sanitized |
| Engine.TickStep | src/engine/engine.js:220-235 | one more thing of the snapshot adds one replacing update if it moves, and nothing otherwise |
| Engine.StepThings | src/engine/engine.js:220-241 | the loop leaves the items as the tick's updates applied in order; the selection is untouched |
| Engine.StepThing | src/engine/engine.js:220-241 | one step of the loop: a thing with a goal it is not standing on (`Moving`) is replaced by its move, any other thing leaves the items alone; the selection is untouched |
| Engine.UpdateThings | src/engine/engine.js:218-242 | the items become `Tick` of the old items; the selection is untouched; the store invariant is kept |
| Engine.Clamp | src/engine/engine.js:144-145 | the result lies in `[lo, hi]`; an in-range value is kept; a value below goes to `lo` and one above to `hi` |
| Engine.ClampIdempotent | src/engine/engine.js:144-145 | clamping a clamped coordinate changes nothing |
| Engine.ClampedGoal | src/engine/engine.js:143-146 | the goal is a point inside `[0, width - 1] x [0, height - 1]` on a map at least 1 x 1; a click inside the map is kept as is |
| Engine.WithGoal | src/engine/engine.js:141-147 | each thing is copied with the goal set and nothing else changed |
| Engine.MergedGoal | src/engine/store.js:130-140 | merging partials that all carry one goal leaves that goal on every entry they name |
| Engine.HandleIntent | src/engine/engine.js:140-150 | the items become a merging update with the clamped goal on each given thing; the selection is untouched |
| Engine.IntentGoals | src/engine/engine.js:140-150 | after `handleIntent` every given thing is stored with a goal inside `[0, width - 1] x [0, height - 1]` |
| Engine.InitStore | src/engine/engine.js:92-94 | the world's things are added under fresh ids; the selection is untouched and the store invariant is kept |
| Engine.WorldClickThrows | src/engine/engine.js:155-160 | on the store `initStore` fills from empty, every click at `x >= 0` off the gold mine's footprint throws in `getAtCoordinates` as written |
| Engine.UnselectAllThings | src/engine/engine.js:131-138 | the selection is emptied and the items are untouched |
| Engine.HandleSelectThing | src/engine/engine.js:117-129 | a thing marked `selected` is unselected; any other becomes the whole selection |
| Engine.ClickedThingIsNotSelected | src/engine/engine.js:119 | a thing the corrected lookup finds on a store whose records lack `selected` is never marked selected, even with the selection merged in |
| Engine.CanonicalHasNoSelected | src/engine/store.js:167-174 | sanitizing drops `selected` |
| Engine.CycleDelay | src/engine/engine.js:250-255 | the delay lies in `[1, MAX_FPS]`; it is `MAX_FPS` after an on-time cycle; otherwise it is shortened by the overrun, and floored at 1 |
| Engine.CycleDelayMonotone | src/engine/engine.js:250-255 | a longer last cycle never lengthens the next delay |
| World1.TilesNext | src/worlds/world1.js:4-12 | the tile after the first `i * height + j` is the one at `(x + i, y + j)` |
| World1.WoodTile | src/worlds/world1.js:7-12 | definition (no contract of its own): a `wood` thing holding 100 lumber at the given tile; stated through ForestTiles and WoodFootprint |
| World1.Forest | src/worlds/world1.js:1-18 | definition (no contract of its own): tile `k` of a `width` x `height` forest sits in column `k / height`, row `k % height`; stated through GenerateForest, ForestAt, ForestTiles and ForestApart |
| World1.GenerateForest | src/worlds/world1.js:1-18 | the nested loops return exactly `Forest(x, y, width, height)` |
| World1.ForestAt | src/worlds/world1.js:3-13 | a forest has `width * height` tiles, and tile `i * height + j` is at `(x + i, y + j)` |
| World1.ForestEmpty | src/worlds/world1.js:3-15 | a forest is empty exactly when `width <= 0` or `height <= 0` |
| World1.ForestTiles | src/worlds/world1.js:7-12 | every tile is wood with 100 lumber, has no owner and no catalog entry, and lies in the forest's rectangle |
| World1.WoodFootprint | src/worlds/world1.js:7-12 | a wood tile covers the single tile at its position |
| World1.ForestApart | src/worlds/world1.js:3-13 | the tiles of a forest lie in its rectangle, and no two share a tile |
| World1.ForestDistinct | src/worlds/world1.js:3-13 | the tiles of one forest stand on pairwise distinct coordinates |
| World1.ApartFromAtSound | src/worlds/world1.js:26-61 | the one-by-one check means the rectangle is apart from every later one |
| World1.RectsApartAtSound | src/worlds/world1.js:26-61 | the pair-by-pair check means the rectangles are pairwise apart |
| World1.AllInsideAtSound | src/worlds/world1.js:26-61 | the one-by-one check means every rectangle lies inside |
| World1.FlattenAway | src/worlds/world1.js:26-61 | things inside parts whose rectangles are apart from `r` are apart from `r` |
| World1.FlattenApart | src/worlds/world1.js:26-61 | parts whose rectangles are pairwise apart hold things that are pairwise apart |
| World1.FlattenWithin | src/worlds/world1.js:26-61 | parts whose rectangles lie inside `r` hold things inside `r` |
| World1.PartsAreThings | src/worlds/world1.js:26-61 | the fourteen parts list the world's things in order |
| World1.WorldPartsSound | src/worlds/world1.js:26-61 | each part keeps to its rectangle and its own things are apart |
| World1.PartsSound0To3 | src/worlds/world1.js:27-35 | the gold mine and the first three forests keep to their rectangles, their own things apart |
| World1.PartsSound4To7 | src/worlds/world1.js:36-39 | the next four forests keep to their rectangles, their own things apart |
| World1.PartsSound8To10 | src/worlds/world1.js:40-42 | the last three forests keep to their rectangles, their own things apart |
| World1.PartsSound11To13 | src/worlds/world1.js:43-60 | the two peasants and the town hall keep to their footprints |
| World1.WorldRectsApart | src/worlds/world1.js:26-61 | no two parts' rectangles overlap |
| World1.WorldRectsInside | src/worlds/world1.js:26-61 | every part's rectangle lies inside the 14 x 14 map |
| World1.ThingsWithin | src/worlds/world1.js:21-61 | every initial thing lies inside the 14 x 14 map |
| World1.ThingsApart | src/worlds/world1.js:21-61 | no two initial things share a tile |
| World1.WorldLayout | src/worlds/world1.js:21-61 | every initial thing lies inside the 14 x 14 map, and no two share a tile (catalog footprints, wood 1 x 1) |
| World1.Things | src/worlds/world1.js:26-61 | definition (no contract of its own): the gold mine, the ten forests, the two peasants and the town hall in listed order; stated through WorldListing, WorldLayout and PartsAreThings |
| World1.WorldMetadata | src/worlds/world1.js:21-25 | definition (no contract of its own): a 14 x 14 `forest` map; stated through WorldListing and WorldLayout |
| World1.WorldListing | src/worlds/world1.js:21-61 | the map is 14 x 14 `forest` and lists 94 things: the gold mine, 90 wood tiles, two peasants, the town hall |
| World1.ThingsCarryNoId | src/worlds/world1.js:26-61 | no listed thing carries an `id` of its own |
| World1.OriginTileSecond | src/worlds/world1.js:27-33 | the gold mine comes first and the wood tile at the origin second |

## Left out

- The page: `initWorld`, `initGrid`, `initThings`, the `listenToMouse` event wiring, the image style updates, `console.log` and the `setTimeout` scheduling in src/engine/engine.js. The model keeps the delay value and not the timer.
- `Date` and the clock: `CycleDelay` takes the elapsed time as a parameter.
- `uuid()`: `Store.Add` takes the drawn ids as a parameter and requires them to be fresh and distinct.
- Engine.HandleIntent: the world size is a parameter, not the `this.world` copy of the map's metadata.
- `TILE_SIZE`, `PLAYER_VIEW_WIDTH` and `PLAYER_VIEW_HEIGHT` (src/engine/constants.js:1-4): only the page code left out above reads them. That code is the canvas and DOM drawing in src/engine/index.js and src/engine/engine.js (53-82, 105-108, 238-239) and the click's pixel-to-tile conversion in src/engine/engine.js:155-156. The model's click coordinates are already in tiles.
- src/engine/index.js (canvas drawing), src/websocket/index.js, server/index.js and server/logger.js: these are drawing, transport and logging.
- Floating point: all arithmetic is on `real`. `NaN` is not modelled. A moving thing must have numeric `x`, `y` and `speed` (`Movable`, `Steppable`); a building given a goal would step to `NaN`. `GetCollision` needs a numeric width or height on the axes it leads on.
- Type names: a thing's `type` is always a `Kind`. JavaScript would also find the catalog entry of a plain string such as `"goldmine"` held in `type`; the model's `TypeOf` gives such a `Str` no entry. Every thing of the world data holds a `Kind` (World1.ForestTiles and World1.WorldListing).
- Key order: `Table.keys` is insertion order. JavaScript lists integer-like keys first; the engine's keys are uuids, so this never applies.
- Store.Add: requires the inputs to carry no `id` of their own. With one, `{ id, ...thing }` lets the input's id override the drawn one.
- Store.Update: requires every partial to name its entity by a string id. Partials without an id would write under the key `undefined`.
- EntityStore.GetAtCoordinatesAsWritten: the `TypeError` on a thing whose type has no catalog entry (`wood`) is the `Thrown` result, not a crash. A coordinate that is not a number compares false. JavaScript would convert string and boolean coordinates (`true` to 1, `false` to 0) to numbers; the model does not.
- Engine.HandleSelectThing: the DOM lookup of the clicked thing's image is left out, as is how the page finds the thing.
- World1.GenerateForest: `width` and `height` are integers; a fractional size (which the loops would round up) is not modelled.
- `getObject` (src/engine/store.js:37-41) and the `instance` getter (13-15) are accessors with nothing to state.
- Construction, harvesting, resource ledgers, free-tile search and build-timer or health progress have no code in src/engine or src/worlds; the catalog only lists their costs (src/engine/constants.js:34-94). They are not modelled.

The model follows these behaviours of the code:

- `add` does not sanitize, so extra fields such as `goldContained` survive.
- `update` of an id that is not stored creates an entry rather than being ignored.
- `remove` leaves the selection alone.
- A movement step is `speed` per tick, independent of elapsed time.
- The engine never calls `getCollision`.
- The second unit type in the catalog is `catapult`.

## Findings

| source | as written | input that shows it | evidently intended | confidence | as-written member | corrected member |
|---|---|---|---|---|---|---|
| src/engine/store.js:86 | the `some` callback of `getCollision` assigns to the undeclared `minX`, which throws a `ReferenceError` in a strict-mode module | any store holding a thing whose id differs from the mover's, e.g. two peasants | the comparison of lines 87-94 alone, without the assignment | not executed | EntityStore.CollisionAsWritten | EntityStore.GetCollision |
| src/engine/store.js:49-51 | the `find` callback reads `THING_TYPES[thing.type].width` (or `.height`) before knowing the type is in the catalog, so a `wood` thing, which the catalog lacks, throws a `TypeError` once `x >= thing.x` (or `y >= thing.y`) | the world1 store: the wood tile at (0, 0) follows the gold mine, so any click at `x >= 0` off the gold mine, such as on the peasant at (1, 5), throws | things without a catalog entry are passed over and the first thing whose footprint holds the point is found | not executed | EntityStore.GetAtCoordinatesAsWritten | EntityStore.GetAtCoordinates |
