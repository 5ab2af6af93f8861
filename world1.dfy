/** The first world: a 14 x 14 forest map, its wood tiles laid out by
    `generateForest`, with a gold mine, two peasants and a town hall. */
module World1 {
  import opened JsObject
  import opened Constants

  /* ------------------------------------------------------------ generateForest */

  /** The wood tile `generateForest` emits at `(x, y)`. */
  function WoodTile(x: real, y: real): Record
  {
    map[Type := Kind(Wood), LumberContained := Num(100.0), X := Num(x), Y := Num(y)]
  }

  /** The first `n` tiles of a forest `height` tiles high whose corner is
      `(x, y)`: tile `k` lies in column `k / height`, row `k % height`. */
  function Tiles(x: real, y: real, height: int, n: nat): seq<Record>
    requires height > 0
  {
    seq(n, k => WoodTile(x + (k / height) as real, y + (k % height) as real))
  }

  /** `generateForest({ x, y, width, height })`. */
  function Forest(x: real, y: real, width: int, height: int): seq<Record>
  {
    if width <= 0 || height <= 0 then [] else Tiles(x, y, height, width * height)
  }

  /** `d` copies of a non-negative `h` add up to at least `h` once `d >= 1`. */
  lemma {:induction false} MulAtLeast(d: nat, h: int)
    requires h >= 0
    ensures d * h >= 0 && (d >= 1 ==> d * h >= h)
    decreases d
  {
    if d > 0 {
      MulAtLeast(d - 1, h);
      assert d * h == (d - 1) * h + h;
    }
  }

  /** A product grows with its first factor. */
  lemma MulLess(a: int, b: int, h: int)
    requires h > 0
    ensures a < b <==> a * h < b * h
  {
    if a < b {
      MulAtLeast(b - a, h);
      assert b * h - a * h == (b - a) * h;
    } else {
      MulAtLeast(a - b, h);
      assert a * h - b * h == (a - b) * h;
    }
  }

  /** `q * h + r` divided by `h` is `q`, remainder `r`. */
  lemma DivModOf(q: int, r: int, h: int)
    requires h > 0 && 0 <= r < h
    ensures (q * h + r) / h == q && (q * h + r) % h == r
  {
    var a := (q * h + r) / h;
    MulLess(a, q + 1, h);
    MulLess(q, a + 1, h);
    assert (q + 1) * h == q * h + h && (a + 1) * h == a * h + h;
  }

  /** Index `k` of a forest lies in one of its `width` columns. */
  lemma ColumnOf(k: int, width: int, height: int)
    requires height > 0 && 0 <= k < width * height
    ensures 0 <= k / height < width
  {
    MulLess(k / height, width, height);
  }

  /** The tile after the first `i * height + j` is the one at `(x + i, y + j)`. */
  lemma TilesNext(x: real, y: real, height: int, i: nat, j: nat)
    requires 0 <= j < height
    ensures Tiles(x, y, height, i * height + j + 1) == Tiles(x, y, height, i * height + j) + [WoodTile(x + i as real, y + j as real)]
  {
    DivModOf(i, j, height);
  }

  /** `generateForest`: the nested loops append one tile per `(i, j)`, `i`
      outer, `j` inner. */
  method GenerateForest(x: real, y: real, width: int, height: int) returns (wood: seq<Record>)
    ensures wood == Forest(x, y, width, height)
  {
    wood := [];
    var i := 0;
    while i < width
      invariant 0 <= i && (i <= width || i == 0)
      invariant wood == if height <= 0 then [] else Tiles(x, y, height, i * height)
    {
      var j := 0;
      while j < height
        invariant 0 <= j && (j <= height || j == 0)
        invariant wood == if height <= 0 then [] else Tiles(x, y, height, i * height + j)
      {
        TilesNext(x, y, height, i, j);
        wood := wood + [map[Type := Kind(Wood), LumberContained := Num(100.0), X := Num(x + i as real), Y := Num(y + j as real)]];
        j := j + 1;
      }
      assert height > 0 ==> i * height + height == (i + 1) * height;
      i := i + 1;
    }
  }

  /** A forest has `width * height` tiles, and tile `i * height + j` is at
      `(x + i, y + j)`. */
  lemma ForestAt(x: real, y: real, width: int, height: int, i: int, j: int)
    requires 0 <= i < width && 0 <= j < height
    ensures |Forest(x, y, width, height)| == width * height
    ensures i * height + j < width * height
    ensures Forest(x, y, width, height)[i * height + j] == WoodTile(x + i as real, y + j as real)
  {
    DivModOf(i, j, height);
    MulLess(i + 1, width, height);
    assert (i + 1) * height == i * height + height;
  }

  /** A forest with no columns or no rows is empty, and only then. */
  lemma ForestEmpty(x: real, y: real, width: int, height: int)
    ensures width <= 0 || height <= 0 <==> Forest(x, y, width, height) == []
  {
    if width > 0 && height > 0 {
      MulAtLeast(width, height);
    }
  }

  /** What every generated tile is: wood with 100 lumber and a numeric
      position. */
  predicate IsWood(t: Record)
  {
    && t.Keys == {Type, LumberContained, X, Y}
    && t[Type] == Kind(Wood) && t[LumberContained] == Num(100.0)
    && t[X].Num? && t[Y].Num?
  }

  /** Every tile is wood with no owner, of a type the catalog does not list,
      and lies in the forest's rectangle. */
  lemma ForestTiles(x: real, y: real, width: int, height: int)
    ensures var f := Forest(x, y, width, height);
      forall k :: 0 <= k < |f| ==>
        && IsWood(f[k]) && Get(f[k], Owner) == Undefined && TypeOf(Get(f[k], Type)).None?
        && x <= Get(f[k], X).n <= x + (width - 1) as real && y <= Get(f[k], Y).n <= y + (height - 1) as real
  {
    var f := Forest(x, y, width, height);
    forall k | 0 <= k < |f|
      ensures x <= Get(f[k], X).n <= x + (width - 1) as real && y <= Get(f[k], Y).n <= y + (height - 1) as real
    {
      ColumnOf(k, width, height);
    }
  }

  /* --------------------------------------------------------------- footprints */

  /** A rectangle of tiles: left, top, width, height. */
  datatype Rect = Rect(x: real, y: real, w: real, h: real)

  /** A thing with a numeric position. */
  predicate Placed(t: Record)
  {
    Get(t, X).Num? && Get(t, Y).Num?
  }

  /** The catalog extent of a thing's type along `p` (`Width` or `Height`);
      a type the catalog does not list, such as wood, covers one tile. */
  function Extent(t: Record, p: Prop): real
  {
    match TypeOf(Get(t, Type))
    case Some(entry) => if Get(entry, p).Num? then Get(entry, p).n else 1.0
    case None => 1.0
  }

  /** The tiles a thing occupies. */
  function Footprint(t: Record): Rect
    requires Placed(t)
  {
    Rect(Get(t, X).n, Get(t, Y).n, Extent(t, Width), Extent(t, Height))
  }

  predicate Inside(a: Rect, b: Rect)
  {
    b.x <= a.x && a.x + a.w <= b.x + b.w && b.y <= a.y && a.y + a.h <= b.y + b.h
  }

  /** The rectangles share no tile: one lies wholly to one side of the other. */
  predicate Apart(a: Rect, b: Rect)
  {
    a.x + a.w <= b.x || b.x + b.w <= a.x || a.y + a.h <= b.y || b.y + b.h <= a.y
  }

  /** Every thing of `s` is placed and inside `r`. */
  predicate Within(s: seq<Record>, r: Rect)
  {
    forall i :: 0 <= i < |s| ==> Placed(s[i]) && Inside(Footprint(s[i]), r)
  }

  /** No two placed things of `s` share a tile. */
  predicate PairwiseApart(s: seq<Record>)
  {
    forall i, j :: 0 <= i < j < |s| && Placed(s[i]) && Placed(s[j]) ==> Apart(Footprint(s[i]), Footprint(s[j]))
  }

  /** A wood tile covers the one tile at its position. */
  lemma WoodFootprint(t: Record)
    requires IsWood(t)
    ensures Placed(t) && Footprint(t) == Rect(t[X].n, t[Y].n, 1.0, 1.0)
  {
  }

  /** Two indices of a forest name different cells. */
  lemma CellsDiffer(i: int, j: int, h: int)
    requires h > 0 && 0 <= i < j
    ensures i / h != j / h || i % h != j % h
  {
  }

  /** The tiles of a forest each cover one tile of the forest's rectangle,
      and no two share a tile. */
  lemma ForestApart(x: real, y: real, width: int, height: int)
    ensures Within(Forest(x, y, width, height), Rect(x, y, width as real, height as real))
    ensures PairwiseApart(Forest(x, y, width, height))
  {
    var f := Forest(x, y, width, height);
    ForestTiles(x, y, width, height);
    forall k | 0 <= k < |f| ensures Placed(f[k]) && Inside(Footprint(f[k]), Rect(x, y, width as real, height as real)) {
      WoodFootprint(f[k]);
    }
    forall i, j | 0 <= i < j < |f| ensures Apart(Footprint(f[i]), Footprint(f[j])) {
      WoodFootprint(f[i]);
      WoodFootprint(f[j]);
      CellsDiffer(i, j, height);
    }
  }

  /** Tiles that share no tile stand on different coordinates: the tiles of
      one forest are at pairwise distinct positions. */
  lemma ForestDistinct(x: real, y: real, width: int, height: int)
    ensures var f := Forest(x, y, width, height);
      forall i, j :: 0 <= i < j < |f| ==> (Get(f[i], X), Get(f[i], Y)) != (Get(f[j], X), Get(f[j], Y))
  {
    var f := Forest(x, y, width, height);
    ForestTiles(x, y, width, height);
    ForestApart(x, y, width, height);
    forall i, j | 0 <= i < j < |f| ensures (Get(f[i], X), Get(f[i], Y)) != (Get(f[j], X), Get(f[j], Y)) {
      assert Placed(f[i]) && Placed(f[j]);
      assert Extent(f[i], Width) == 1.0 && Extent(f[i], Height) == 1.0;
    }
  }

  /* -------------------------------------------------------------------- parts */

  /** The things of the parts, in order. */
  function Flatten(parts: seq<seq<Record>>): seq<Record>
  {
    if parts == [] then [] else Flatten(parts[..|parts| - 1]) + parts[|parts| - 1]
  }

  /** Each part keeps to its rectangle, and its own things are apart. */
  predicate PartsSound(parts: seq<seq<Record>>, rs: seq<Rect>)
  {
    |rs| == |parts| &&
    forall i :: 0 <= i < |parts| ==> Within(parts[i], rs[i]) && PairwiseApart(parts[i])
  }

  /** `r` shares no tile with the rectangles of `rs` from index `i` on
      (checked one by one). */
  predicate ApartFromAt(rs: seq<Rect>, r: Rect, i: nat)
    decreases |rs| - i
  {
    i >= |rs| || (Apart(rs[i], r) && ApartFromAt(rs, r, i + 1))
  }

  /** No two rectangles of `rs` from index `i` on share a tile (checked pair
      by pair). */
  predicate RectsApartAt(rs: seq<Rect>, i: nat)
    decreases |rs| - i
  {
    i >= |rs| || (ApartFromAt(rs, rs[i], i + 1) && RectsApartAt(rs, i + 1))
  }

  /** The rectangles of `rs` from index `i` on lie in `r` (checked one by
      one). */
  predicate AllInsideAt(rs: seq<Rect>, r: Rect, i: nat)
    decreases |rs| - i
  {
    i >= |rs| || (Inside(rs[i], r) && AllInsideAt(rs, r, i + 1))
  }

  lemma {:induction false} ApartFromAtSound(rs: seq<Rect>, r: Rect, i: nat)
    requires ApartFromAt(rs, r, i)
    ensures forall k :: i <= k < |rs| ==> Apart(rs[k], r)
    decreases |rs| - i
  {
    if i < |rs| {
      ApartFromAtSound(rs, r, i + 1);
    }
  }

  lemma {:induction false} RectsApartAtSound(rs: seq<Rect>, i: nat)
    requires RectsApartAt(rs, i)
    ensures forall a, b :: i <= a < b < |rs| ==> Apart(rs[a], rs[b])
    decreases |rs| - i
  {
    if i < |rs| {
      RectsApartAtSound(rs, i + 1);
      ApartFromAtSound(rs, rs[i], i + 1);
    }
  }

  lemma {:induction false} AllInsideAtSound(rs: seq<Rect>, r: Rect, i: nat)
    requires AllInsideAt(rs, r, i)
    ensures forall k :: i <= k < |rs| ==> Inside(rs[k], r)
    decreases |rs| - i
  {
    if i < |rs| {
      AllInsideAtSound(rs, r, i + 1);
    }
  }

  /** Every thing of `s` is placed and shares no tile with `r`. */
  predicate AwayFrom(s: seq<Record>, r: Rect)
  {
    forall k :: 0 <= k < |s| ==> Placed(s[k]) && Apart(Footprint(s[k]), r)
  }

  /** Things inside parts whose rectangles are apart from `r` are apart from
      it. */
  lemma {:induction false} FlattenAway(parts: seq<seq<Record>>, rs: seq<Rect>, r: Rect)
    requires PartsSound(parts, rs)
    requires forall i :: 0 <= i < |rs| ==> Apart(rs[i], r)
    ensures AwayFrom(Flatten(parts), r)
  {
    if parts != [] {
      var n := |parts| - 1;
      FlattenAway(parts[..n], rs[..n], r);
      var a, f := Flatten(parts[..n]), Flatten(parts);
      assert Within(parts[n], rs[n]) && Apart(rs[n], r);
      forall k | 0 <= k < |f| ensures Placed(f[k]) && Apart(Footprint(f[k]), r) {
        if k < |a| {
          assert f[k] == a[k];
        } else {
          assert f[k] == parts[n][k - |a|];
        }
      }
    }
  }

  /** Parts whose rectangles are pairwise apart hold things pairwise apart. */
  lemma {:induction false} FlattenApart(parts: seq<seq<Record>>, rs: seq<Rect>)
    requires PartsSound(parts, rs)
    requires forall i, j :: 0 <= i < j < |rs| ==> Apart(rs[i], rs[j])
    ensures PairwiseApart(Flatten(parts))
  {
    if parts != [] {
      var n := |parts| - 1;
      FlattenApart(parts[..n], rs[..n]);
      FlattenAway(parts[..n], rs[..n], rs[n]);
      var a, f := Flatten(parts[..n]), Flatten(parts);
      assert Within(parts[n], rs[n]) && PairwiseApart(parts[n]);
      forall i, j | 0 <= i < j < |f| && Placed(f[i]) && Placed(f[j]) ensures Apart(Footprint(f[i]), Footprint(f[j])) {
        if j < |a| {
          assert f[i] == a[i] && f[j] == a[j];
        } else if i < |a| {
          assert f[i] == a[i] && f[j] == parts[n][j - |a|];
        } else {
          assert f[i] == parts[n][i - |a|] && f[j] == parts[n][j - |a|];
        }
      }
    }
  }

  /** Parts whose rectangles lie inside `r` hold things inside `r`. */
  lemma {:induction false} FlattenWithin(parts: seq<seq<Record>>, rs: seq<Rect>, r: Rect)
    requires PartsSound(parts, rs)
    requires forall i :: 0 <= i < |rs| ==> Inside(rs[i], r)
    ensures Within(Flatten(parts), r)
  {
    if parts != [] {
      var n := |parts| - 1;
      FlattenWithin(parts[..n], rs[..n], r);
      var a, f := Flatten(parts[..n]), Flatten(parts);
      forall k | 0 <= k < |f| ensures Placed(f[k]) && Inside(Footprint(f[k]), r) {
        if k < |a| {
          assert f[k] == a[k];
        } else {
          assert f[k] == parts[n][k - |a|];
          assert Within(parts[n], rs[n]);
        }
      }
    }
  }

  /* ------------------------------------------------------------------ world */

  /** The world's `metadata`. */
  datatype Metadata = Metadata(width: int, height: int, climate: string)

  function WorldMetadata(): Metadata
  {
    Metadata(14, 14, "forest")
  }

  const Goldmine0: Record := map[Type := Kind(Goldmine), GoldContained := Num(100.0), X := Num(3.0), Y := Num(5.0)]
  const Peasant0: Record := map[Type := Kind(Peasant), Owner := Num(0.0), X := Num(1.0), Y := Num(5.0)]
  const Peasant1: Record := map[Type := Kind(Peasant), Owner := Num(0.0), X := Num(1.0), Y := Num(6.0)]
  const Townhall0: Record := map[Type := Kind(Townhall), Owner := Num(0.0), X := Num(2.0), Y := Num(9.0)]

  /** The world's `things`: the gold mine, ten forests, two peasants and the
      town hall. */
  function Things(): seq<Record>
  {
    [Goldmine0]
    + Forest(0.0, 0.0, 14, 2)
    + Forest(0.0, 2.0, 2, 1)
    + Forest(12.0, 2.0, 2, 12)
    + Forest(11.0, 2.0, 1, 10)
    + Forest(10.0, 2.0, 1, 8)
    + Forest(5.0, 2.0, 5, 1)
    + Forest(6.0, 3.0, 4, 1)
    + Forest(7.0, 4.0, 3, 1)
    + Forest(8.0, 5.0, 2, 2)
    + Forest(9.0, 7.0, 1, 2)
    + [Peasant0]
    + [Peasant1]
    + [Townhall0]
  }

  /** The world's things in fourteen parts, as they are listed. */
  function WorldParts(): seq<seq<Record>>
  {
    [ [Goldmine0],
      Forest(0.0, 0.0, 14, 2),
      Forest(0.0, 2.0, 2, 1),
      Forest(12.0, 2.0, 2, 12),
      Forest(11.0, 2.0, 1, 10),
      Forest(10.0, 2.0, 1, 8),
      Forest(5.0, 2.0, 5, 1),
      Forest(6.0, 3.0, 4, 1),
      Forest(7.0, 4.0, 3, 1),
      Forest(8.0, 5.0, 2, 2),
      Forest(9.0, 7.0, 1, 2),
      [Peasant0],
      [Peasant1],
      [Townhall0] ]
  }

  /** The rectangle each part keeps to: the footprint of a single thing, the
      area a forest was generated over. */
  const WorldRects: seq<Rect> :=
    [ Rect(3.0, 5.0, 3.0, 3.0),
      Rect(0.0, 0.0, 14.0, 2.0),
      Rect(0.0, 2.0, 2.0, 1.0),
      Rect(12.0, 2.0, 2.0, 12.0),
      Rect(11.0, 2.0, 1.0, 10.0),
      Rect(10.0, 2.0, 1.0, 8.0),
      Rect(5.0, 2.0, 5.0, 1.0),
      Rect(6.0, 3.0, 4.0, 1.0),
      Rect(7.0, 4.0, 3.0, 1.0),
      Rect(8.0, 5.0, 2.0, 2.0),
      Rect(9.0, 7.0, 1.0, 2.0),
      Rect(1.0, 5.0, 1.0, 1.0),
      Rect(1.0, 6.0, 1.0, 1.0),
      Rect(2.0, 9.0, 4.0, 4.0) ]

  /** The parts list the world's things in order. */
  lemma PartsAreThings()
    ensures Flatten(WorldParts()) == Things()
  {
    var ps := WorldParts();
    assert ps[..1][..0] == [];
    assert Flatten(ps[..1]) == [Goldmine0];
    assert ps[..2][..1] == ps[..1];
    assert Flatten(ps[..2]) == Flatten(ps[..1]) + ps[1];
    assert ps[..3][..2] == ps[..2];
    assert Flatten(ps[..3]) == Flatten(ps[..2]) + ps[2];
    assert ps[..4][..3] == ps[..3];
    assert Flatten(ps[..4]) == Flatten(ps[..3]) + ps[3];
    assert ps[..5][..4] == ps[..4];
    assert Flatten(ps[..5]) == Flatten(ps[..4]) + ps[4];
    assert ps[..6][..5] == ps[..5];
    assert Flatten(ps[..6]) == Flatten(ps[..5]) + ps[5];
    assert ps[..7][..6] == ps[..6];
    assert Flatten(ps[..7]) == Flatten(ps[..6]) + ps[6];
    assert ps[..8][..7] == ps[..7];
    assert Flatten(ps[..8]) == Flatten(ps[..7]) + ps[7];
    assert ps[..9][..8] == ps[..8];
    assert Flatten(ps[..9]) == Flatten(ps[..8]) + ps[8];
    assert ps[..10][..9] == ps[..9];
    assert Flatten(ps[..10]) == Flatten(ps[..9]) + ps[9];
    assert ps[..11][..10] == ps[..10];
    assert Flatten(ps[..11]) == Flatten(ps[..10]) + ps[10];
    assert ps[..12][..11] == ps[..11];
    assert Flatten(ps[..12]) == Flatten(ps[..11]) + ps[11];
    assert ps[..13][..12] == ps[..12];
    assert Flatten(ps[..13]) == Flatten(ps[..12]) + ps[12];
    assert ps[..13] == ps[..|ps| - 1];
  }

  /** A single placed thing keeps to its footprint. */
  lemma SingleSound(t: Record, r: Rect)
    requires Placed(t) && Footprint(t) == r
    ensures Within([t], r) && PairwiseApart([t])
  {
  }

  /** Every part keeps to its rectangle. */
  lemma WorldPartsSound()
    ensures PartsSound(WorldParts(), WorldRects)
  {
    PartsSound0To3();
    PartsSound4To7();
    PartsSound8To10();
    PartsSound11To13();
  }

  /** The gold mine and the first three forests keep to their rectangles. */
  lemma PartsSound0To3()
    ensures forall i :: 0 <= i < 4 ==> Within(WorldParts()[i], WorldRects[i]) && PairwiseApart(WorldParts()[i])
  {
    var ps, rs := WorldParts(), WorldRects;
    forall i | 0 <= i < 4 ensures Within(ps[i], rs[i]) && PairwiseApart(ps[i]) {
      if i == 0 {
        SingleSound(Goldmine0, rs[0]);
      } else if i == 1 {
        ForestApart(0.0, 0.0, 14, 2);
      } else if i == 2 {
        ForestApart(0.0, 2.0, 2, 1);
      } else {
        ForestApart(12.0, 2.0, 2, 12);
      }
    }
  }

  /** The next four forests keep to their rectangles. */
  lemma PartsSound4To7()
    ensures forall i :: 4 <= i < 8 ==> Within(WorldParts()[i], WorldRects[i]) && PairwiseApart(WorldParts()[i])
  {
    var ps, rs := WorldParts(), WorldRects;
    forall i | 4 <= i < 8 ensures Within(ps[i], rs[i]) && PairwiseApart(ps[i]) {
      if i == 4 {
        ForestApart(11.0, 2.0, 1, 10);
      } else if i == 5 {
        ForestApart(10.0, 2.0, 1, 8);
      } else if i == 6 {
        ForestApart(5.0, 2.0, 5, 1);
      } else {
        ForestApart(6.0, 3.0, 4, 1);
      }
    }
  }

  /** The last three forests keep to their rectangles. */
  lemma PartsSound8To10()
    ensures forall i :: 8 <= i < 11 ==> Within(WorldParts()[i], WorldRects[i]) && PairwiseApart(WorldParts()[i])
  {
    var ps, rs := WorldParts(), WorldRects;
    forall i | 8 <= i < 11 ensures Within(ps[i], rs[i]) && PairwiseApart(ps[i]) {
      if i == 8 {
        ForestApart(7.0, 4.0, 3, 1);
      } else if i == 9 {
        ForestApart(8.0, 5.0, 2, 2);
      } else {
        ForestApart(9.0, 7.0, 1, 2);
      }
    }
  }

  /** The peasants and the town hall keep to their footprints. */
  lemma PartsSound11To13()
    ensures forall i :: 11 <= i < 14 ==> Within(WorldParts()[i], WorldRects[i]) && PairwiseApart(WorldParts()[i])
  {
    var ps, rs := WorldParts(), WorldRects;
    forall i | 11 <= i < 14 ensures Within(ps[i], rs[i]) && PairwiseApart(ps[i]) {
      if i == 11 {
        SingleSound(Peasant0, rs[11]);
      } else if i == 12 {
        SingleSound(Peasant1, rs[12]);
      } else {
        SingleSound(Townhall0, rs[13]);
      }
    }
  }

  /** The map's rectangle. */
  const Map14: Rect := Rect(0.0, 0.0, 14.0, 14.0)

  /** No two part rectangles share a tile. */
  lemma WorldRectsApart()
    ensures forall a, b :: 0 <= a < b < |WorldRects| ==> Apart(WorldRects[a], WorldRects[b])
  {
    assert RectsApartAt(WorldRects, 0);
    RectsApartAtSound(WorldRects, 0);
  }

  /** Every part rectangle lies on the map. */
  lemma WorldRectsInside()
    ensures forall k :: 0 <= k < |WorldRects| ==> Inside(WorldRects[k], Map14)
  {
    assert AllInsideAt(WorldRects, Map14, 0);
    AllInsideAtSound(WorldRects, Map14, 0);
  }

  /** Every initial thing lies on the map. */
  lemma ThingsWithin()
    ensures Within(Things(), Map14)
  {
    WorldRectsInside();
    WorldPartsSound();
    FlattenWithin(WorldParts(), WorldRects, Map14);
    PartsAreThings();
  }

  /** No two initial things share a tile. */
  lemma ThingsApart()
    ensures PairwiseApart(Things())
  {
    WorldRectsApart();
    WorldPartsSound();
    FlattenApart(WorldParts(), WorldRects);
    PartsAreThings();
  }

  /** Every initial thing lies inside the 14 x 14 map, and no two of them
      share a tile (catalog footprints, wood one tile). */
  lemma WorldLayout()
    ensures Within(Things(), Rect(0.0, 0.0, WorldMetadata().width as real, WorldMetadata().height as real))
    ensures PairwiseApart(Things())
  {
    ThingsWithin();
    ThingsApart();
  }

  /** The world is a 14 x 14 forest listing 94 things: the gold mine, 90
      wood tiles, the two peasants and the town hall of player 0. */
  lemma WorldListing()
    ensures WorldMetadata().width == 14 && WorldMetadata().height == 14 && WorldMetadata().climate == "forest"
    ensures |Things()| == 94
    ensures Things()[0] == Goldmine0
    ensures forall k :: 1 <= k < 91 ==> IsWood(Things()[k])
    ensures Things()[91..] == [Peasant0, Peasant1, Townhall0]
  {
    ForestTiles(0.0, 0.0, 14, 2);
    ForestTiles(0.0, 2.0, 2, 1);
    ForestTiles(12.0, 2.0, 2, 12);
    ForestTiles(11.0, 2.0, 1, 10);
    ForestTiles(10.0, 2.0, 1, 8);
    ForestTiles(5.0, 2.0, 5, 1);
    ForestTiles(6.0, 3.0, 4, 1);
    ForestTiles(7.0, 4.0, 3, 1);
    ForestTiles(8.0, 5.0, 2, 2);
    ForestTiles(9.0, 7.0, 1, 2);
  }

  /** No listed thing carries an `id` of its own: `add` draws one for each. */
  lemma ThingsCarryNoId()
    ensures forall i :: 0 <= i < |Things()| ==> Id !in Things()[i]
  {
    WorldListing();
    forall i | 91 <= i < |Things()| ensures Id !in Things()[i] {
      assert Things()[i] == Things()[91..][i - 91];
    }
  }

  /** The gold mine comes first, and right after it the wood tile at the
      origin. */
  lemma OriginTileSecond()
    ensures |Things()| > 1 && Things()[0] == Goldmine0 && Things()[1] == WoodTile(0.0, 0.0)
  {
    ForestAt(0.0, 0.0, 14, 2, 0, 0);
    WorldListing();
  }
}
