/** Integer layout of the directional shadow atlas: how many tiles a frame
    needs, how finely the atlas is split, which tile a (light, cascade) pair
    gets and where that tile lies.  Tiles are numbered light-major and
    placed row-major, x fastest. */
module AtlasTiling {

  /** Capacity of the reservation table and of the cascade table; their
      product is the size of the shadow matrix table. */
  const MaxShadowedDirectionalLightCount: int := 4
  const MaxCascades: int := 4
  const MatrixTableSize: int := MaxShadowedDirectionalLightCount * MaxCascades

  /** Number of tiles needed for `lightCount` lights of `cascadeCount` cascades. */
  function TileCount(lightCount: int, cascadeCount: int): int {
    lightCount * cascadeCount
  }

  /** The number of tiles along each side of the atlas: the smallest of
      1, 2 and 4 whose square holds every tile (4 when none does). */
  function Split(tiles: int): (split: int)
    ensures split == 1 || split == 2 || split == 4
    ensures tiles <= 16 ==> tiles <= split * split
    ensures split > 1 ==> tiles > (split / 2) * (split / 2)
  {
    if tiles <= 1 then 1 else if tiles <= 4 then 2 else 4
  }

  /** Every frame the table can hold fits in the split it picks. */
  lemma SplitCoversReservations(lightCount: int, cascadeCount: int)
    requires 0 <= lightCount <= MaxShadowedDirectionalLightCount
    requires 1 <= cascadeCount <= MaxCascades
    ensures TileCount(lightCount, cascadeCount) <= MatrixTableSize
    ensures TileCount(lightCount, cascadeCount) <= Split(TileCount(lightCount, cascadeCount)) * Split(TileCount(lightCount, cascadeCount))
  {
    assert lightCount * cascadeCount <= 4 * cascadeCount <= 16;
  }

  /** The index of cascade `cascade` of the `slot`-th reserved light. */
  function TileIndex(slot: int, cascade: int, cascadeCount: int): int {
    slot * cascadeCount + cascade
  }

  /** Tile indices of distinct (slot, cascade) pairs are distinct, and all of
      them index the shadow matrix table. */
  lemma TileIndexInjective(slot1: int, cascade1: int, slot2: int, cascade2: int, cascadeCount: int)
    requires 1 <= cascadeCount <= MaxCascades
    requires 0 <= slot1 < MaxShadowedDirectionalLightCount && 0 <= slot2 < MaxShadowedDirectionalLightCount
    requires 0 <= cascade1 < cascadeCount && 0 <= cascade2 < cascadeCount
    ensures 0 <= TileIndex(slot1, cascade1, cascadeCount) < MatrixTableSize
    ensures TileIndex(slot1, cascade1, cascadeCount) == TileIndex(slot2, cascade2, cascadeCount)
            <==> slot1 == slot2 && cascade1 == cascade2
  {
    TileIndexBound(slot1, cascade1, cascadeCount);
    if slot1 < slot2 {
      TileIndexBelowNextSlot(slot1, cascade1, slot2, cascadeCount);
    } else if slot2 < slot1 {
      TileIndexBelowNextSlot(slot2, cascade2, slot1, cascadeCount);
    }
  }

  lemma TileIndexBound(slot: int, cascade: int, cascadeCount: int)
    requires 1 <= cascadeCount <= MaxCascades
    requires 0 <= slot < MaxShadowedDirectionalLightCount
    requires 0 <= cascade < cascadeCount
    ensures 0 <= TileIndex(slot, cascade, cascadeCount) < MatrixTableSize
  {
    assert slot * cascadeCount <= 3 * cascadeCount;
  }

  lemma TileIndexBelowNextSlot(slot1: int, cascade1: int, slot2: int, cascadeCount: int)
    requires 1 <= cascadeCount
    requires 0 <= slot1 < slot2
    requires 0 <= cascade1 < cascadeCount
    ensures TileIndex(slot1, cascade1, cascadeCount) < slot2 * cascadeCount
  {
    assert (slot1 + 1) * cascadeCount <= slot2 * cascadeCount;
  }

  /** Tile `t` of a frame of `lightCount` lights belongs to slot
      `t / cascadeCount`, a reserved one. */
  lemma TileSlotInRange(t: int, cascadeCount: int, lightCount: int)
    requires 1 <= cascadeCount
    requires 0 <= t < TileCount(lightCount, cascadeCount)
    ensures 0 <= t / cascadeCount < lightCount
    ensures TileIndex(t / cascadeCount, t % cascadeCount, cascadeCount) == t
  {
  }

  lemma DivisibleByFactor(n: int, a: int, b: int)
    requires 1 <= a && a * b == n
    ensures n % a == 0 && n / a == b
  {
    assert (n / a) * a + n % a == n;
    QuotientUnique(b, 0, n / a, n % a, a);
  }

  /** Position of a tile in the split x split grid. */
  datatype Offset = Offset(x: int, y: int)

  /** Row-major placement of tile `index`: column `index % split`, row
      `index / split`.  Both operands are non-negative in every use, so the
      truncating C# operators agree with Dafny's. */
  function TileOffset(index: int, split: int): (o: Offset)
    requires 0 <= index && 1 <= split
    ensures 0 <= o.x < split && 0 <= o.y
    ensures o.y * split + o.x == index
    ensures index < split * split ==> o.y < split
  {
    Offset(index % split, index / split)
  }

  /** The tile that sits at a grid position; the inverse of TileOffset. */
  function TileAt(o: Offset, split: int): int {
    o.y * split + o.x
  }

  /** Placement and lookup are inverse to each other. */
  lemma TileOffsetRoundTrip(index: int, o: Offset, split: int)
    requires 1 <= split
    requires 0 <= index < split * split
    requires 0 <= o.x < split && 0 <= o.y < split
    ensures TileAt(TileOffset(index, split), split) == index
    ensures TileOffset(TileAt(o, split), split) == o
  {
    var i := TileAt(o, split);
    assert 0 <= i by {
      assert o.y * split >= 0;
    }
    var p := TileOffset(i, split);
    QuotientUnique(p.y, p.x, o.y, o.x, split);
  }

  /** Quotient and remainder of a division by `split` are unique. */
  lemma QuotientUnique(q1: int, r1: int, q2: int, r2: int, split: int)
    requires 1 <= split
    requires 0 <= r1 < split && 0 <= r2 < split
    requires q1 * split + r1 == q2 * split + r2
    ensures q1 == q2 && r1 == r2
  {
    var d := q1 - q2;
    assert d * split == r2 - r1;
    assert -split < d * split < split;
    MultipleBelowFactor(d, split);
  }

  lemma MultipleBelowFactor(d: int, split: int)
    requires 1 <= split
    requires -split < d * split < split
    ensures d == 0
  {
  }

  /** Distinct tiles get distinct grid positions. */
  lemma TileOffsetInjective(i: int, j: int, split: int)
    requires 1 <= split
    requires 0 <= i && 0 <= j
    ensures TileOffset(i, split) == TileOffset(j, split) ==> i == j
  {
  }

  /** Pixel width of one tile. */
  function TileSize(atlasSize: int, split: int): int
    requires 1 <= split
  {
    atlasSize / split
  }

  /** For every recognised atlas size, each of the three splits divides it
      exactly, so the tiles cover the atlas with no remainder. */
  lemma TileSizeExact(atlasSize: int, split: int)
    requires atlasSize in {256, 512, 1024, 2048, 4096, 8192}
    requires split == 1 || split == 2 || split == 4
    ensures TileSize(atlasSize, split) * split == atlasSize
    ensures TileSize(atlasSize, split) >= 64
  {
  }

  /** A square viewport in atlas pixels. */
  datatype Rect = Rect(x: int, y: int, size: int)

  /** The viewport of the tile at grid position `o`. */
  function TileViewport(o: Offset, tileSize: int): (r: Rect)
    requires 0 <= o.x && 0 <= o.y && 0 <= tileSize
    ensures r.size == tileSize && 0 <= r.x && 0 <= r.y
    // the origin sits on the tile grid, in the cell the offset names
    ensures 0 < tileSize ==>
              && r.x % tileSize == 0 && r.x / tileSize == o.x
              && r.y % tileSize == 0 && r.y / tileSize == o.y
  {
    var rect := Rect(o.x * tileSize, o.y * tileSize, tileSize);
    if 0 < tileSize then
      DivisibleByFactor(rect.x, tileSize, o.x);
      DivisibleByFactor(rect.y, tileSize, o.y);
      rect
    else
      rect
  }

  /** A viewport of a grid cell lies inside the atlas. */
  lemma ViewportInsideAtlas(o: Offset, split: int, atlasSize: int)
    requires 1 <= split
    requires 0 <= o.x < split && 0 <= o.y < split
    requires atlasSize >= 0 && atlasSize % split == 0
    ensures TileViewport(o, TileSize(atlasSize, split)).x + TileSize(atlasSize, split) <= atlasSize
    ensures TileViewport(o, TileSize(atlasSize, split)).y + TileSize(atlasSize, split) <= atlasSize
  {
    var t := TileSize(atlasSize, split);
    assert atlasSize == split * t + atlasSize % split;
    CellBelowEdge(o.x, split, t);
    CellBelowEdge(o.y, split, t);
  }

  lemma CellBelowEdge(a: int, split: int, t: int)
    requires 0 <= a < split && 0 <= t
    ensures a * t + t <= split * t
  {
    var d := split - (a + 1);
    ProductNonNegative(d, t);
    assert split * t - (a * t + t) == d * t;
  }

  lemma {:induction false} ProductNonNegative(d: int, t: int)
    requires 0 <= d && 0 <= t
    ensures d * t >= 0
    decreases d
  {
    if d > 0 {
      ProductNonNegative(d - 1, t);
      assert d * t == (d - 1) * t + t;
    }
  }

  /** Whether two viewports share a pixel. */
  predicate Overlap(a: Rect, b: Rect) {
    && a.x < b.x + b.size && b.x < a.x + a.size
    && a.y < b.y + b.size && b.y < a.y + a.size
  }

  /** Viewports of two different grid cells share no pixel. */
  lemma ViewportsDisjoint(o1: Offset, o2: Offset, tileSize: int)
    requires 0 <= o1.x && 0 <= o1.y && 0 <= o2.x && 0 <= o2.y
    requires 0 < tileSize
    requires o1 != o2
    ensures !Overlap(TileViewport(o1, tileSize), TileViewport(o2, tileSize))
  {
    if o1.x != o2.x {
      CellsApart(o1.x, o2.x, tileSize);
    } else {
      CellsApart(o1.y, o2.y, tileSize);
    }
  }

  lemma CellsApart(a: int, b: int, t: int)
    requires 0 <= a && 0 <= b && a != b && 0 < t
    ensures a * t + t <= b * t || b * t + t <= a * t
  {
    if a < b {
      assert (a + 1) * t <= b * t;
    } else {
      assert (b + 1) * t <= a * t;
    }
  }
}
