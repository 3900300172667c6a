/** Shadow configuration of the render pipeline: atlas resolution, filter
    quality, cascade layout and fade distances.  The enums keep the ordinals
    of the source, since the renderer turns them into keyword indices. */
module Settings {

  /** A number of the form 2^k. */
  ghost predicate IsPowerOfTwo(n: int)
    decreases if n < 0 then 0 else n
  {
    n == 1 || (n > 1 && n % 2 == 0 && IsPowerOfTwo(n / 2))
  }

  /** Resolution of a square shadow atlas. */
  datatype TextureSize = Size256 | Size512 | Size1024 | Size2048 | Size4096 | Size8192 {

    /** The texel width the enum value stands for. */
    function Pixels(): int {
      match this
      case Size256 => 256
      case Size512 => 512
      case Size1024 => 1024
      case Size2048 => 2048
      case Size4096 => 4096
      case Size8192 => 8192
    }
  }

  /** The enum value whose underlying integer is `pixels`, if there is one. */
  function TextureSizeOf(pixels: int): (t: Option<TextureSize>)
    ensures t.Some? ==> t.value.Pixels() == pixels
  {
    if pixels == 256 then Some(Size256)
    else if pixels == 512 then Some(Size512)
    else if pixels == 1024 then Some(Size1024)
    else if pixels == 2048 then Some(Size2048)
    else if pixels == 4096 then Some(Size4096)
    else if pixels == 8192 then Some(Size8192)
    else None
  }

  datatype Option<T> = None | Some(value: T)

  /** The recognised atlas sizes are exactly 256 .. 8192, each a power of two,
      and reading an enum value back from its integer is lossless. */
  lemma TextureSizeValues(t: TextureSize)
    ensures t.Pixels() in {256, 512, 1024, 2048, 4096, 8192}
    ensures IsPowerOfTwo(t.Pixels())
    ensures TextureSizeOf(t.Pixels()) == Some(t)
  {
    // one unfolding per recognised size keeps the solver's search short
    assert IsPowerOfTwo(256);
    assert IsPowerOfTwo(512);
    assert IsPowerOfTwo(1024);
    assert IsPowerOfTwo(2048);
    assert IsPowerOfTwo(4096);
    assert IsPowerOfTwo(8192);
  }

  /** Only the six recognised sizes are enum values. */
  lemma TextureSizeOfOnlyRecognised(pixels: int)
    ensures TextureSizeOf(pixels).Some? <==> pixels in {256, 512, 1024, 2048, 4096, 8192}
  {
  }

  /** Percentage-closer filter quality, in declaration order. */
  datatype FilterMode = PCF2x2 | PCF3x3 | PCF5x5 | PCF7x7 {
    function Ordinal(): int {
      match this
      case PCF2x2 => 0
      case PCF3x3 => 1
      case PCF5x5 => 2
      case PCF7x7 => 3
    }
  }

  /** How neighbouring cascades are blended, in declaration order. */
  datatype CascadeBlendMode = Hard | Soft | Dither {
    function Ordinal(): int {
      match this
      case Hard => 0
      case Soft => 1
      case Dither => 2
    }
  }

  /** The keyword index the renderer derives from the filter: one less than
      the ordinal, so the cheapest filter selects no keyword (-1) and the
      three others select one of three keywords. */
  function FilterKeywordIndex(f: FilterMode): (k: int)
    ensures -1 <= k < 3
    ensures k == -1 <==> f == PCF2x2
    ensures forall g: FilterMode :: g.Ordinal() - 1 == k ==> g == f
  {
    f.Ordinal() - 1
  }

  /** The keyword index the renderer derives from the blend mode: -1 for
      Hard, and one of two keywords otherwise. */
  function BlendKeywordIndex(b: CascadeBlendMode): (k: int)
    ensures -1 <= k < 2
    ensures k == -1 <==> b == Hard
    ensures forall c: CascadeBlendMode :: c.Ordinal() - 1 == k ==> c == b
  {
    b.Ordinal() - 1
  }

  datatype Vector3 = Vector3(x: real, y: real, z: real)

  /** Settings of the directional shadow atlas. */
  datatype Directional = Directional(
    atlasSize: TextureSize,
    filter: FilterMode,
    cascadeCount: int,
    cascadeRatio1: real,
    cascadeRatio2: real,
    cascadeRatio3: real,
    cascadeFade: real,
    cascadeBlend: CascadeBlendMode)
  {
    /** The three split ratios as one vector, in the order the culling
        query expects them. */
    function CascadeRatios(): (v: Vector3)
      ensures [v.x, v.y, v.z] == [cascadeRatio1, cascadeRatio2, cascadeRatio3]
    {
      Vector3(cascadeRatio1, cascadeRatio2, cascadeRatio3)
    }

    /** The editor ranges of the fields. */
    predicate Valid() {
      && 1 <= cascadeCount <= 4
      && 0.0 <= cascadeRatio1 <= 1.0
      && 0.0 <= cascadeRatio2 <= 1.0
      && 0.0 <= cascadeRatio3 <= 1.0
      && 0.001 <= cascadeFade <= 1.0
    }
  }

  /** Settings of the (unused) point/spot shadow atlas. */
  datatype Other = Other(atlasSize: TextureSize, filter: FilterMode)

  datatype ShadowSettings = ShadowSettings(
    maxDistance: real,
    distanceFade: real,
    directional: Directional,
    other: Other)
  {
    predicate Valid() {
      && maxDistance >= 0.001
      && 0.001 <= distanceFade <= 1.0
      && directional.Valid()
    }
  }

  /** The configuration a fresh pipeline asset starts with; it lies inside
      every editor range. */
  function Default(): (s: ShadowSettings)
    ensures s.Valid()
    ensures s.maxDistance == 100.0 && s.distanceFade == 0.1
    ensures s.directional.atlasSize.Pixels() == 1024 && s.other.atlasSize.Pixels() == 1024
    ensures FilterKeywordIndex(s.directional.filter) == -1
    ensures BlendKeywordIndex(s.directional.cascadeBlend) == -1
    ensures s.directional.cascadeCount == 4
    ensures s.directional.cascadeRatio1 < s.directional.cascadeRatio2 < s.directional.cascadeRatio3
  {
    ShadowSettings(
      100.0, 0.1,
      Directional(Size1024, PCF2x2, 4, 0.1, 0.25, 0.5, 0.1, Hard),
      Other(Size1024, PCF2x2))
  }
}
