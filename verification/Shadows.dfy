/** The shadow atlas packer: per-frame reservation of directional shadow
    slots, the metadata-only path for point and spot lights, and the render
    plan that assigns every (light, cascade) pair its atlas tile.  Engine
    queries are inputs: the caster-bounds query is a predicate on the
    visible-light index, the shadow-mask quality mode a parameter. */
module Shadows {
  import opened Settings
  import opened AtlasTiling
  import opened ShadowKeywords

  datatype LightShadows = NoShadows | HardShadows | SoftShadows
  datatype LightmapBakeType = Realtime | Baked | Mixed
  datatype MixedLightingMode = IndirectOnly | Subtractive | MixedShadowmask

  /** The parts of an engine light the shadow system reads. */
  datatype Light = Light(
    shadows: LightShadows,
    shadowStrength: real,
    shadowBias: real,
    shadowNormalBias: real,
    shadowNearPlane: real,
    bakeType: LightmapBakeType,
    mixedMode: MixedLightingMode,
    occlusionMaskChannel: int)

  /** A light asks for shadows at all. */
  predicate CastsShadows(light: Light) {
    light.shadows != NoShadows && light.shadowStrength > 0.0
  }

  /** The light's baked occlusion lives in a shadow-mask channel. */
  predicate UsesShadowmask(light: Light) {
    light.bakeType == Mixed && light.mixedMode == MixedShadowmask
  }

  /** Reservation record of one directional light with a live shadow map. */
  datatype ShadowedDirectionalLight = ShadowedDirectionalLight(
    visibleLightIndex: int,
    slopeScaleBias: real,
    nearPlaneOffset: real)

  /** The per-light descriptor handed to the shading stage:
      (strength, first tile, normal bias, shadow-mask channel). */
  datatype ShadowData = ShadowData(strength: real, tileOffset: int, normalBias: real, maskChannel: int)

  /** The descriptor meaning "no shadow and no baked mask". */
  const NoShadowData: ShadowData := ShadowData(0.0, 0, 0.0, -1)

  /** Per-frame state of the packer.  `slots` is the fixed reservation
      table; entries at and above `count` are left-overs that nothing reads. */
  datatype ShadowState = ShadowState(
    settings: ShadowSettings,
    count: int,
    slots: seq<ShadowedDirectionalLight>,
    useShadowMask: bool)
  {
    predicate Valid() {
      0 <= count <= MaxShadowedDirectionalLightCount && |slots| == MaxShadowedDirectionalLightCount
    }
  }

  /** The frame reset: whatever the previous frame left, no slot is
      reserved and no light has used a shadow mask.  The table itself is not
      cleared. */
  function Setup(prior: ShadowState, settings: ShadowSettings): (s: ShadowState)
    requires prior.Valid()
    ensures s.Valid() && s.settings == settings
    ensures s.count == 0 && !s.useShadowMask
    ensures s.slots == prior.slots
  {
    ShadowState(settings, 0, prior.slots, false)
  }

  /** State after a reservation call together with the descriptor it returned. */
  datatype Reservation = Reservation(state: ShadowState, data: ShadowData)

  /** The mask channel a light reports: its occlusion channel when it is a
      mixed shadow-mask light, -1 otherwise. */
  function MaskChannel(light: Light): (c: int)
    ensures c != -1 ==> UsesShadowmask(light)
    ensures UsesShadowmask(light) ==> c == light.occlusionMaskChannel
  {
    if UsesShadowmask(light) then light.occlusionMaskChannel else -1
  }

  /** Reserves a slot of the directional table for `light` when there is
      room, the light casts shadows and the caster-bounds query reports
      casters for `visibleLightIndex`. */
  function ReserveDirectionalShadows(
    s: ShadowState, light: Light, visibleLightIndex: int, hasCasterBounds: int -> bool): (r: Reservation)
    requires s.Valid()
    ensures r.state.Valid() && r.state.settings == s.settings
    ensures s.count <= r.state.count <= s.count + 1
    // full table or a light without shadows: nothing changes
    ensures s.count == MaxShadowedDirectionalLightCount || !CastsShadows(light)
            ==> r == Reservation(s, NoShadowData)
    // a candidate light reports its mask channel and raises the mask flag,
    // whether or not it gets a tile
    ensures s.count < MaxShadowedDirectionalLightCount && CastsShadows(light)
            ==> r.data.maskChannel == MaskChannel(light)
                && r.state.useShadowMask == (s.useShadowMask || UsesShadowmask(light))
    // a candidate light without casters: negated strength, no slot
    ensures s.count < MaxShadowedDirectionalLightCount && CastsShadows(light) && !hasCasterBounds(visibleLightIndex)
            ==> r.data.strength == -light.shadowStrength && r.data.tileOffset == 0 && r.data.normalBias == 0.0
                && r.state.count == s.count && r.state.slots == s.slots
    // a slot is taken exactly for a candidate light with casters
    ensures r.state.count == s.count + 1
            <==> s.count < MaxShadowedDirectionalLightCount && CastsShadows(light) && hasCasterBounds(visibleLightIndex)
    ensures r.state.count == s.count + 1
            ==> r.data.strength == light.shadowStrength
                && r.data.tileOffset == s.settings.directional.cascadeCount * s.count
                && r.data.normalBias == light.shadowNormalBias
                && r.state.slots == s.slots[s.count := ShadowedDirectionalLight(visibleLightIndex, light.shadowBias, light.shadowNearPlane)]
    // the sign of the strength tells the shading stage whether to sample the atlas
    ensures r.data.strength > 0.0 <==> r.state.count == s.count + 1
  {
    if s.count < MaxShadowedDirectionalLightCount && CastsShadows(light) then
      var channel := MaskChannel(light);
      var masked := s.(useShadowMask := s.useShadowMask || UsesShadowmask(light));
      if !hasCasterBounds(visibleLightIndex) then
        Reservation(masked, ShadowData(-light.shadowStrength, 0, 0.0, channel))
      else
        var record := ShadowedDirectionalLight(visibleLightIndex, light.shadowBias, light.shadowNearPlane);
        Reservation(
          masked.(count := s.count + 1, slots := s.slots[s.count := record]),
          ShadowData(light.shadowStrength, s.settings.directional.cascadeCount * s.count, light.shadowNormalBias, channel))
    else
      Reservation(s, NoShadowData)
  }

  /** Point and spot lights never get a shadow map: a shadow-casting
      mixed shadow-mask light reports its baked channel, every other light
      gets the empty descriptor.  Only the mask flag can change. */
  function ReserveOtherShadows(s: ShadowState, light: Light, visibleLightIndex: int): (r: Reservation)
    ensures r.state == s.(useShadowMask := s.useShadowMask || (CastsShadows(light) && UsesShadowmask(light)))
    ensures CastsShadows(light) && UsesShadowmask(light)
            ==> r.data == ShadowData(light.shadowStrength, 0, 0.0, light.occlusionMaskChannel)
    ensures !(CastsShadows(light) && UsesShadowmask(light)) ==> r.data == NoShadowData
    ensures r.data.tileOffset == 0 && r.data.normalBias == 0.0
  {
    if CastsShadows(light) && UsesShadowmask(light) then
      Reservation(s.(useShadowMask := true), ShadowData(light.shadowStrength, 0, 0.0, light.occlusionMaskChannel))
    else
      Reservation(s, NoShadowData)
  }

  /** One depth pass into the atlas: cascade `cascade` of the light in slot
      `slot`, drawn into tile `tileIndex` at grid position `offset`. */
  datatype TileDraw = TileDraw(
    slot: int,
    cascade: int,
    tileIndex: int,
    visibleLightIndex: int,
    offset: Offset,
    viewport: Rect,
    slopeScaleBias: real,
    nearPlaneOffset: real,
    ratios: Vector3,
    writesCascadeData: bool)

  /** The shadow texture of a frame: a 1x1 placeholder when nothing was
      reserved, otherwise the full atlas.  `draws[slot][cascade]` is the
      depth pass of one cascade of one reserved light. */
  datatype Atlas =
    | Placeholder
    | ShadowAtlas(size: int, split: int, tileSize: int, draws: seq<seq<TileDraw>>)

  /** Everything the render pass publishes. */
  datatype RenderOutput = RenderOutput(
    atlas: Atlas,
    filterKeywords: seq<KeywordCommand>,
    blendKeywords: seq<KeywordCommand>,
    maskKeywords: seq<KeywordCommand>)

  /** The depth pass of one cascade of one reserved light. */
  function CascadeDraw(s: ShadowState, slot: int, cascade: int, split: int, tileSize: int): (d: TileDraw)
    requires s.Valid() && 0 <= slot < s.count
    requires 0 <= cascade < s.settings.directional.cascadeCount
    requires 1 <= split && 0 <= tileSize
    ensures d.slot == slot && d.cascade == cascade
    ensures d.tileIndex == TileIndex(slot, cascade, s.settings.directional.cascadeCount)
    ensures d.visibleLightIndex == s.slots[slot].visibleLightIndex
    ensures d.slopeScaleBias == s.slots[slot].slopeScaleBias
    ensures d.nearPlaneOffset == s.slots[slot].nearPlaneOffset
    ensures d.ratios == s.settings.directional.CascadeRatios()
    ensures d.writesCascadeData <==> slot == 0
    ensures 0 <= d.offset.x < split && 0 <= d.offset.y && TileAt(d.offset, split) == d.tileIndex
    ensures d.tileIndex < split * split ==> d.offset.y < split
    ensures d.viewport == TileViewport(d.offset, tileSize)
  {
    var cascadeCount := s.settings.directional.cascadeCount;
    var tileIndex := TileIndex(slot, cascade, cascadeCount);
    assert 0 <= tileIndex by {
      assert slot * cascadeCount >= 0;
    }
    var offset := TileOffset(tileIndex, split);
    var light := s.slots[slot];
    TileDraw(slot, cascade, tileIndex, light.visibleLightIndex, offset,
             TileViewport(offset, tileSize), light.slopeScaleBias, light.nearPlaneOffset,
             s.settings.directional.CascadeRatios(), slot == 0)
  }

  /** The depth passes of cascades 0 .. cascades-1 of the light in `slot`,
      in cascade order. */
  function LightDraws(s: ShadowState, slot: int, cascades: int, split: int, tileSize: int): (ds: seq<TileDraw>)
    requires s.Valid() && 0 <= slot < s.count
    requires 0 <= cascades <= s.settings.directional.cascadeCount
    requires 1 <= split && 0 <= tileSize
    ensures |ds| == cascades
    ensures forall c :: 0 <= c < cascades ==> ds[c] == CascadeDraw(s, slot, c, split, tileSize)
    decreases cascades
  {
    if cascades == 0 then []
    else LightDraws(s, slot, cascades - 1, split, tileSize) + [CascadeDraw(s, slot, cascades - 1, split, tileSize)]
  }

  /** The atlas of a frame with at least one reservation: the configured
      size, a split that holds all `count x cascadeCount` tiles and divides
      the size exactly, and one depth pass per reserved light and cascade. */
  function DirectionalAtlas(s: ShadowState): (a: Atlas)
    requires s.Valid() && s.settings.directional.Valid() && s.count > 0
    ensures a.ShadowAtlas?
    ensures a.size == s.settings.directional.atlasSize.Pixels()
    ensures a.split == Split(TileCount(s.count, s.settings.directional.cascadeCount))
    ensures a.split * a.tileSize == a.size && 1 <= a.tileSize
    ensures TileCount(s.count, s.settings.directional.cascadeCount) <= a.split * a.split
    ensures |a.draws| == s.count
    ensures forall slot :: 0 <= slot < s.count ==>
              |a.draws[slot]| == s.settings.directional.cascadeCount
    ensures forall slot, cascade :: 0 <= slot < s.count && 0 <= cascade < |a.draws[slot]| ==>
              a.draws[slot][cascade] == CascadeDraw(s, slot, cascade, a.split, a.tileSize)
  {
    var d := s.settings.directional;
    var atlasSize := d.atlasSize.Pixels();
    var split := Split(TileCount(s.count, d.cascadeCount));
    var tileSize := TileSize(atlasSize, split);
    TextureSizeValues(d.atlasSize);
    TileSizeExact(atlasSize, split);
    SplitCoversReservations(s.count, d.cascadeCount);
    var draws := seq(s.count, slot requires 0 <= slot < s.count =>
                       LightDraws(s, slot, d.cascadeCount, split, tileSize));
    ShadowAtlas(atlasSize, split, tileSize, draws)
  }

  /** The render pass.  With no reservation it only binds the 1x1
      placeholder and leaves the filter and blend keywords as they were;
      otherwise it lays out the atlas and selects the filter and blend
      keywords.  The shadow-mask keywords are set in both cases. */
  function Render(s: ShadowState, mode: ShadowmaskMode): (r: RenderOutput)
    requires s.Valid() && s.settings.directional.Valid()
    ensures s.count == 0 <==> r.atlas.Placeholder?
    ensures s.count == 0 ==> r.filterKeywords == [] && r.blendKeywords == []
    ensures s.count > 0 ==> r.atlas == DirectionalAtlas(s)
    // every group toggles all its keywords and enables exactly the selected
    // one, or none when the index is -1
    ensures var k := ShadowMaskKeywordIndex(s.useShadowMask, mode);
            && Selects(r.maskKeywords, ShadowMaskKeywords, k)
            && EnabledCount(r.maskKeywords) == (if k >= 0 then 1 else 0)
            && EnabledIndex(r.maskKeywords) == k
    ensures s.count > 0 ==>
              var k := FilterKeywordIndex(s.settings.directional.filter);
              && Selects(r.filterKeywords, DirectionalFilterKeywords, k)
              && EnabledCount(r.filterKeywords) == (if k >= 0 then 1 else 0)
              && EnabledIndex(r.filterKeywords) == k
    ensures s.count > 0 ==>
              var k := BlendKeywordIndex(s.settings.directional.cascadeBlend);
              && Selects(r.blendKeywords, CascadeBlendKeywords, k)
              && EnabledCount(r.blendKeywords) == (if k >= 0 then 1 else 0)
              && EnabledIndex(r.blendKeywords) == k
  {
    var maskKeywords := SetKeywords(ShadowMaskKeywords, ShadowMaskKeywordIndex(s.useShadowMask, mode));
    KeywordsRoundTrip(ShadowMaskKeywords, ShadowMaskKeywordIndex(s.useShadowMask, mode));
    KeywordsExclusive(ShadowMaskKeywords, ShadowMaskKeywordIndex(s.useShadowMask, mode));
    if s.count > 0 then
      var d := s.settings.directional;
      KeywordsRoundTrip(DirectionalFilterKeywords, FilterKeywordIndex(d.filter));
      KeywordsExclusive(DirectionalFilterKeywords, FilterKeywordIndex(d.filter));
      KeywordsRoundTrip(CascadeBlendKeywords, BlendKeywordIndex(d.cascadeBlend));
      KeywordsExclusive(CascadeBlendKeywords, BlendKeywordIndex(d.cascadeBlend));
      RenderOutput(
        DirectionalAtlas(s),
        SetKeywords(DirectionalFilterKeywords, FilterKeywordIndex(d.filter)),
        SetKeywords(CascadeBlendKeywords, BlendKeywordIndex(d.cascadeBlend)),
        maskKeywords)
    else
      RenderOutput(Placeholder, [], [], maskKeywords)
  }

  /** Every depth pass of a frame draws into the shadow matrix table and
      into a grid cell whose viewport lies inside the atlas. */
  lemma DrawInsideAtlas(s: ShadowState, slot: int, cascade: int)
    requires s.Valid() && s.settings.directional.Valid() && s.count > 0
    requires 0 <= slot < s.count && 0 <= cascade < s.settings.directional.cascadeCount
    ensures var a := DirectionalAtlas(s);
            var d := a.draws[slot][cascade];
            && 0 <= d.tileIndex < MatrixTableSize
            && 0 <= d.offset.x < a.split && 0 <= d.offset.y < a.split
            && d.viewport.x + a.tileSize <= a.size && d.viewport.y + a.tileSize <= a.size
  {
    var a := DirectionalAtlas(s);
    var cascadeCount := s.settings.directional.cascadeCount;
    var d := a.draws[slot][cascade];
    TileIndexBound(slot, cascade, cascadeCount);
    TileIndexBelowNextSlot(slot, cascade, s.count, cascadeCount);
    assert d.tileIndex < a.split * a.split;
    DivisibleByFactor(a.size, a.split, a.tileSize);
    ViewportInsideAtlas(d.offset, a.split, a.size);
  }

  /** Depth passes of different (light, cascade) pairs draw different
      tiles into viewports that share no pixel. */
  lemma DrawsDisjoint(s: ShadowState, slot1: int, cascade1: int, slot2: int, cascade2: int)
    requires s.Valid() && s.settings.directional.Valid() && s.count > 0
    requires 0 <= slot1 < s.count && 0 <= cascade1 < s.settings.directional.cascadeCount
    requires 0 <= slot2 < s.count && 0 <= cascade2 < s.settings.directional.cascadeCount
    requires slot1 != slot2 || cascade1 != cascade2
    ensures var a := DirectionalAtlas(s);
            && a.draws[slot1][cascade1].tileIndex != a.draws[slot2][cascade2].tileIndex
            && !Overlap(a.draws[slot1][cascade1].viewport, a.draws[slot2][cascade2].viewport)
  {
    var a := DirectionalAtlas(s);
    var d1, d2 := a.draws[slot1][cascade1], a.draws[slot2][cascade2];
    TileIndexInjective(slot1, cascade1, slot2, cascade2, s.settings.directional.cascadeCount);
    assert d1.offset != d2.offset;
    ViewportsDisjoint(d1.offset, d2.offset, a.tileSize);
  }

  /** The rendered tiles are exactly 0 .. count*cascadeCount-1: tile t is
      drawn by cascade t % cascadeCount of the light in slot t / cascadeCount. */
  lemma DrawsCoverTiles(s: ShadowState, t: int)
    requires s.Valid() && s.settings.directional.Valid() && s.count > 0
    requires 0 <= t < TileCount(s.count, s.settings.directional.cascadeCount)
    ensures var cascadeCount := s.settings.directional.cascadeCount;
            && 0 <= t / cascadeCount < s.count
            && DirectionalAtlas(s).draws[t / cascadeCount][t % cascadeCount].tileIndex == t
  {
    var cascadeCount := s.settings.directional.cascadeCount;
    TileSlotInRange(t, cascadeCount, s.count);
  }

  /** The descriptor of the light in `slot` points the shading stage at
      tile `cascadeCount * slot`; adding a cascade index selects exactly the
      depth pass rendered for that light and cascade. */
  lemma ReservedLightTiles(s: ShadowState, slot: int, cascade: int)
    requires s.Valid() && s.settings.directional.Valid()
    requires 0 <= slot < s.count && 0 <= cascade < s.settings.directional.cascadeCount
    ensures DirectionalAtlas(s).draws[slot][cascade].tileIndex
            == s.settings.directional.cascadeCount * slot + cascade
  {
    var d := DirectionalAtlas(s).draws[slot][cascade];
    assert d.tileIndex == slot * s.settings.directional.cascadeCount + cascade;
  }

  /** The cascade table is filled from the first reserved light only: the
      passes of slot 0 write it, once per cascade, and no other pass does. */
  lemma CascadeDataFromFirstLight(s: ShadowState, slot: int, cascade: int)
    requires s.Valid() && s.settings.directional.Valid() && s.count > 0
    requires 0 <= slot < s.count && 0 <= cascade < s.settings.directional.cascadeCount
    ensures DirectionalAtlas(s).draws[slot][cascade].writesCascadeData <==> slot == 0
    ensures DirectionalAtlas(s).draws[slot][cascade].cascade == cascade
  {
  }
}
