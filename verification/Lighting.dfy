/** The light aggregator: walks the frame's visible lights in order, fills
    the directional table (at most 4) and the point/spot table (at most 64),
    asks the packer for each light's shadow descriptor, and builds the map
    from visible-light index to compacted point/spot index. */
module Lighting {
  import opened Settings
  import opened AtlasTiling
  import opened ShadowKeywords
  import opened Shadows

  const MaxDirLightCount: int := 4
  const MaxOtherLightCount: int := 64

  datatype LightType = Spot | Directional | Point | Rectangle | Disc

  /** The parts of a culled light the aggregator reads. */
  datatype VisibleLight = VisibleLight(lightType: LightType, light: Light)

  /** The table a light type goes to; area lights go to neither. */
  datatype Kind = DirectionalKind | OtherKind | Unsupported

  function KindOf(v: VisibleLight): Kind {
    match v.lightType
    case Directional => DirectionalKind
    case Point => OtherKind
    case Spot => OtherKind
    case _ => Unsupported
  }

  function Min(a: int, b: int): int {
    if a <= b then a else b
  }

  /** Number of lights of a kind in a list. */
  function Count(vs: seq<VisibleLight>, kind: Kind): nat {
    if |vs| == 0 then 0
    else Count(vs[..|vs| - 1], kind) + (if KindOf(vs[|vs| - 1]) == kind then 1 else 0)
  }

  /** Which index a directional light hands to the packer: its slot in the
      directional table (what the code does) or its visible-light index
      (what the packer's parameter is documented to be). */
  datatype SlotIndexing = BySlot | ByVisibleIndex

  function ReservedIndex(indexing: SlotIndexing, slot: int, visibleIndex: int): int {
    if indexing == BySlot then slot else visibleIndex
  }

  /** The aggregator's state part-way through the visible lights.
      `dirShadowData` and `otherShadowData` are the fixed shader tables;
      `newIndices` holds one index-map entry per light seen so far. */
  datatype Frame = Frame(
    dirCount: int,
    otherCount: int,
    dirShadowData: seq<ShadowData>,
    otherShadowData: seq<ShadowData>,
    newIndices: seq<int>,
    shadows: ShadowState)
  {
    predicate Valid() {
      && 0 <= dirCount <= MaxDirLightCount
      && 0 <= otherCount <= MaxOtherLightCount
      && |dirShadowData| == MaxDirLightCount
      && |otherShadowData| == MaxOtherLightCount
      && shadows.Valid()
    }
  }

  /** The inputs the aggregator starts from. */
  predicate StartValid(shadows: ShadowState, dirData: seq<ShadowData>, otherData: seq<ShadowData>) {
    shadows.Valid() && |dirData| == MaxDirLightCount && |otherData| == MaxOtherLightCount
  }

  /** Handles the light at position `visibleIndex`. */
  function StepLight(
    f: Frame, v: VisibleLight, visibleIndex: int, hasCasterBounds: int -> bool, indexing: SlotIndexing): (g: Frame)
    requires f.Valid()
    ensures g.Valid()
  {
    match KindOf(v)
    case DirectionalKind =>
      if f.dirCount < MaxDirLightCount then
        var r := ReserveDirectionalShadows(
                   f.shadows, v.light, ReservedIndex(indexing, f.dirCount, visibleIndex), hasCasterBounds);
        f.(dirCount := f.dirCount + 1,
           dirShadowData := f.dirShadowData[f.dirCount := r.data],
           newIndices := f.newIndices + [-1],
           shadows := r.state)
      else
        f.(newIndices := f.newIndices + [-1])
    case OtherKind =>
      if f.otherCount < MaxOtherLightCount then
        var r := ReserveOtherShadows(f.shadows, v.light, f.otherCount);
        f.(otherCount := f.otherCount + 1,
           otherShadowData := f.otherShadowData[f.otherCount := r.data],
           newIndices := f.newIndices + [f.otherCount],
           shadows := r.state)
      else
        f.(newIndices := f.newIndices + [-1])
    case Unsupported =>
      f.(newIndices := f.newIndices + [-1])
  }

  /** The aggregator after the lights of `visible`, taken in order. */
  function Aggregate(
    shadows: ShadowState, dirData: seq<ShadowData>, otherData: seq<ShadowData>,
    visible: seq<VisibleLight>, hasCasterBounds: int -> bool, indexing: SlotIndexing): (f: Frame)
    requires StartValid(shadows, dirData, otherData)
    ensures f.Valid()
    decreases |visible|
  {
    if |visible| == 0 then
      Frame(0, 0, dirData, otherData, [], shadows)
    else
      var last := |visible| - 1;
      StepLight(Aggregate(shadows, dirData, otherData, visible[..last], hasCasterBounds, indexing),
                visible[last], last, hasCasterBounds, indexing)
  }

  /** The index-map entry of light `i`, stated without the aggregator: the
      number of point/spot lights before it when it is a point/spot light
      that still fits, -1 otherwise. */
  function ExpectedIndex(visible: seq<VisibleLight>, i: int): int
    requires 0 <= i < |visible|
  {
    if KindOf(visible[i]) == OtherKind && Count(visible[..i], OtherKind) < MaxOtherLightCount
    then Count(visible[..i], OtherKind)
    else -1
  }

  /** The non-negative entries of an index map, in order. */
  function Compacted(m: seq<int>): seq<int> {
    if |m| == 0 then []
    else Compacted(m[..|m| - 1]) + (if m[|m| - 1] >= 0 then [m[|m| - 1]] else [])
  }

  /** 0, 1, ..., n-1. */
  function Range(n: nat): seq<int> {
    seq(n, k => k)
  }

  /** A frame's counts and index map agree with the independent
      description for the lights `visible`: each table takes the first
      lights of its kind up to its capacity, and entry i is
      ExpectedIndex(visible, i). */
  predicate IndexMapMatches(f: Frame, visible: seq<VisibleLight>) {
    && f.dirCount == Min(Count(visible, DirectionalKind), MaxDirLightCount)
    && f.otherCount == Min(Count(visible, OtherKind), MaxOtherLightCount)
    && |f.newIndices| == |visible|
    && (forall i :: 0 <= i < |visible| ==> f.newIndices[i] == ExpectedIndex(visible, i))
  }

  /** The counts and the index map the aggregator produces agree with the
      independent description. */
  lemma {:induction false} AggregateIndexMap(
    shadows: ShadowState, dirData: seq<ShadowData>, otherData: seq<ShadowData>,
    visible: seq<VisibleLight>, hasCasterBounds: int -> bool, indexing: SlotIndexing)
    requires StartValid(shadows, dirData, otherData)
    ensures IndexMapMatches(Aggregate(shadows, dirData, otherData, visible, hasCasterBounds, indexing), visible)
    decreases |visible|
  {
    if |visible| > 0 {
      var last := |visible| - 1;
      var prefix := visible[..last];
      var before := Aggregate(shadows, dirData, otherData, prefix, hasCasterBounds, indexing);
      AggregateIndexMap(shadows, dirData, otherData, prefix, hasCasterBounds, indexing);
      StepCounts(before, visible[last], last, hasCasterBounds, indexing);
      IndexMapStep(before, Aggregate(shadows, dirData, otherData, visible, hasCasterBounds, indexing), visible);
    }
  }

  lemma IndexMapStep(before: Frame, g: Frame, visible: seq<VisibleLight>)
    requires before.Valid() && g.Valid() && |visible| > 0
    requires IndexMapMatches(before, visible[..|visible| - 1])
    requires StepShape(before, g, visible[|visible| - 1])
    ensures IndexMapMatches(g, visible)
  {
    var last := |visible| - 1;
    var prefix := visible[..last];
    assert g.newIndices[last] == ExpectedIndex(visible, last);
    forall i | 0 <= i < last
      ensures g.newIndices[i] == ExpectedIndex(visible, i)
    {
      assert prefix[..i] == visible[..i];
      assert g.newIndices[i] == before.newIndices[i];
    }
  }

  /** Reading the non-negative entries of the index map in order gives
      exactly 0, 1, ..., otherCount-1: the point/spot table is dense. */
  lemma {:induction false} IndexMapCompaction(
    shadows: ShadowState, dirData: seq<ShadowData>, otherData: seq<ShadowData>,
    visible: seq<VisibleLight>, hasCasterBounds: int -> bool, indexing: SlotIndexing)
    requires StartValid(shadows, dirData, otherData)
    ensures var f := Aggregate(shadows, dirData, otherData, visible, hasCasterBounds, indexing);
            Compacted(f.newIndices) == Range(f.otherCount)
    decreases |visible|
  {
    if |visible| > 0 {
      var last := |visible| - 1;
      var before := Aggregate(shadows, dirData, otherData, visible[..last], hasCasterBounds, indexing);
      var f := Aggregate(shadows, dirData, otherData, visible, hasCasterBounds, indexing);
      IndexMapCompaction(shadows, dirData, otherData, visible[..last], hasCasterBounds, indexing);
      StepCounts(before, visible[last], last, hasCasterBounds, indexing);
      CompactedStep(before.newIndices, f.newIndices, before.otherCount, f.otherCount);
    }
  }

  /** Appending the next point/spot index, or -1, keeps the compacted map
      equal to a range. */
  lemma CompactedStep(prev: seq<int>, m: seq<int>, n: nat, next: nat)
    requires |m| == |prev| + 1 && m[..|prev|] == prev
    requires Compacted(prev) == Range(n)
    requires m[|prev|] >= 0 ==> m[|prev|] == n && next == n + 1
    requires m[|prev|] < 0 ==> next == n
    ensures Compacted(m) == Range(next)
  {
    assert m[..|m| - 1] == prev;
    if m[|prev|] >= 0 {
      assert Range(next) == Range(n) + [n];
    }
  }

  /** The shape of one aggregation step from `f` to `g` on light `v`: the
      light enters its table when there is room, and the index map grows by
      its point/spot index or -1. */
  predicate StepShape(f: Frame, g: Frame, v: VisibleLight)
    requires f.Valid() && g.Valid()
  {
    var takesDir := KindOf(v) == DirectionalKind && f.dirCount < MaxDirLightCount;
    var takesOther := KindOf(v) == OtherKind && f.otherCount < MaxOtherLightCount;
    && g.dirCount == (if takesDir then f.dirCount + 1 else f.dirCount)
    && g.otherCount == (if takesOther then f.otherCount + 1 else f.otherCount)
    && |g.newIndices| == |f.newIndices| + 1
    && g.newIndices[..|f.newIndices|] == f.newIndices
    && g.newIndices[|f.newIndices|] == (if takesOther then f.otherCount else -1)
    && (forall k :: 0 <= k < f.dirCount ==> g.dirShadowData[k] == f.dirShadowData[k])
    && (forall k :: 0 <= k < f.otherCount ==> g.otherShadowData[k] == f.otherShadowData[k])
  }

  lemma StepCounts(f: Frame, v: VisibleLight, visibleIndex: int, hasCasterBounds: int -> bool, indexing: SlotIndexing)
    requires f.Valid()
    ensures StepShape(f, StepLight(f, v, visibleIndex, hasCasterBounds, indexing), v)
  {
    var g := StepLight(f, v, visibleIndex, hasCasterBounds, indexing);
    assert g.newIndices[..|f.newIndices|] == f.newIndices;
  }

  /** Slots at and above the final counts keep what the previous frame left
      in the shader tables, and the packer's settings are not touched. */
  lemma {:induction false} AggregateLeavesRest(
    shadows: ShadowState, dirData: seq<ShadowData>, otherData: seq<ShadowData>,
    visible: seq<VisibleLight>, hasCasterBounds: int -> bool, indexing: SlotIndexing)
    requires StartValid(shadows, dirData, otherData)
    ensures var f := Aggregate(shadows, dirData, otherData, visible, hasCasterBounds, indexing);
            && (forall k :: f.dirCount <= k < MaxDirLightCount ==> f.dirShadowData[k] == dirData[k])
            && (forall k :: f.otherCount <= k < MaxOtherLightCount ==> f.otherShadowData[k] == otherData[k])
            && f.shadows.settings == shadows.settings
            && shadows.count <= f.shadows.count <= shadows.count + f.dirCount
    decreases |visible|
  {
    if |visible| > 0 {
      AggregateLeavesRest(shadows, dirData, otherData, visible[..|visible| - 1], hasCasterBounds, indexing);
    }
  }

  /** Directional slot k receives the descriptor the packer returns for the
      light that took slot k, in the packer state reached after the lights
      before it; the index handed over is the one `indexing` selects (the
      slot itself, as written). */
  lemma DirectionalHandoff(
    shadows: ShadowState, dirData: seq<ShadowData>, otherData: seq<ShadowData>,
    visible: seq<VisibleLight>, hasCasterBounds: int -> bool, indexing: SlotIndexing, i: int)
    requires StartValid(shadows, dirData, otherData)
    requires 0 <= i < |visible| && KindOf(visible[i]) == DirectionalKind
    requires Count(visible[..i], DirectionalKind) < MaxDirLightCount
    ensures var k := Count(visible[..i], DirectionalKind);
            var before := Aggregate(shadows, dirData, otherData, visible[..i], hasCasterBounds, indexing);
            Aggregate(shadows, dirData, otherData, visible, hasCasterBounds, indexing).dirShadowData[k]
              == ReserveDirectionalShadows(before.shadows, visible[i].light, ReservedIndex(indexing, k, i), hasCasterBounds).data
  {
    var upto := visible[..i + 1];
    assert upto[..i] == visible[..i];
    DirectionalHandoffAtLast(shadows, dirData, otherData, upto, hasCasterBounds, indexing);
    AggregateIndexMap(shadows, dirData, otherData, upto, hasCasterBounds, indexing);
    EntriesKept(shadows, dirData, otherData, visible, hasCasterBounds, indexing, i + 1);
  }

  lemma DirectionalHandoffAtLast(
    shadows: ShadowState, dirData: seq<ShadowData>, otherData: seq<ShadowData>,
    visible: seq<VisibleLight>, hasCasterBounds: int -> bool, indexing: SlotIndexing)
    requires StartValid(shadows, dirData, otherData)
    requires |visible| > 0 && KindOf(visible[|visible| - 1]) == DirectionalKind
    requires Count(visible[..|visible| - 1], DirectionalKind) < MaxDirLightCount
    ensures var last := |visible| - 1;
            var k := Count(visible[..last], DirectionalKind);
            var before := Aggregate(shadows, dirData, otherData, visible[..last], hasCasterBounds, indexing);
            Aggregate(shadows, dirData, otherData, visible, hasCasterBounds, indexing).dirShadowData[k]
              == ReserveDirectionalShadows(before.shadows, visible[last].light, ReservedIndex(indexing, k, last), hasCasterBounds).data
  {
    AggregateIndexMap(shadows, dirData, otherData, visible[..|visible| - 1], hasCasterBounds, indexing);
  }

  /** Point/spot slot k receives the descriptor ReserveOtherShadows returns
      for the light whose index-map entry is k, called with k itself. */
  lemma OtherHandoff(
    shadows: ShadowState, dirData: seq<ShadowData>, otherData: seq<ShadowData>,
    visible: seq<VisibleLight>, hasCasterBounds: int -> bool, indexing: SlotIndexing, i: int)
    requires StartValid(shadows, dirData, otherData)
    requires 0 <= i < |visible| && ExpectedIndex(visible, i) >= 0
    ensures var k := ExpectedIndex(visible, i);
            var before := Aggregate(shadows, dirData, otherData, visible[..i], hasCasterBounds, indexing);
            Aggregate(shadows, dirData, otherData, visible, hasCasterBounds, indexing).otherShadowData[k]
              == ReserveOtherShadows(before.shadows, visible[i].light, k).data
  {
    var upto := visible[..i + 1];
    assert upto[..i] == visible[..i];
    assert ExpectedIndex(upto, i) == ExpectedIndex(visible, i);
    OtherHandoffAtLast(shadows, dirData, otherData, upto, hasCasterBounds, indexing);
    AggregateIndexMap(shadows, dirData, otherData, upto, hasCasterBounds, indexing);
    EntriesKept(shadows, dirData, otherData, visible, hasCasterBounds, indexing, i + 1);
  }

  lemma OtherHandoffAtLast(
    shadows: ShadowState, dirData: seq<ShadowData>, otherData: seq<ShadowData>,
    visible: seq<VisibleLight>, hasCasterBounds: int -> bool, indexing: SlotIndexing)
    requires StartValid(shadows, dirData, otherData)
    requires |visible| > 0 && ExpectedIndex(visible, |visible| - 1) >= 0
    ensures var k := ExpectedIndex(visible, |visible| - 1);
            var before := Aggregate(shadows, dirData, otherData, visible[..|visible| - 1], hasCasterBounds, indexing);
            Aggregate(shadows, dirData, otherData, visible, hasCasterBounds, indexing).otherShadowData[k]
              == ReserveOtherShadows(before.shadows, visible[|visible| - 1].light, k).data
  {
    var prefix := visible[..|visible| - 1];
    AggregateIndexMap(shadows, dirData, otherData, prefix, hasCasterBounds, indexing);
  }

  /** `f` is a later frame than `early`: its counts are no smaller and
      the entries `early` filled are unchanged. */
  predicate Extends(early: Frame, f: Frame)
    requires early.Valid() && f.Valid()
  {
    && early.dirCount <= f.dirCount && early.otherCount <= f.otherCount
    && (forall k :: 0 <= k < early.dirCount ==> f.dirShadowData[k] == early.dirShadowData[k])
    && (forall k :: 0 <= k < early.otherCount ==> f.otherShadowData[k] == early.otherShadowData[k])
  }

  lemma ExtendsStep(early: Frame, before: Frame, g: Frame, v: VisibleLight)
    requires early.Valid() && before.Valid() && g.Valid()
    requires Extends(early, before) && StepShape(before, g, v)
    ensures Extends(early, g)
  {
  }

  /** Lights after the first j never overwrite a table entry the first j
      lights filled. */
  lemma {:induction false} EntriesKept(
    shadows: ShadowState, dirData: seq<ShadowData>, otherData: seq<ShadowData>,
    visible: seq<VisibleLight>, hasCasterBounds: int -> bool, indexing: SlotIndexing, j: int)
    requires StartValid(shadows, dirData, otherData) && 0 <= j <= |visible|
    ensures Extends(Aggregate(shadows, dirData, otherData, visible[..j], hasCasterBounds, indexing),
                    Aggregate(shadows, dirData, otherData, visible, hasCasterBounds, indexing))
    decreases |visible|
  {
    if j < |visible| {
      var last := |visible| - 1;
      var prefix := visible[..last];
      var before := Aggregate(shadows, dirData, otherData, prefix, hasCasterBounds, indexing);
      assert prefix[..j] == visible[..j];
      EntriesKept(shadows, dirData, otherData, prefix, hasCasterBounds, indexing, j);
      StepCounts(before, visible[last], last, hasCasterBounds, indexing);
      ExtendsStep(Aggregate(shadows, dirData, otherData, visible[..j], hasCasterBounds, indexing), before,
                  Aggregate(shadows, dirData, otherData, visible, hasCasterBounds, indexing), visible[last]);
    } else {
      assert visible[..j] == visible;
    }
  }

  /** Number of descriptors that carry a live shadow map. */
  function LiveCount(ds: seq<ShadowData>): nat {
    if |ds| == 0 then 0
    else LiveCount(ds[..|ds| - 1]) + (if ds[|ds| - 1].strength > 0.0 then 1 else 0)
  }

  /** The live directional descriptors of a frame are exactly the reserved
      ones, and they point at consecutive blocks of cascadeCount tiles in
      slot order: the j-th live one at tile cascadeCount * j. */
  predicate LivePacked(f: Frame, cascadeCount: int)
    requires f.Valid()
  {
    && f.shadows.count == LiveCount(f.dirShadowData[..f.dirCount])
    && forall k :: 0 <= k < f.dirCount ==> LiveAtItsBlock(f, k, cascadeCount)
  }

  predicate LiveAtItsBlock(f: Frame, k: int, cascadeCount: int)
    requires f.Valid() && 0 <= k < f.dirCount
  {
    f.dirShadowData[k].strength > 0.0 ==>
      f.dirShadowData[k].tileOffset == cascadeCount * LiveCount(f.dirShadowData[..k])
  }

  /** Starting from a reset packer, the directional descriptors stay packed. */
  lemma {:induction false} LiveDescriptorsPacked(
    shadows: ShadowState, dirData: seq<ShadowData>, otherData: seq<ShadowData>,
    visible: seq<VisibleLight>, hasCasterBounds: int -> bool, indexing: SlotIndexing)
    requires StartValid(shadows, dirData, otherData) && shadows.count == 0
    ensures LivePacked(Aggregate(shadows, dirData, otherData, visible, hasCasterBounds, indexing),
                       shadows.settings.directional.cascadeCount)
    decreases |visible|
  {
    var f := Aggregate(shadows, dirData, otherData, visible, hasCasterBounds, indexing);
    if |visible| == 0 {
      assert f.dirShadowData[..f.dirCount] == [];
    } else {
      var last := |visible| - 1;
      var before := Aggregate(shadows, dirData, otherData, visible[..last], hasCasterBounds, indexing);
      LiveDescriptorsPacked(shadows, dirData, otherData, visible[..last], hasCasterBounds, indexing);
      AggregateLeavesRest(shadows, dirData, otherData, visible[..last], hasCasterBounds, indexing);
      StepKeepsPacked(before, visible[last], last, hasCasterBounds, indexing);
    }
  }

  /** One aggregation step keeps the directional descriptors packed. */
  lemma StepKeepsPacked(
    before: Frame, v: VisibleLight, visibleIndex: int, hasCasterBounds: int -> bool, indexing: SlotIndexing)
    requires before.Valid() && LivePacked(before, before.shadows.settings.directional.cascadeCount)
    ensures LivePacked(StepLight(before, v, visibleIndex, hasCasterBounds, indexing),
                       before.shadows.settings.directional.cascadeCount)
  {
    var cascadeCount := before.shadows.settings.directional.cascadeCount;
    var f := StepLight(before, v, visibleIndex, hasCasterBounds, indexing);
    if KindOf(v) == DirectionalKind && before.dirCount < MaxDirLightCount {
      var r := ReserveDirectionalShadows(
                 before.shadows, v.light, ReservedIndex(indexing, before.dirCount, visibleIndex), hasCasterBounds);
      PackedAppend(before, f, r.data, cascadeCount);
    } else {
      assert f.shadows.count == before.shadows.count;
      assert f.dirShadowData == before.dirShadowData && f.dirCount == before.dirCount;
      forall k | 0 <= k < f.dirCount
        ensures LiveAtItsBlock(f, k, cascadeCount)
      {
        assert LiveAtItsBlock(before, k, cascadeCount);
      }
    }
  }

  /** Appending a descriptor that is live exactly when it took the next
      slot, and then points at the next block, keeps the table packed. */
  lemma PackedAppend(before: Frame, f: Frame, d: ShadowData, cascadeCount: int)
    requires before.Valid() && f.Valid() && LivePacked(before, cascadeCount)
    requires f.dirCount == before.dirCount + 1
    requires f.dirShadowData == before.dirShadowData[before.dirCount := d]
    requires f.shadows.count == before.shadows.count + (if d.strength > 0.0 then 1 else 0)
    requires d.strength > 0.0 ==> d.tileOffset == cascadeCount * before.shadows.count
    ensures LivePacked(f, cascadeCount)
  {
    assert f.dirShadowData[..f.dirCount] == before.dirShadowData[..before.dirCount] + [d];
    assert f.dirShadowData[..f.dirCount][..before.dirCount] == before.dirShadowData[..before.dirCount];
    forall k | 0 <= k < f.dirCount
      ensures LiveAtItsBlock(f, k, cascadeCount)
    {
      if k < before.dirCount {
        assert LiveAtItsBlock(before, k, cascadeCount);
        assert f.dirShadowData[..k] == before.dirShadowData[..k];
      } else {
        assert f.dirShadowData[..k] == before.dirShadowData[..before.dirCount];
      }
    }
  }

  /** `later` keeps every reservation `early` made: its count is no
      smaller and the slots below `early`'s count are unchanged. */
  predicate SlotsExtend(early: ShadowState, later: ShadowState)
    requires early.Valid() && later.Valid()
  {
    && early.count <= later.count
    && forall j :: 0 <= j < early.count ==> later.slots[j] == early.slots[j]
  }

  lemma StepKeepsSlots(
    f: Frame, v: VisibleLight, visibleIndex: int, hasCasterBounds: int -> bool, indexing: SlotIndexing)
    requires f.Valid()
    ensures SlotsExtend(f.shadows, StepLight(f, v, visibleIndex, hasCasterBounds, indexing).shadows)
  {
  }

  /** Lights after the first j never overwrite a reservation slot the
      first j lights took. */
  lemma {:induction false} SlotsKept(
    shadows: ShadowState, dirData: seq<ShadowData>, otherData: seq<ShadowData>,
    visible: seq<VisibleLight>, hasCasterBounds: int -> bool, indexing: SlotIndexing, j: int)
    requires StartValid(shadows, dirData, otherData) && 0 <= j <= |visible|
    ensures SlotsExtend(Aggregate(shadows, dirData, otherData, visible[..j], hasCasterBounds, indexing).shadows,
                        Aggregate(shadows, dirData, otherData, visible, hasCasterBounds, indexing).shadows)
    decreases |visible|
  {
    if j < |visible| {
      var last := |visible| - 1;
      var prefix := visible[..last];
      var before := Aggregate(shadows, dirData, otherData, prefix, hasCasterBounds, indexing);
      assert prefix[..j] == visible[..j];
      SlotsKept(shadows, dirData, otherData, prefix, hasCasterBounds, indexing, j);
      StepKeepsSlots(before, visible[last], last, hasCasterBounds, indexing);
    } else {
      assert visible[..j] == visible;
    }
  }

  /** A live directional descriptor leads back to its own light: its first
      tile is a whole number of cascade blocks, and the slot it names holds
      the record the packer stored for that light, with the index
      `indexing` hands over and the light's bias and near-plane offset. */
  lemma DescriptorNamesItsLight(
    shadows: ShadowState, dirData: seq<ShadowData>, otherData: seq<ShadowData>,
    visible: seq<VisibleLight>, hasCasterBounds: int -> bool, indexing: SlotIndexing, i: int)
    requires StartValid(shadows, dirData, otherData) && 1 <= shadows.settings.directional.cascadeCount
    requires 0 <= i < |visible| && KindOf(visible[i]) == DirectionalKind
    requires Count(visible[..i], DirectionalKind) < MaxDirLightCount
    ensures var cascadeCount := shadows.settings.directional.cascadeCount;
            var k := Count(visible[..i], DirectionalKind);
            var f := Aggregate(shadows, dirData, otherData, visible, hasCasterBounds, indexing);
            var d := f.dirShadowData[k];
            d.strength > 0.0 ==>
              var slot := d.tileOffset / cascadeCount;
              && d.tileOffset == cascadeCount * slot
              && shadows.count <= slot < f.shadows.count
              && f.shadows.slots[slot] == ShadowedDirectionalLight(
                   ReservedIndex(indexing, k, i), visible[i].light.shadowBias, visible[i].light.shadowNearPlane)
  {
    var cascadeCount := shadows.settings.directional.cascadeCount;
    var k := Count(visible[..i], DirectionalKind);
    var upto := visible[..i + 1];
    assert upto[..i] == visible[..i];
    var before := Aggregate(shadows, dirData, otherData, visible[..i], hasCasterBounds, indexing);
    AggregateIndexMap(shadows, dirData, otherData, visible[..i], hasCasterBounds, indexing);
    AggregateLeavesRest(shadows, dirData, otherData, visible[..i], hasCasterBounds, indexing);
    var r := ReserveDirectionalShadows(before.shadows, visible[i].light, ReservedIndex(indexing, k, i), hasCasterBounds);
    assert Aggregate(shadows, dirData, otherData, upto, hasCasterBounds, indexing).shadows == r.state;
    DirectionalHandoff(shadows, dirData, otherData, visible, hasCasterBounds, indexing, i);
    SlotsKept(shadows, dirData, otherData, visible, hasCasterBounds, indexing, i + 1);
    if r.data.strength > 0.0 {
      DivisibleByFactor(r.data.tileOffset, cascadeCount, before.shadows.count);
    }
  }

  /** What each reserved shadow slot records as its visible-light index:
      always an index the caster-bounds query accepted; as written a
      directional slot index, below the directional count; when the
      visible-light index is passed, a shadow-casting directional light of
      the frame. */
  predicate SlotsWellSourced(f: Frame, visible: seq<VisibleLight>, hasCasterBounds: int -> bool, indexing: SlotIndexing)
    requires f.Valid()
  {
    forall j :: 0 <= j < f.shadows.count ==> SlotWellSourced(f, j, visible, hasCasterBounds, indexing)
  }

  predicate SlotWellSourced(f: Frame, j: int, visible: seq<VisibleLight>, hasCasterBounds: int -> bool, indexing: SlotIndexing)
    requires f.Valid() && 0 <= j < f.shadows.count
  {
    var v := f.shadows.slots[j].visibleLightIndex;
    && hasCasterBounds(v)
    && (indexing == BySlot ==> 0 <= v < f.dirCount)
    && (indexing == ByVisibleIndex ==>
          0 <= v < |visible| && KindOf(visible[v]) == DirectionalKind && CastsShadows(visible[v].light))
  }

  /** Starting from a reset packer, every reserved slot is well sourced. */
  lemma {:induction false} SlotsRecordReservedIndex(
    shadows: ShadowState, dirData: seq<ShadowData>, otherData: seq<ShadowData>,
    visible: seq<VisibleLight>, hasCasterBounds: int -> bool, indexing: SlotIndexing)
    requires StartValid(shadows, dirData, otherData) && shadows.count == 0
    ensures SlotsWellSourced(Aggregate(shadows, dirData, otherData, visible, hasCasterBounds, indexing),
                             visible, hasCasterBounds, indexing)
    decreases |visible|
  {
    if |visible| > 0 {
      var last := |visible| - 1;
      var prefix := visible[..last];
      var before := Aggregate(shadows, dirData, otherData, prefix, hasCasterBounds, indexing);
      var f := Aggregate(shadows, dirData, otherData, visible, hasCasterBounds, indexing);
      SlotsRecordReservedIndex(shadows, dirData, otherData, prefix, hasCasterBounds, indexing);
      var grew := KindOf(visible[last]) == DirectionalKind && before.dirCount < MaxDirLightCount;
      var index := ReservedIndex(indexing, before.dirCount, last);
      var r := ReserveDirectionalShadows(before.shadows, visible[last].light, index, hasCasterBounds);
      if grew {
        assert f.shadows == r.state && f.dirCount == before.dirCount + 1;
      } else {
        assert f.shadows.count == before.shadows.count && f.shadows.slots == before.shadows.slots;
        assert f.dirCount == before.dirCount;
      }
      forall j | 0 <= j < f.shadows.count
        ensures SlotWellSourced(f, j, visible, hasCasterBounds, indexing)
      {
        if j < before.shadows.count {
          assert SlotWellSourced(before, j, prefix, hasCasterBounds, indexing);
          assert f.shadows.slots[j] == before.shadows.slots[j];
          var v := before.shadows.slots[j].visibleLightIndex;
          if indexing == ByVisibleIndex {
            assert visible[v] == prefix[v];
          }
        } else {
          assert grew && r.state.count == before.shadows.count + 1;
          assert f.shadows.slots[j].visibleLightIndex == index;
        }
      }
    }
  }

  /** The point/spot index map the engine receives, if any. */
  datatype IndexMap = NotUsed | IndexMap(entries: seq<int>)

  /** Everything light setup publishes for a frame. */
  datatype LightsResult = LightsResult(
    dirCount: int,
    otherCount: int,
    dirShadowData: seq<ShadowData>,
    otherShadowData: seq<ShadowData>,
    indexMap: IndexMap,
    lightsPerObjectKeyword: bool,
    shadows: ShadowState)

  /** Light setup as written.  `indexMapLength` is the length of the map
      the engine hands out (at least one entry per visible light); its old
      entries are all overwritten, so only the length is an input.  With
      per-object lights off no map is read or written. */
  function SetupLights(
    shadows: ShadowState, dirData: seq<ShadowData>, otherData: seq<ShadowData>,
    visible: seq<VisibleLight>, hasCasterBounds: int -> bool,
    useLightsPerObject: bool, indexMapLength: int): (r: LightsResult)
    requires StartValid(shadows, dirData, otherData)
    requires useLightsPerObject ==> indexMapLength >= |visible|
    ensures r.dirCount == Min(Count(visible, DirectionalKind), MaxDirLightCount)
    ensures r.otherCount == Min(Count(visible, OtherKind), MaxOtherLightCount)
    ensures |r.dirShadowData| == MaxDirLightCount && |r.otherShadowData| == MaxOtherLightCount
    ensures r.shadows.Valid() && r.shadows.settings == shadows.settings
    ensures r.lightsPerObjectKeyword == useLightsPerObject
    ensures !useLightsPerObject ==> r.indexMap == NotUsed
    ensures useLightsPerObject ==>
              && r.indexMap.IndexMap?
              && |r.indexMap.entries| == indexMapLength
              && (forall i :: 0 <= i < |visible| ==> r.indexMap.entries[i] == ExpectedIndex(visible, i))
              && (forall i :: |visible| <= i < indexMapLength ==> r.indexMap.entries[i] == -1)
              && Compacted(r.indexMap.entries) == Range(r.otherCount)
  {
    var f := Aggregate(shadows, dirData, otherData, visible, hasCasterBounds, BySlot);
    AggregateIndexMap(shadows, dirData, otherData, visible, hasCasterBounds, BySlot);
    AggregateLeavesRest(shadows, dirData, otherData, visible, hasCasterBounds, BySlot);
    var indexMap :=
      if useLightsPerObject then
        IndexMapCompaction(shadows, dirData, otherData, visible, hasCasterBounds, BySlot);
        IndexMap(Padded(f.newIndices, indexMapLength))
      else NotUsed;
    LightsResult(f.dirCount, f.otherCount, f.dirShadowData, f.otherShadowData,
                 indexMap, useLightsPerObject, f.shadows)
  }

  /** An index map filled up to `length` entries with -1: the given entries
      stay where they are and the padding adds nothing to the compacted map. */
  function Padded(m: seq<int>, length: int): (entries: seq<int>)
    requires |m| <= length
    ensures |entries| == length
    ensures forall i :: 0 <= i < |m| ==> entries[i] == m[i]
    ensures forall i :: |m| <= i < length ==> entries[i] == -1
    ensures Compacted(entries) == Compacted(m)
  {
    PaddingNotCompacted(m, length - |m|);
    m + seq(length - |m|, _ => -1)
  }

  /** Padding with -1 adds nothing to the compacted map. */
  lemma {:induction false} PaddingNotCompacted(m: seq<int>, n: int)
    requires 0 <= n
    ensures Compacted(m + seq(n, _ => -1)) == Compacted(m)
    decreases n
  {
    var padded := m + seq(n, _ => -1);
    if n == 0 {
      assert padded == m;
    } else {
      assert padded[..|padded| - 1] == m + seq(n - 1, _ => -1);
      assert padded[|padded| - 1] == -1;
      PaddingNotCompacted(m, n - 1);
    }
  }

  /** What one frame of lighting publishes. */
  datatype FrameOutput = FrameOutput(lights: LightsResult, render: RenderOutput)

  /** The lighting pass of a frame: reset the packer, set up the lights
      (which reserve shadows), then render the shadow atlas. */
  function Setup(
    prior: ShadowState, settings: ShadowSettings, dirData: seq<ShadowData>, otherData: seq<ShadowData>,
    visible: seq<VisibleLight>, hasCasterBounds: int -> bool,
    useLightsPerObject: bool, indexMapLength: int, mode: ShadowmaskMode): (out: FrameOutput)
    requires prior.Valid() && settings.directional.Valid()
    requires |dirData| == MaxDirLightCount && |otherData| == MaxOtherLightCount
    requires useLightsPerObject ==> indexMapLength >= |visible|
    ensures out.lights == SetupLights(Shadows.Setup(prior, settings), dirData, otherData, visible,
                                      hasCasterBounds, useLightsPerObject, indexMapLength)
    ensures out.render == Render(out.lights.shadows, mode)
    ensures out.lights.shadows.count <= out.lights.dirCount
  {
    var reset := Shadows.Setup(prior, settings);
    var lights := SetupLights(reset, dirData, otherData, visible, hasCasterBounds, useLightsPerObject, indexMapLength);
    AggregateLeavesRest(reset, dirData, otherData, visible, hasCasterBounds, BySlot);
    FrameOutput(lights, Render(lights.shadows, mode))
  }

  /** The shading stage finds a live directional light's shadow where it
      was drawn: in the frame's atlas, the pass of slot tileOffset /
      cascadeCount and cascade c draws tile tileOffset + c with that
      light's bias and near-plane offset, and is tagged with the index the
      light handed to the packer (its directional slot, as written). */
  lemma DescriptorSelectsItsPasses(
    prior: ShadowState, settings: ShadowSettings, dirData: seq<ShadowData>, otherData: seq<ShadowData>,
    visible: seq<VisibleLight>, hasCasterBounds: int -> bool,
    useLightsPerObject: bool, indexMapLength: int, mode: ShadowmaskMode, i: int, cascade: int)
    requires prior.Valid() && settings.directional.Valid()
    requires |dirData| == MaxDirLightCount && |otherData| == MaxOtherLightCount
    requires useLightsPerObject ==> indexMapLength >= |visible|
    requires 0 <= i < |visible| && KindOf(visible[i]) == DirectionalKind
    requires Count(visible[..i], DirectionalKind) < MaxDirLightCount
    requires 0 <= cascade < settings.directional.cascadeCount
    ensures var out := Setup(prior, settings, dirData, otherData, visible, hasCasterBounds,
                             useLightsPerObject, indexMapLength, mode);
            var k := Count(visible[..i], DirectionalKind);
            var d := out.lights.dirShadowData[k];
            d.strength > 0.0 ==>
              var slot := d.tileOffset / settings.directional.cascadeCount;
              && out.render.atlas.ShadowAtlas?
              && 0 <= slot < |out.render.atlas.draws|
              && cascade < |out.render.atlas.draws[slot]|
              && out.render.atlas.draws[slot][cascade].tileIndex == d.tileOffset + cascade
              && out.render.atlas.draws[slot][cascade].visibleLightIndex == ReservedIndex(BySlot, k, i)
              && out.render.atlas.draws[slot][cascade].slopeScaleBias == visible[i].light.shadowBias
              && out.render.atlas.draws[slot][cascade].nearPlaneOffset == visible[i].light.shadowNearPlane
  {
    var reset := Shadows.Setup(prior, settings);
    var f := Aggregate(reset, dirData, otherData, visible, hasCasterBounds, BySlot);
    var k := Count(visible[..i], DirectionalKind);
    AggregateLeavesRest(reset, dirData, otherData, visible, hasCasterBounds, BySlot);
    DescriptorNamesItsLight(reset, dirData, otherData, visible, hasCasterBounds, BySlot, i);
    var d := f.dirShadowData[k];
    if d.strength > 0.0 {
      var slot := d.tileOffset / settings.directional.cascadeCount;
      ReservedLightTiles(f.shadows, slot, cascade);
    }
  }

  /** Light i asks the packer for a baked shadow mask: it entered its
      table (a directional or point/spot light that still fitted), casts
      shadows, and is a mixed shadow-mask light. */
  predicate MaskAsker(visible: seq<VisibleLight>, i: int)
    requires 0 <= i < |visible|
  {
    && (|| (KindOf(visible[i]) == DirectionalKind && Count(visible[..i], DirectionalKind) < MaxDirLightCount)
        || (KindOf(visible[i]) == OtherKind && Count(visible[..i], OtherKind) < MaxOtherLightCount))
    && CastsShadows(visible[i].light)
    && UsesShadowmask(visible[i].light)
  }

  /** Starting from a reset packer, the mask flag is raised exactly when
      some light of the frame asked for a baked mask; a directional light
      always finds the reservation table with room, since no more slots are
      taken than directional lights entered. */
  lemma {:induction false} MaskFlagMeaning(
    shadows: ShadowState, dirData: seq<ShadowData>, otherData: seq<ShadowData>,
    visible: seq<VisibleLight>, hasCasterBounds: int -> bool, indexing: SlotIndexing)
    requires StartValid(shadows, dirData, otherData) && shadows.count == 0 && !shadows.useShadowMask
    ensures var f := Aggregate(shadows, dirData, otherData, visible, hasCasterBounds, indexing);
            && f.shadows.count <= f.dirCount
            && (f.shadows.useShadowMask <==> exists i :: 0 <= i < |visible| && MaskAsker(visible, i))
    decreases |visible|
  {
    if |visible| > 0 {
      var last := |visible| - 1;
      var prefix := visible[..last];
      var before := Aggregate(shadows, dirData, otherData, prefix, hasCasterBounds, indexing);
      MaskFlagMeaning(shadows, dirData, otherData, prefix, hasCasterBounds, indexing);
      AggregateIndexMap(shadows, dirData, otherData, prefix, hasCasterBounds, indexing);
      MaskStep(before, visible, hasCasterBounds, indexing);
      forall i | 0 <= i < last
        ensures MaskAsker(visible, i) == MaskAsker(prefix, i)
      {
        assert prefix[..i] == visible[..i];
      }
    }
  }

  /** One aggregation step raises the mask flag exactly for a light that
      asks for a baked mask, and takes a slot only with a directional entry. */
  lemma MaskStep(before: Frame, visible: seq<VisibleLight>, hasCasterBounds: int -> bool, indexing: SlotIndexing)
    requires before.Valid() && |visible| > 0 && before.shadows.count <= before.dirCount
    requires IndexMapMatches(before, visible[..|visible| - 1])
    ensures var last := |visible| - 1;
            var g := StepLight(before, visible[last], last, hasCasterBounds, indexing);
            && g.shadows.count <= g.dirCount
            && (g.shadows.useShadowMask <==> before.shadows.useShadowMask || MaskAsker(visible, last))
  {
  }

  /** The shadow-mask keyword of a frame follows its lights: one keyword
      of the group is enabled exactly when some light asked for a baked
      mask, and then the quality mode picks which. */
  lemma MaskKeywordFollowsLights(
    prior: ShadowState, settings: ShadowSettings, dirData: seq<ShadowData>, otherData: seq<ShadowData>,
    visible: seq<VisibleLight>, hasCasterBounds: int -> bool,
    useLightsPerObject: bool, indexMapLength: int, mode: ShadowmaskMode)
    requires prior.Valid() && settings.directional.Valid()
    requires |dirData| == MaxDirLightCount && |otherData| == MaxOtherLightCount
    requires useLightsPerObject ==> indexMapLength >= |visible|
    ensures var out := Setup(prior, settings, dirData, otherData, visible, hasCasterBounds,
                             useLightsPerObject, indexMapLength, mode);
            var asked := exists i :: 0 <= i < |visible| && MaskAsker(visible, i);
            && (EnabledCount(out.render.maskKeywords) == 1 <==> asked)
            && EnabledIndex(out.render.maskKeywords) == ShadowMaskKeywordIndex(asked, mode)
  {
    MaskFlagMeaning(Shadows.Setup(prior, settings), dirData, otherData, visible, hasCasterBounds, BySlot);
  }

  /** Two packer states that agree on everything a frame can observe: the
      settings, the counters, the mask flag and the reserved slots.  Slots
      above the count are left-overs and may differ. */
  predicate SameLive(a: ShadowState, b: ShadowState) {
    && a.Valid() && b.Valid()
    && a.settings == b.settings
    && a.count == b.count
    && a.useShadowMask == b.useShadowMask
    && a.slots[..a.count] == b.slots[..b.count]
  }

  lemma ReserveDirectionalAgrees(a: ShadowState, b: ShadowState, light: Light, index: int, hasCasterBounds: int -> bool)
    requires SameLive(a, b)
    ensures ReserveDirectionalShadows(a, light, index, hasCasterBounds).data
            == ReserveDirectionalShadows(b, light, index, hasCasterBounds).data
    ensures SameLive(ReserveDirectionalShadows(a, light, index, hasCasterBounds).state,
                     ReserveDirectionalShadows(b, light, index, hasCasterBounds).state)
  {
    var ra := ReserveDirectionalShadows(a, light, index, hasCasterBounds);
    var rb := ReserveDirectionalShadows(b, light, index, hasCasterBounds);
    if ra.state.count == a.count + 1 {
      assert ra.state.slots[..ra.state.count] == a.slots[..a.count] + [ra.state.slots[a.count]];
      assert rb.state.slots[..rb.state.count] == b.slots[..b.count] + [rb.state.slots[b.count]];
    }
  }

  /** Frames that differ only in left-over reservation slots. */
  predicate FramesAgree(fa: Frame, fb: Frame) {
    && fa.Valid() && fb.Valid()
    && fa.dirCount == fb.dirCount && fa.otherCount == fb.otherCount
    && fa.dirShadowData == fb.dirShadowData && fa.otherShadowData == fb.otherShadowData
    && fa.newIndices == fb.newIndices
    && SameLive(fa.shadows, fb.shadows)
  }

  lemma {:induction false} AggregateAgrees(
    a: ShadowState, b: ShadowState, dirData: seq<ShadowData>, otherData: seq<ShadowData>,
    visible: seq<VisibleLight>, hasCasterBounds: int -> bool, indexing: SlotIndexing)
    requires StartValid(a, dirData, otherData) && StartValid(b, dirData, otherData)
    requires SameLive(a, b)
    ensures FramesAgree(Aggregate(a, dirData, otherData, visible, hasCasterBounds, indexing),
                        Aggregate(b, dirData, otherData, visible, hasCasterBounds, indexing))
    decreases |visible|
  {
    if |visible| > 0 {
      var last := |visible| - 1;
      AggregateAgrees(a, b, dirData, otherData, visible[..last], hasCasterBounds, indexing);
      StepAgrees(Aggregate(a, dirData, otherData, visible[..last], hasCasterBounds, indexing),
                 Aggregate(b, dirData, otherData, visible[..last], hasCasterBounds, indexing),
                 visible[last], last, hasCasterBounds, indexing);
    }
  }

  lemma StepAgrees(
    fa: Frame, fb: Frame, v: VisibleLight, visibleIndex: int, hasCasterBounds: int -> bool, indexing: SlotIndexing)
    requires FramesAgree(fa, fb)
    ensures FramesAgree(StepLight(fa, v, visibleIndex, hasCasterBounds, indexing),
                        StepLight(fb, v, visibleIndex, hasCasterBounds, indexing))
  {
    if KindOf(v) == DirectionalKind && fa.dirCount < MaxDirLightCount {
      ReserveDirectionalAgrees(fa.shadows, fb.shadows, v.light,
                               ReservedIndex(indexing, fa.dirCount, visibleIndex), hasCasterBounds);
    }
  }

  lemma {:induction false} LightDrawsAgree(a: ShadowState, b: ShadowState, slot: int, cascades: int, split: int, tileSize: int)
    requires SameLive(a, b) && 0 <= slot < a.count
    requires 0 <= cascades <= a.settings.directional.cascadeCount
    requires 1 <= split && 0 <= tileSize
    ensures LightDraws(a, slot, cascades, split, tileSize) == LightDraws(b, slot, cascades, split, tileSize)
    decreases cascades
  {
    assert a.slots[slot] == a.slots[..a.count][slot] == b.slots[slot];
    if cascades > 0 {
      LightDrawsAgree(a, b, slot, cascades - 1, split, tileSize);
    }
  }

  /** The render pass reads only what SameLive compares. */
  lemma RenderAgrees(a: ShadowState, b: ShadowState, mode: ShadowmaskMode)
    requires SameLive(a, b) && a.settings.directional.Valid()
    ensures Render(a, mode) == Render(b, mode)
  {
    if a.count > 0 {
      var da, db := DirectionalAtlas(a), DirectionalAtlas(b);
      forall slot | 0 <= slot < a.count
        ensures da.draws[slot] == db.draws[slot]
      {
        LightDrawsAgree(a, b, slot, a.settings.directional.cascadeCount, da.split, da.tileSize);
      }
      assert da.draws == db.draws;
    }
  }

  /** No state leaks from one frame into the next: whatever reservation
      table and flags the previous frame left in the packer, a frame with
      the same inputs publishes the same descriptors, counts, index map and
      render pass. */
  lemma FrameIndependentOfPriorState(
    priorA: ShadowState, priorB: ShadowState, settings: ShadowSettings,
    dirData: seq<ShadowData>, otherData: seq<ShadowData>, visible: seq<VisibleLight>,
    hasCasterBounds: int -> bool, useLightsPerObject: bool, indexMapLength: int, mode: ShadowmaskMode)
    requires priorA.Valid() && priorB.Valid() && settings.directional.Valid()
    requires |dirData| == MaxDirLightCount && |otherData| == MaxOtherLightCount
    requires useLightsPerObject ==> indexMapLength >= |visible|
    ensures var outA := Setup(priorA, settings, dirData, otherData, visible, hasCasterBounds, useLightsPerObject, indexMapLength, mode);
            var outB := Setup(priorB, settings, dirData, otherData, visible, hasCasterBounds, useLightsPerObject, indexMapLength, mode);
            && outA.render == outB.render
            && outA.lights.dirCount == outB.lights.dirCount
            && outA.lights.otherCount == outB.lights.otherCount
            && outA.lights.dirShadowData == outB.lights.dirShadowData
            && outA.lights.otherShadowData == outB.lights.otherShadowData
            && outA.lights.indexMap == outB.lights.indexMap
            && SameLive(outA.lights.shadows, outB.lights.shadows)
  {
    var resetA, resetB := Shadows.Setup(priorA, settings), Shadows.Setup(priorB, settings);
    AggregateAgrees(resetA, resetB, dirData, otherData, visible, hasCasterBounds, BySlot);
    var fa := Aggregate(resetA, dirData, otherData, visible, hasCasterBounds, BySlot);
    AggregateLeavesRest(resetA, dirData, otherData, visible, hasCasterBounds, BySlot);
    RenderAgrees(fa.shadows, Aggregate(resetB, dirData, otherData, visible, hasCasterBounds, BySlot).shadows, mode);
  }

  /** The frame of the counterexample below: a point light, then a
      directional light, both casting hard shadows without a baked mask;
      only visible light 1 has shadow casters; the packer is freshly reset
      and the shader tables are empty. */
  const ExampleSun: Light := Light(HardShadows, 1.0, 0.05, 0.4, 0.2, Realtime, IndirectOnly, -1)
  const ExampleVisible: seq<VisibleLight> :=
    [VisibleLight(LightType.Point, ExampleSun), VisibleLight(LightType.Directional, ExampleSun)]
  predicate ExampleCasters(i: int) {
    i == 1
  }
  const ExampleEmptySlot: ShadowedDirectionalLight := ShadowedDirectionalLight(0, 0.0, 0.0)
  const ExampleReset: ShadowState :=
    ShadowState(Default(), 0, [ExampleEmptySlot, ExampleEmptySlot, ExampleEmptySlot, ExampleEmptySlot], false)
  const ExampleDirData: seq<ShadowData> := seq(MaxDirLightCount, _ => NoShadowData)
  const ExampleOtherData: seq<ShadowData> := seq(MaxOtherLightCount, _ => NoShadowData)

  /** The example frame aggregated with the given way of passing the index. */
  function ExampleFrame(indexing: SlotIndexing): Frame {
    Aggregate(ExampleReset, ExampleDirData, ExampleOtherData, ExampleVisible, ExampleCasters, indexing)
  }

  /** In the example frame, as written, the directional light is handed to
      the packer as index 0, the caster query is asked about the point
      light, and the directional light loses its shadow map; handing over
      its visible index reserves it. */
  lemma SlotIndexMisroutesCasterQuery()
    ensures var asWritten := ExampleFrame(BySlot);
            var intended := ExampleFrame(ByVisibleIndex);
            && asWritten.dirCount == 1 && asWritten.shadows.count == 0
            && asWritten.dirShadowData[0].strength == -1.0
            && intended.shadows.count == 1 && intended.shadows.slots[0].visibleLightIndex == 1
            && intended.dirShadowData[0].strength == 1.0
  {
    var visible := ExampleVisible;
    assert visible[..1][..0] == [] && visible[..2] == visible;
    forall indexing: SlotIndexing
      ensures var f1 := Aggregate(ExampleReset, ExampleDirData, ExampleOtherData, visible[..1], ExampleCasters, indexing);
              && f1.dirCount == 0 && f1.shadows == ExampleReset
              && ExampleFrame(indexing) == StepLight(f1, visible[1], 1, ExampleCasters, indexing)
    {
      var f0 := Aggregate(ExampleReset, ExampleDirData, ExampleOtherData, visible[..1][..0], ExampleCasters, indexing);
      assert f0.shadows == ExampleReset;
    }
    assert CastsShadows(ExampleSun);
    assert !ExampleCasters(0) && ExampleCasters(1);
  }

  /** With the visible-light index handed over, every reserved slot names a
      shadow-casting directional light of the frame whose caster query
      succeeded, so the depth passes render the right light. */
  lemma VisibleIndexSlotsNameDirectionalLights(
    shadows: ShadowState, dirData: seq<ShadowData>, otherData: seq<ShadowData>,
    visible: seq<VisibleLight>, hasCasterBounds: int -> bool, j: int)
    requires StartValid(shadows, dirData, otherData) && shadows.count == 0
    requires 0 <= j < Aggregate(shadows, dirData, otherData, visible, hasCasterBounds, ByVisibleIndex).shadows.count
    ensures var v := Aggregate(shadows, dirData, otherData, visible, hasCasterBounds, ByVisibleIndex).shadows.slots[j].visibleLightIndex;
            && 0 <= v < |visible|
            && KindOf(visible[v]) == DirectionalKind
            && CastsShadows(visible[v].light)
            && hasCasterBounds(v)
  {
    var f := Aggregate(shadows, dirData, otherData, visible, hasCasterBounds, ByVisibleIndex);
    SlotsRecordReservedIndex(shadows, dirData, otherData, visible, hasCasterBounds, ByVisibleIndex);
    assert SlotWellSourced(f, j, visible, hasCasterBounds, ByVisibleIndex);
  }
}
