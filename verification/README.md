# Directional shadow atlas and light aggregation of a custom render pipeline

This project is a Dafny model of the per-frame lighting core of a small Unity
scriptable render pipeline. It covers three parts:

- **Light aggregation** (`Lighting`). Each frame, the aggregator walks the culled visible lights in
  order. It puts at most 4 directional lights into the directional table and at most 64 point/spot
  lights into the other-light table, and asks the shadow packer for each light's shadow descriptor.
  When per-object lights are on, it also builds the map from visible-light index to compacted
  point/spot index.
- **Shadow packing and atlas layout** (`Shadows`, `AtlasTiling`). The packer reserves at most 4
  shadowed directional lights. It hands each one a block of `cascadeCount` tiles of a square atlas.
  The atlas is split 1x1, 2x2 or 4x4, and each (light, cascade) pair gets one tile, its
  viewport and its entry in the 16-entry shadow-matrix table.
- **Shader keyword selection** (`ShadowKeywords`) and **settings** (`Settings`). This covers the
  filter, cascade-blend and shadow-mask keyword groups, and the enums, editor ranges and defaults of
  the shadow settings.

Some inputs come from the engine. They are parameters of the model:

- The culling results' caster-bounds query is the oracle `hasCasterBounds: int -> bool`.
- The project-wide shadow-mask quality mode is `mode: ShadowmaskMode`.
- The engine's light-index map enters only through its length, `indexMapLength`, because every old
  entry is overwritten.
- The shader tables that persist between frames are the inputs `dirData`/`otherData`.
- The packer's reservation table is the input `prior`.

Floating-point fields are `real`. The render pass is a value: the atlas with its grid of depth
passes, plus the keyword commands of each group.

Module layout, one file each: `Settings.dfy`, `AtlasTiling.dfy`, `ShadowKeywords.dfy`,
`Shadows.dfy`, `Lighting.dfy`.

## Model

| member | source | states |
|---|---|---|
| Settings.TextureSizeValues | Assets/CustomRP/Runtime/ShadowSettings.cs:6-13 | every atlas size is one of 256..8192 and a power of two, and reading the enum back from its integer gives the same value |
| Settings.TextureSizeOf | Assets/CustomRP/Runtime/ShadowSettings.cs:6-13 | a recognised integer maps to the enum value that stands for it |
| Settings.TextureSizeOfOnlyRecognised | Assets/CustomRP/Runtime/ShadowSettings.cs:6-13 | an integer is an atlas-size value exactly when it is one of the six listed sizes |
| Settings.FilterKeywordIndex | Assets/CustomRP/Runtime/Shadows.cs:213 | the filter keyword index is in -1..2; it is -1 exactly for PCF2x2; distinct filters give distinct indices |
| Settings.BlendKeywordIndex | Assets/CustomRP/Runtime/Shadows.cs:214 | the blend keyword index is in -1..1; it is -1 exactly for Hard; distinct modes give distinct indices |
| Settings.Directional.CascadeRatios | Assets/CustomRP/Runtime/ShadowSettings.cs:38-39 | the ratio vector holds the three split ratios in order |
| Settings.Default | Assets/CustomRP/Runtime/ShadowSettings.cs:50-67 | the defaults lie inside every editor range: max distance 100, fade 0.1, 1024 atlases, 4 cascades with increasing ratios, and no filter or blend keyword |
| AtlasTiling.Split | Assets/CustomRP/Runtime/Shadows.cs:185-188 | the split is 1, 2 or 4; its square holds up to 16 tiles; it is the smallest such split |
| AtlasTiling.SplitCoversReservations | Assets/CustomRP/Runtime/Shadows.cs:185-188 | every frame the tables allow (at most 4 lights and 4 cascades) needs at most 16 tiles and fits in its split |
| AtlasTiling.TileIndexInjective | Assets/CustomRP/Runtime/Shadows.cs:232-246 | tile indices lie in the 16-entry matrix table; two (light, cascade) pairs share a tile index iff they are the same pair |
| AtlasTiling.TileOffset | Assets/CustomRP/Runtime/Shadows.cs:261-262 | a tile's grid position has its column below the split, gives the tile back row-major, and has its row below the split when the tile fits |
| AtlasTiling.TileOffsetRoundTrip | Assets/CustomRP/Runtime/Shadows.cs:261-262 | placing a tile and looking up the tile at a grid cell are inverse, in both directions |
| AtlasTiling.TileOffsetInjective | Assets/CustomRP/Runtime/Shadows.cs:261-262 | distinct tiles get distinct grid positions |
| AtlasTiling.TileSizeExact | Assets/CustomRP/Runtime/Shadows.cs:185-189 | each split divides every atlas size exactly, with tiles of at least 64 pixels |
| AtlasTiling.TileViewport | Assets/CustomRP/Runtime/Shadows.cs:261-265 | the viewport of a cell has the tile size and a non-negative origin on the tile grid; dividing the origin by the tile size gives back the cell's column and row |
| AtlasTiling.ViewportInsideAtlas | Assets/CustomRP/Runtime/Shadows.cs:261-265 | the viewport of a cell inside the grid lies inside the atlas |
| AtlasTiling.ViewportsDisjoint | Assets/CustomRP/Runtime/Shadows.cs:261-265 | viewports of different cells share no pixel |
| ShadowKeywords.SetKeywords | Assets/CustomRP/Runtime/Shadows.cs:315-325 | one command per keyword, in array order; keyword j is enabled iff j is the chosen index |
| ShadowKeywords.KeywordsExclusive | Assets/CustomRP/Runtime/Shadows.cs:315-325 | a group ends with exactly one keyword enabled for an in-range index and with none otherwise |
| ShadowKeywords.KeywordsRoundTrip | Assets/CustomRP/Runtime/Shadows.cs:315-325 | the chosen index can be read back from the commands (-1 for an out-of-range index) |
| ShadowKeywords.ShadowMaskKeywordIndex | Assets/CustomRP/Runtime/Shadows.cs:89-91 | with no mask there is no keyword; with a mask, "always" in Shadowmask mode and "distance" otherwise |
| Shadows.Setup | Assets/CustomRP/Runtime/Shadows.cs:65-73 | the frame reset stores the settings, zeroes the reservation count and clears the mask flag, but leaves the table |
| Shadows.MaskChannel | Assets/CustomRP/Runtime/Shadows.cs:116-124 | a light reports a mask channel only as a mixed shadow-mask light, and then reports its occlusion channel |
| Shadows.ReserveDirectionalShadows | Assets/CustomRP/Runtime/Shadows.cs:110-146 | with a full table or no shadows, nothing changes and the descriptor is (0,0,0,-1); a candidate reports its mask channel and may raise the mask flag; without casters it gets a negated strength and no slot; otherwise it takes the next slot with tile offset cascadeCount*count; the strength is positive iff a slot was taken |
| Shadows.ReserveOtherShadows | Assets/CustomRP/Runtime/Shadows.cs:149-165 | the descriptor is (strength,0,0,channel) iff the light casts shadows through a baked mask, and (0,0,0,-1) otherwise; only the mask flag of the state changes |
| Shadows.CascadeDraw | Assets/CustomRP/Runtime/Shadows.cs:227-259 | a cascade's depth pass uses the slot's light, bias and near plane, and tile slot*cascadeCount+cascade at its row-major cell and viewport; only slot 0 writes the cascade data |
| Shadows.LightDraws | Assets/CustomRP/Runtime/Shadows.cs:234-258 | a light's passes are its cascades in order |
| Shadows.DirectionalAtlas | Assets/CustomRP/Runtime/Shadows.cs:172-193 | the atlas has the configured size and a split that holds count*cascadeCount tiles and divides the size; it has one pass per reserved light and cascade |
| Shadows.Render | Assets/CustomRP/Runtime/Shadows.cs:76-94 | with no reservation it binds only the placeholder and leaves the filter and blend keywords alone; otherwise it lays out the atlas and toggles every filter and blend keyword, enabling exactly the one the settings select (none for PCF2x2 or hard blending); the mask group is always toggled, enabling exactly the keyword the mask flag and mode select, or none when no light used a mask |
| Shadows.DrawInsideAtlas | Assets/CustomRP/Runtime/Shadows.cs:246-265 | every pass writes inside the matrix table, the grid and the atlas |
| Shadows.DrawsDisjoint | Assets/CustomRP/Runtime/Shadows.cs:246-265 | passes of different (light, cascade) pairs use different tiles with non-overlapping viewports |
| Shadows.DrawsCoverTiles | Assets/CustomRP/Runtime/Shadows.cs:191-193 | every tile 0..count*cascadeCount-1 is drawn, by cascade t%cascadeCount of slot t/cascadeCount |
| Shadows.ReservedLightTiles | Assets/CustomRP/Runtime/Shadows.cs:232-246 | the pass of (slot, cascade) draws tile cascadeCount*slot+cascade: the light in slot s owns the block of cascadeCount tiles that starts at cascadeCount*s |
| Shadows.CascadeDataFromFirstLight | Assets/CustomRP/Runtime/Shadows.cs:242-244 | the cascade data is written by the passes of the first reserved light only |
| Lighting.StepLight | Assets/CustomRP/Runtime/Lighting.cs:65-93 | handling one visible light keeps the frame valid: at most 4 directional and at most 64 point/spot entries, full-size shader tables, and a valid packer state |
| Lighting.Aggregate | Assets/CustomRP/Runtime/Lighting.cs:62-94 | the frame after any list of visible lights is valid: at most 4 directional and at most 64 point/spot entries, full-size shader tables, and a valid packer state |
| Lighting.AggregateIndexMap | Assets/CustomRP/Runtime/Lighting.cs:62-94 | each table takes the first lights of its kind up to its capacity, and map entry i is the light's point/spot rank when it fits, else -1 |
| Lighting.IndexMapCompaction | Assets/CustomRP/Runtime/Lighting.cs:74-92 | the non-negative map entries, read in order, are exactly 0..otherCount-1 |
| Lighting.AggregateLeavesRest | Assets/CustomRP/Runtime/Lighting.cs:27-36 | table entries at and above the final counts keep the previous frame's values; the packer's settings are untouched |
| Lighting.EntriesKept | Assets/CustomRP/Runtime/Lighting.cs:64-94 | later lights never overwrite a table entry that earlier lights filled, and the counts only grow |
| Lighting.DirectionalHandoff | Assets/CustomRP/Runtime/Lighting.cs:133-143 | directional slot k holds the packer's answer for the light that took slot k, given the packer state after the lights before it |
| Lighting.SlotsKept | Assets/CustomRP/Runtime/Shadows.cs:132-142 | later lights never overwrite a reservation slot that earlier lights took, and the reservation count only grows |
| Lighting.DescriptorNamesItsLight | Assets/CustomRP/Runtime/Shadows.cs:132-142 | a live directional descriptor's tile offset is a whole number of cascade blocks, and the slot it names holds the record stored for that same light: its handed-over index, bias and near-plane offset |
| Lighting.OtherHandoff | Assets/CustomRP/Runtime/Lighting.cs:146-174 | point/spot slot k holds ReserveOtherShadows' answer for the light whose map entry is k |
| Lighting.LiveDescriptorsPacked | Assets/CustomRP/Runtime/Shadows.cs:138-142 | after a reset, the directional descriptors with positive strength are exactly the reserved lights, and the j-th of them points at tile cascadeCount*j |
| Lighting.SlotsRecordReservedIndex | Assets/CustomRP/Runtime/Lighting.cs:142 | each reserved slot records an index the caster query accepted: a directional slot number as written, or a shadow-casting directional visible light when the visible index is passed |
| Lighting.SetupLights | Assets/CustomRP/Runtime/Lighting.cs:58-107 | the counts are the capped numbers of directional and point/spot lights; the keyword follows the per-object flag; the map has its engine length, the expected entries, -1 padding, and compacts to 0..otherCount-1 |
| Lighting.Padded | Assets/CustomRP/Runtime/Lighting.cs:96-99 | the map keeps the per-light entries in place, fills the rest of the engine's length with -1, and compacts like the unpadded map |
| Lighting.PaddingNotCompacted | Assets/CustomRP/Runtime/Lighting.cs:96-99 | the -1 padding adds no entry to the compacted map |
| Lighting.Setup | Assets/CustomRP/Runtime/Lighting.cs:44-56 | a frame resets the packer, then sets up the lights, then renders from the resulting packer state; no more lights are reserved than entered the directional table |
| Lighting.DescriptorSelectsItsPasses | Assets/CustomRP/Runtime/Shadows.cs:227-254 | in a frame, the pass of cascade c of the slot a live directional descriptor names draws tile tileOffset+c with that light's bias and near plane, and is tagged with the index the light handed to the packer (its directional slot, as written) |
| Lighting.MaskFlagMeaning | Assets/CustomRP/Runtime/Shadows.cs:110-165 | from a reset packer, the mask flag is raised exactly when some light that entered its table casts shadows through a baked mask; no more slots are reserved than directional lights entered |
| Lighting.MaskKeywordFollowsLights | Assets/CustomRP/Runtime/Shadows.cs:65-94 | in a frame, one shadow-mask keyword is enabled exactly when some light asked for a baked mask, and the quality mode picks which |
| Lighting.ReserveDirectionalAgrees | Assets/CustomRP/Runtime/Shadows.cs:110-146 | a reservation depends on the live part of the packer state only |
| Lighting.AggregateAgrees | Assets/CustomRP/Runtime/Lighting.cs:64-94 | aggregation from packer states that agree on their live part yields the same tables and map, and states that again agree |
| Lighting.RenderAgrees | Assets/CustomRP/Runtime/Shadows.cs:76-94 | the render pass reads only the live part of the packer state |
| Lighting.FrameIndependentOfPriorState | Assets/CustomRP/Runtime/Lighting.cs:44-56 | whatever the previous frame left in the packer, the same inputs give the same descriptors, counts, index map and render pass |
| Lighting.SlotIndexMisroutesCasterQuery | Assets/CustomRP/Runtime/Lighting.cs:70 | a point light followed by a directional light with casters: as written, the caster query asks about index 0 and the directional light gets no shadow map; passing its visible index reserves it |
| Lighting.VisibleIndexSlotsNameDirectionalLights | Assets/CustomRP/Runtime/Lighting.cs:131 | with the visible index passed, every reserved slot names a shadow-casting directional light of the frame whose caster query succeeded |

## Left out

- Command-buffer and context calls, render-target allocation, and shader property ids are left out. Render returns a value instead of issuing these calls.
- Light colours, directions, positions, ranges and spot-angle attenuation in `SetupDirectionalLight`, `SetupPointLight` and `SetupSpotLight` are left out. They are floating-point transforms of engine data and do not feed the shadow logic.
- `ComputeDirectionalShadowMatricesAndCullingPrimitives`, `ConvertToAtlasMatrix`, `SetCascadeData` and the distance-fade vector are left out. They are floating-point matrix and sphere arithmetic on engine data. The model records which pass writes the cascade data, and with which ratios, near plane and bias.
- The shadow-matrix and culling-sphere arrays are modelled only through the tile index each pass writes.
- `Cleanup`, the pipeline asset, the camera renderer and the examples are outside the lighting core.
- The other-light atlas settings (`other`) are stored but never read by the code.
- The mask keyword's quality mode and the caster-bounds query are parameters, because they are engine state.
- Lighting.SetupLights: requires an index map of at least one entry per visible light. The engine's light-index map always has that length, and the code would write out of bounds otherwise.
- Shadows.Render and Lighting.Setup: require shadow settings inside their editor ranges (ShadowSettings.cs:33-35), in particular 1..4 cascades. Outside them the code misbehaves, and the model does not describe it: four lights with five cascades would write past the 16-entry shadow-matrix array (Shadows.cs:248).
- Shadows.Render: with no reservation, the filter and blend keyword groups are empty command lists. The code does not touch them, so they keep the previous frame's state.

## Findings

| source | as written | input that shows it | evidently intended | confidence | as-written member | corrected member |
|---|---|---|---|---|---|---|
| Assets/CustomRP/Runtime/Lighting.cs:70 | a directional light's slot number in the directional table is passed to `ReserveDirectionalShadows`, which uses it as a visible-light index for the caster query and the depth pass | visible lights [point, directional with shadows]; only visible light 1 has casters | the visible-light index `i` is passed, as the parameter name `visibleLightIndex` (Shadows.cs:111) and the comment at Lighting.cs:131 say | medium, not executed | Lighting.SlotIndexMisroutesCasterQuery | Lighting.VisibleIndexSlotsNameDirectionalLights |

The two differ only when a non-directional light comes before a directional one in the visible list. `SetupLights` and `Setup` follow the code as written (`BySlot`). Every fold lemma (`AggregateIndexMap`, `IndexMapCompaction`, `DirectionalHandoff`, `DescriptorNamesItsLight`, `LiveDescriptorsPacked`, `SlotsRecordReservedIndex`, `AggregateAgrees`) is proved for both ways of passing the index.
