/** Shader variant selection: each keyword group is toggled so that at most
    one keyword of the group, the one at the chosen index, is enabled. */
module ShadowKeywords {

  datatype KeywordCommand = Enable(name: string) | Disable(name: string)

  const DirectionalFilterKeywords: seq<string> :=
    ["_DIRECTIONAL_PCF3", "_DIRECTIONAL_PCF5", "_DIRECTIONAL_PCF7"]
  const CascadeBlendKeywords: seq<string> :=
    ["_CASCADE_BLEND_SOFT", "_CASCADE_BLEND_DITHER"]
  const ShadowMaskKeywords: seq<string> :=
    ["_SHADOW_MASK_ALWAYS", "_SHADOW_MASK_DISTANCE"]

  /** The commands issued for one keyword group, one per keyword in array
      order: keyword j is enabled exactly when j is `enabledIndex`. */
  function SetKeywords(keywords: seq<string>, enabledIndex: int): (cmds: seq<KeywordCommand>)
    ensures |cmds| == |keywords|
    ensures forall j :: 0 <= j < |cmds| ==> cmds[j].name == keywords[j]
    ensures forall j :: 0 <= j < |cmds| ==> (cmds[j].Enable? <==> j == enabledIndex)
    decreases |keywords|
  {
    if |keywords| == 0 then []
    else
      var last := |keywords| - 1;
      SetKeywords(keywords[..last], enabledIndex)
        + [if last == enabledIndex then Enable(keywords[last]) else Disable(keywords[last])]
  }

  /** `cmds` toggles the group `keywords` in array order and enables
      exactly the keyword at `enabledIndex`. */
  predicate Selects(cmds: seq<KeywordCommand>, keywords: seq<string>, enabledIndex: int) {
    && |cmds| == |keywords|
    && (forall j :: 0 <= j < |cmds| ==> cmds[j].name == keywords[j])
    && (forall j :: 0 <= j < |cmds| ==> (cmds[j].Enable? <==> j == enabledIndex))
  }

  /** How many commands of a batch enable their keyword. */
  function EnabledCount(cmds: seq<KeywordCommand>): nat {
    if |cmds| == 0 then 0
    else EnabledCount(cmds[..|cmds| - 1]) + (if cmds[|cmds| - 1].Enable? then 1 else 0)
  }

  /** The position of the first enabling command, or -1 when there is none;
      reads back the index a batch was generated from. */
  function EnabledIndex(cmds: seq<KeywordCommand>): int {
    if |cmds| == 0 then -1
    else if cmds[0].Enable? then 0
    else
      var rest := EnabledIndex(cmds[1..]);
      if rest == -1 then -1 else rest + 1
  }

  /** A group ends with exactly one keyword enabled when the index is in
      range and with none otherwise (in particular for -1). */
  lemma {:induction false} KeywordsExclusive(keywords: seq<string>, enabledIndex: int)
    ensures EnabledCount(SetKeywords(keywords, enabledIndex))
            == (if 0 <= enabledIndex < |keywords| then 1 else 0)
    decreases |keywords|
  {
    if |keywords| > 0 {
      var last := |keywords| - 1;
      var cmds := SetKeywords(keywords, enabledIndex);
      assert cmds[..last] == SetKeywords(keywords[..last], enabledIndex);
      KeywordsExclusive(keywords[..last], enabledIndex);
    }
  }

  /** The index can be read back from the commands: SetKeywords loses no
      information about an in-range index and maps every other index to the
      all-disabled batch. */
  lemma {:induction false} KeywordsRoundTrip(keywords: seq<string>, enabledIndex: int)
    ensures EnabledIndex(SetKeywords(keywords, enabledIndex))
            == (if 0 <= enabledIndex < |keywords| then enabledIndex else -1)
    decreases |keywords|
  {
    var cmds := SetKeywords(keywords, enabledIndex);
    if |keywords| > 0 && enabledIndex != 0 {
      var tail := SetKeywords(keywords[1..], enabledIndex - 1);
      assert cmds[1..] == tail;
      KeywordsRoundTrip(keywords[1..], enabledIndex - 1);
    }
  }

  /** The project-wide shadow-mask quality mode. */
  datatype ShadowmaskMode = Shadowmask | DistanceShadowmask

  /** Index of the shadow-mask keyword: none when no light used a baked
      mask this frame, "always" in Shadowmask quality mode and "distance"
      in the other mode. */
  function ShadowMaskKeywordIndex(useShadowMask: bool, mode: ShadowmaskMode): (k: int)
    ensures -1 <= k < |ShadowMaskKeywords|
    ensures k == -1 <==> !useShadowMask
    ensures k == 0 <==> useShadowMask && mode == Shadowmask
  {
    if useShadowMask then (if mode == Shadowmask then 0 else 1) else -1
  }
}
