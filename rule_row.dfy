/** One rule row of the settings editor (src/ui/rule_row.cpp): an enabled
    check box, a source-scene box whose first item is the "Any" sentinel, a
    reward box, a target-scene box and a seconds spin box. The translated
    label of the sentinel is a parameter (`anyLabel`); its datum is always
    "Any". */
module RuleRows {
  import opened Wrappers
  import opened Rules
  import opened Widgets

  /** The sentinel's datum and the scene name a rule uses for "any scene". */
  const AnyScene := "Any"

  /** The first item of a rebuilt source-scene box. */
  function Sentinel(anyLabel: string): Item {
    Item(anyLabel, Some(AnyScene))
  }

  /** The reward box items for `rewards`: the title shown, the id carried. */
  function RewardItems(rewards: seq<RewardInfo>): (r: seq<Item>)
    ensures |r| == |rewards|
    ensures forall i :: 0 <= i < |rewards| ==> r[i] == Item(rewards[i].title, Some(rewards[i].id))
  {
    seq(|rewards|, i requires 0 <= i < |rewards| => Item(rewards[i].title, Some(rewards[i].id)))
  }

  /** What a source-scene box names: "Any" while the sentinel (or any item
      carrying the datum "Any") is selected, otherwise the selected text. */
  function SceneOf(box: ComboBox): (s: string)
    requires box.Valid()
    ensures box.CurrentData() == Some(AnyScene) ==> s == AnyScene
    ensures box.CurrentData() != Some(AnyScene) ==> s == box.CurrentText()
    ensures box.index == -1 ==> s == []
  {
    if box.CurrentData() == Some(AnyScene) then AnyScene else box.CurrentText()
  }

  /** Everything a row shows, as one value: the check box, the three boxes,
      the spin box value and the cached rewards. */
  datatype RowState = RowState(enabled: bool, source: ComboBox, reward: ComboBox, target: ComboBox,
                               revert: int, rewards: seq<RewardInfo>)

  /** The row `setSceneList` leaves behind: both scene boxes rebuilt from
      `scenes`, each selecting again what it named before (see
      `SceneListRebuilds`). */
  function WithSceneList(st: RowState, scenes: seq<string>, anyLabel: string): (r: RowState)
    requires st.source.Valid() && st.target.Valid()
    ensures r.source.Valid() && r.target.Valid()
  {
    st.(source := RebuiltSource(SceneOf(st.source), scenes, anyLabel),
        target := RebuiltTarget(st.target.CurrentText(), scenes))
  }

  /** After `setSceneList` the source box holds the sentinel and the scenes
      and the target box the scenes; a scene either box named before and
      the new list still shows is named again; nothing else changes. */
  lemma SceneListRebuilds(st: RowState, scenes: seq<string>, anyLabel: string)
    requires st.source.Valid() && st.target.Valid()
    ensures var r := WithSceneList(st, scenes, anyLabel);
      r.source.items == [Sentinel(anyLabel)] + PlainItems(scenes) && r.target.items == PlainItems(scenes)
    ensures var r := WithSceneList(st, scenes, anyLabel); var prev := SceneOf(st.source);
      prev != [] && prev in scenes && prev != anyLabel ==> SceneOf(r.source) == prev
    ensures var r := WithSceneList(st, scenes, anyLabel); var prev := st.target.CurrentText();
      prev != [] && prev in scenes ==> r.target.CurrentText() == prev
    ensures var r := WithSceneList(st, scenes, anyLabel);
      r.enabled == st.enabled && r.reward == st.reward && r.revert == st.revert && r.rewards == st.rewards
  {
    SourceRestored(SceneOf(st.source), scenes, anyLabel);
    TargetRestored(st.target.CurrentText(), scenes);
  }

  /** The row `setRewardList` leaves behind: the rewards stored and the
      reward box rebuilt from them, on the first reward; nothing else
      changes. */
  function WithRewardList(st: RowState, rewards: seq<RewardInfo>): (r: RowState)
    ensures r.rewards == rewards && r.reward.items == RewardItems(rewards)
    ensures r.reward.index == if rewards == [] then -1 else 0
    ensures r.enabled == st.enabled && r.source == st.source && r.target == st.target && r.revert == st.revert
  {
    st.(reward := ComboBox(RewardItems(rewards), if rewards == [] then -1 else 0), rewards := rewards)
  }

  class RuleRow {
    var enabledChecked: bool
    var sourceBox: ComboBox
    var rewardBox: ComboBox
    var targetBox: ComboBox
    var revertValue: int
    var rewardList: seq<RewardInfo>

    /** Every box keeps its index on an item or at -1, and the spin box
        value stays in its range. */
    predicate Valid()
      reads this
    {
      sourceBox.Valid() && rewardBox.Valid() && targetBox.Valid() && RevertMin <= revertValue <= RevertMax
    }

    /** A new row: enabled, empty boxes, 10 seconds. */
    constructor ()
      ensures Valid()
      ensures enabledChecked && revertValue == 10
      ensures sourceBox == EmptyBox && rewardBox == EmptyBox && targetBox == EmptyBox && rewardList == []
    {
      enabledChecked := true;
      sourceBox := EmptyBox;
      rewardBox := EmptyBox;
      targetBox := EmptyBox;
      revertValue := Clamp(10);
      rewardList := [];
    }

    /** The row's current state as one value. */
    function State(): RowState
      reads this
    {
      RowState(enabledChecked, sourceBox, rewardBox, targetBox, revertValue, rewardList)
    }

    /** `currentScene()`: the scene the source box names; the sentinel (any
        item carrying the datum "Any") reads as "Any", nothing selected as "". */
    function CurrentScene(): (s: string)
      requires Valid()
      reads this
      ensures sourceBox.CurrentData() == Some(AnyScene) ==> s == AnyScene
      ensures sourceBox.CurrentData() != Some(AnyScene) ==> s == sourceBox.CurrentText()
      ensures sourceBox.index == -1 ==> s == []
    {
      SceneOf(sourceBox)
    }

    /** `rewardId()` (and `getSelectedRewardId()`, which reads the same
        datum): the selected reward's id, "" when nothing is selected. */
    function RewardId(): (id: string)
      requires Valid()
      reads this
      ensures rewardBox.index == -1 ==> id == []
      ensures rewardBox.index >= 0 ==> id == rewardBox.items[rewardBox.index].data.GetOr([])
    {
      rewardBox.CurrentData().GetOr([])
    }

    /** `targetScene()`: the selected target's text. */
    function TargetScene(): (s: string)
      requires Valid()
      reads this
      ensures targetBox.index == -1 ==> s == []
      ensures targetBox.index >= 0 ==> s == targetBox.items[targetBox.index].text
    {
      targetBox.CurrentText()
    }

    /** `rule()`: the row read back as a rule; the title is never filled
        in, and the seconds are the spin box's, always within its range. */
    function Rule(): (r: RewardRule)
      requires Valid()
      reads this
      ensures r.sourceScene == CurrentScene() && r.rewardId == RewardId() && r.targetScene == TargetScene()
      ensures r.rewardTitle == [] && r.enabled == enabledChecked
      ensures r.revertSeconds == revertValue && RevertMin <= r.revertSeconds <= RevertMax
    {
      RewardRule(CurrentScene(), RewardId(), [], TargetScene(), revertValue, enabledChecked)
    }

    /** `setSceneList`: rebuilds the source box as the sentinel followed by
        the scenes and the target box as the scenes alone, then restores the
        earlier selections (see `WithSceneList`). */
    method SetSceneList(scenes: seq<string>, anyLabel: string)
      requires Valid()
      modifies this
      ensures Valid()
      ensures State() == WithSceneList(old(State()), scenes, anyLabel)
    {
      var currentSourceScene := CurrentScene();
      var currentTargetScene := TargetScene();
      var source := RebuildSourceBox(sourceBox, currentSourceScene, scenes, anyLabel);
      var target := RebuildTargetBox(targetBox, currentTargetScene, scenes);
      sourceBox, targetBox := source, target;
    }

    /** `setRewardList`: stores the rewards and rebuilds the reward box with
        one item per reward, in order; the first reward ends up selected. */
    method SetRewardList(rewards: seq<RewardInfo>)
      requires Valid()
      modifies this
      ensures Valid()
      ensures State() == WithRewardList(old(State()), rewards)
      ensures rewardList == rewards
      ensures rewardBox.items == RewardItems(rewards)
      ensures rewardBox.index == if rewards == [] then -1 else 0
      ensures enabledChecked == old(enabledChecked) && sourceBox == old(sourceBox)
      ensures targetBox == old(targetBox) && revertValue == old(revertValue)
    {
      rewardList := rewards;
      rewardBox := Clear(rewardBox);
      var i := 0;
      while i < |rewards|
        invariant 0 <= i <= |rewards|
        invariant rewardBox.Valid() && rewardBox.items == RewardItems(rewards[..i])
        invariant rewardBox.index == if i == 0 then -1 else 0
        invariant rewardList == rewards && sourceBox == old(sourceBox) && targetBox == old(targetBox)
        invariant enabledChecked == old(enabledChecked) && revertValue == old(revertValue)
      {
        rewardBox := AddItems(rewardBox, [Item(rewards[i].title, Some(rewards[i].id))]);
        assert RewardItems(rewards[..i + 1]) == RewardItems(rewards[..i]) + [Item(rewards[i].title, Some(rewards[i].id))];
        i := i + 1;
      }
      assert rewards[..i] == rewards;
    }

    /** `setRule`: shows `rule` in the row. An empty or "Any" source selects
        the sentinel; the first reward item carrying the rule's id is
        selected, and with none the reward selection is kept; the target is
        selected by text, and the seconds are pulled into range. */
    method SetRule(rule: RewardRule)
      requires Valid()
      modifies this
      ensures Valid()
      ensures enabledChecked == rule.enabled && revertValue == Clamp(rule.revertSeconds)
      ensures rule.sourceScene == [] || rule.sourceScene == AnyScene ==>
        sourceBox == SetCurrentIndex(old(sourceBox), 0)
      ensures !(rule.sourceScene == [] || rule.sourceScene == AnyScene) ==>
        sourceBox == SetCurrentText(old(sourceBox), rule.sourceScene)
      ensures rewardBox.items == old(rewardBox.items)
      ensures (var k := FindData(old(rewardBox.items), rule.rewardId);
               rewardBox.index == if k >= 0 then k else old(rewardBox.index))
      ensures targetBox == SetCurrentText(old(targetBox), rule.targetScene)
      ensures rewardList == old(rewardList)
      ensures ((rule.sourceScene == [] || rule.sourceScene == AnyScene) && old(sourceBox.items) != []
               && old(sourceBox.items[0].data) == Some(AnyScene)) ==> CurrentScene() == AnyScene
      ensures (exists j :: 0 <= j < |rewardBox.items| && rewardBox.items[j].data.GetOr([]) == rule.rewardId) ==>
        RewardId() == rule.rewardId
      ensures (exists j :: 0 <= j < |targetBox.items| && targetBox.items[j].text == rule.targetScene) ==>
        TargetScene() == rule.targetScene
    {
      var source := if rule.sourceScene == [] || rule.sourceScene == AnyScene
        then SetCurrentIndex(sourceBox, 0)
        else SetCurrentText(sourceBox, rule.sourceScene);
      var reward := SelectByData(rewardBox, rule.rewardId);
      var target := SetCurrentText(targetBox, rule.targetScene);
      enabledChecked, sourceBox, rewardBox, targetBox := rule.enabled, source, reward, target;
      revertValue := Clamp(rule.revertSeconds);
    }
  }

  /** The reward loop of `setRule`: selects the first item whose datum is
      `id`; with no such item the selection is kept. */
  method SelectByData(box: ComboBox, id: string) returns (r: ComboBox)
    requires box.Valid()
    ensures r.Valid() && r.items == box.items
    ensures (var k := FindData(box.items, id); r.index == if k >= 0 then k else box.index)
    ensures (exists j :: 0 <= j < |box.items| && box.items[j].data.GetOr([]) == id) ==>
      r.CurrentData().GetOr([]) == id
  {
    r := box;
    var i := 0;
    while i < |box.items|
      invariant 0 <= i <= |box.items|
      invariant r == box
      invariant forall j :: 0 <= j < i ==> box.items[j].data.GetOr([]) != id
    {
      if box.items[i].data.GetOr([]) == id {
        r := SetCurrentIndex(box, i);
        break;
      }
      i := i + 1;
    }
  }

  /** The source box `setSceneList` leaves behind when the row named `prev`
      before: the sentinel followed by the scenes, with "Any" and nothing
      both back on the sentinel, and a named scene looked up by text; when
      the list no longer shows it, the box is on its first item. A scene the
      list still shows is named again. */
  function RebuiltSource(prev: string, scenes: seq<string>, anyLabel: string): (box: ComboBox)
    ensures box.Valid() && box.items == [Sentinel(anyLabel)] + PlainItems(scenes)
    ensures prev == AnyScene || prev == [] || FindText(box.items, prev) < 0 ==> box.index == 0
  {
    var items := [Sentinel(anyLabel)] + PlainItems(scenes);
    var k := FindText(items, prev);
    ComboBox(items, if prev == AnyScene || prev == [] || k < 0 then 0 else k)
  }

  /** The target box `setSceneList` leaves behind when the row showed
      `prev` before: the scenes, with `prev` selected again when still
      listed, and otherwise the first item (or nothing for no scenes). */
  function RebuiltTarget(prev: string, scenes: seq<string>): (box: ComboBox)
    ensures box.Valid() && box.items == PlainItems(scenes)
    ensures prev == [] || FindText(box.items, prev) < 0 ==> box.index == (if scenes == [] then -1 else 0)
  {
    var items := PlainItems(scenes);
    var k := FindText(items, prev);
    ComboBox(items, if prev != [] && k >= 0 then k else if scenes == [] then -1 else 0)
  }

  /** The source half of `setSceneList`, step by step: the box is cleared,
      refilled with the sentinel and the scenes, and its earlier scene
      `prev` selected again. */
  method RebuildSourceBox(box: ComboBox, prev: string, scenes: seq<string>, anyLabel: string)
    returns (source: ComboBox)
    ensures source == RebuiltSource(prev, scenes, anyLabel)
  {
    source := Clear(box);
    source := AddItems(source, [Sentinel(anyLabel)]);
    source := AddItems(source, PlainItems(scenes));
    assert source.items == [Sentinel(anyLabel)] + PlainItems(scenes) && source.index == 0;
    if prev == AnyScene {
      source := SetCurrentIndex(source, 0);
    } else if prev != [] {
      var index := FindText(source.items, prev);
      if index >= 0 {
        source := SetCurrentIndex(source, index);
      }
    }
  }

  /** The target half of `setSceneList`, step by step: the box is refilled
      with the scenes and its earlier text `prev` selected again when still
      listed. */
  method RebuildTargetBox(box: ComboBox, prev: string, scenes: seq<string>) returns (target: ComboBox)
    ensures target == RebuiltTarget(prev, scenes)
  {
    target := Clear(box);
    target := AddItems(target, PlainItems(scenes));
    assert target.items == PlainItems(scenes) && target.index == (if scenes == [] then -1 else 0);
    if prev != [] {
      var index := FindText(target.items, prev);
      if index >= 0 {
        target := SetCurrentIndex(target, index);
      }
    }
  }

  /** A source scene that the rebuilt list still shows, and that is not
      spelled like the sentinel's label, is what the rebuilt box names
      again ("Any" included, through the sentinel). */
  lemma SourceRestored(prev: string, scenes: seq<string>, anyLabel: string)
    ensures prev != [] && prev in scenes && prev != anyLabel ==>
      SceneOf(RebuiltSource(prev, scenes, anyLabel)) == prev
  {
    var box := RebuiltSource(prev, scenes, anyLabel);
    if prev != [] && prev in scenes && prev != anyLabel && prev != AnyScene {
      var i :| 0 <= i < |scenes| && scenes[i] == prev;
      assert box.items[i + 1].text == prev;
      var k := FindText(box.items, prev);
      assert k >= 1;
      assert box.items[k] == Item(prev, None);
    }
  }

  /** A target scene that the rebuilt list still shows is selected again. */
  lemma TargetRestored(prev: string, scenes: seq<string>)
    ensures prev != [] && prev in scenes ==> RebuiltTarget(prev, scenes).CurrentText() == prev
  {
    if prev != [] && prev in scenes {
      var i :| 0 <= i < |scenes| && scenes[i] == prev;
      assert RebuiltTarget(prev, scenes).items[i].text == prev;
    }
  }
}
