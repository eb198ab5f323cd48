/** The settings window's rule list (src/ui/settings_window.cpp): the rule
    rows in screen order (a removed row may leave no null behind, but the
    list may hold null entries, which every pass skips), the cached scene
    and reward lists pushed into the rows, and the map `saveRules` builds. */
module Settings {
  import opened Wrappers
  import opened Text
  import opened Rules
  import opened Widgets
  import opened RuleRows

  /** `QVector::removeOne`: drops the first element equal to `x`, if any,
      keeping the order of the others. */
  function RemoveOne<T(==)>(s: seq<T>, x: T): (r: seq<T>)
    ensures x !in s ==> r == s
    ensures x in s ==> |r| == |s| - 1
  {
    if x in s then s[..FirstIndex(s, x)] + s[FirstIndex(s, x) + 1..] else s
  }

  /** `removeOne` removes exactly one copy of a present element. */
  lemma RemoveOneCount<T>(s: seq<T>, x: T)
    ensures multiset(RemoveOne(s, x)) == if x in s then multiset(s) - multiset{x} else multiset(s)
  {
    if x in s {
      var k := FirstIndex(s, x);
      assert s == s[..k] + [x] + s[k + 1..];
    }
  }

  /** `removeOne` keeps, in order, everything before the first copy of `x`
      and everything after it: element `i` of the result is element `i` of
      the list before that copy and element `i + 1` after it. */
  lemma RemoveOneKeepsOrder<T>(s: seq<T>, x: T, i: nat)
    requires x in s && i < |s| - 1
    ensures RemoveOne(s, x)[i] == if i < FirstIndex(s, x) then s[i] else s[i + 1]
  {
  }

  /** The entry a row contributes to the saved map: none for a null row or
      one whose reward id or target scene is empty, otherwise its rule under
      its reward id. */
  function RowEntry(row: RuleRow?): (e: Option<(string, RewardRule)>)
    requires row != null ==> row.Valid()
    reads row
    ensures e.Some? <==> row != null && row.RewardId() != [] && row.TargetScene() != []
    ensures e.Some? ==> e.value == (row.RewardId(), row.Rule())
  {
    if row == null then None
    else if row.RewardId() == [] || row.Rule().targetScene == [] then None
    else Some((row.RewardId(), row.Rule()))
  }

  /** Every non-null row keeps its boxes and spin box consistent. */
  ghost predicate RowsValid(rows: seq<RuleRow?>)
    reads rows
  {
    forall i :: 0 <= i < |rows| && rows[i] != null ==> rows[i].Valid()
  }

  /** No row object appears twice in the list. */
  predicate RowsDistinct(rows: seq<RuleRow?>) {
    forall i, j :: 0 <= i < j < |rows| && rows[i] != null ==> rows[i] != rows[j]
  }

  /** The entries of all rows, in row order. */
  function RowEntries(rows: seq<RuleRow?>): (es: seq<Option<(string, RewardRule)>>)
    requires RowsValid(rows)
    reads rows
    ensures |es| == |rows|
    ensures forall i :: 0 <= i < |rows| ==> es[i] == RowEntry(rows[i])
  {
    seq(|rows|, i requires 0 <= i < |rows| && RowsValid(rows) reads rows => RowEntry(rows[i]))
  }

  class SettingsWindow {
    var ruleRows: seq<RuleRow?>
    var sceneList: seq<string>
    var rewardList: seq<RewardInfo>

    /** Every row on screen is consistent, and each appears once. */
    ghost predicate Valid()
      reads this, ruleRows
    {
      RowsValid(ruleRows) && RowsDistinct(ruleRows)
    }

    /** The window opens with no rows and the lists it was handed. */
    constructor (scenes: seq<string>, rewards: seq<RewardInfo>)
      ensures Valid() && ruleRows == [] && sceneList == scenes && rewardList == rewards
    {
      ruleRows := [];
      sceneList := scenes;
      rewardList := rewards;
    }

    /** `setSceneList`: stores the list and rebuilds every non-null row's
        scene boxes from it, each row selecting again what it showed before;
        nothing else in the rows changes. */
    method SetSceneList(scenes: seq<string>, anyLabel: string)
      requires Valid()
      modifies this, ruleRows
      ensures Valid() && sceneList == scenes
      ensures ruleRows == old(ruleRows) && rewardList == old(rewardList)
      ensures forall i :: 0 <= i < |ruleRows| && ruleRows[i] != null ==>
        ruleRows[i].State() == WithSceneList(old(ruleRows[i].State()), scenes, anyLabel)
    {
      sceneList := scenes;
      var i := 0;
      while i < |ruleRows|
        invariant 0 <= i <= |ruleRows|
        invariant ruleRows == old(ruleRows) && sceneList == scenes && rewardList == old(rewardList)
        invariant Valid()
        invariant forall j {:trigger ruleRows[j].State()} :: 0 <= j < i && ruleRows[j] != null ==>
          ruleRows[j].State() == WithSceneList(old(ruleRows[j].State()), scenes, anyLabel)
        invariant forall j :: i <= j < |ruleRows| && ruleRows[j] != null ==> unchanged(ruleRows[j])
      {
        var row := ruleRows[i];
        if row != null {
          row.SetSceneList(scenes, anyLabel);
        }
        i := i + 1;
      }
    }

    /** `setRewardList`: stores the list and rebuilds every non-null row's
        reward box from it, each row ending on the first reward; nothing
        else in the rows changes. */
    method SetRewardList(rewards: seq<RewardInfo>)
      requires Valid()
      modifies this, ruleRows
      ensures Valid() && rewardList == rewards
      ensures ruleRows == old(ruleRows) && sceneList == old(sceneList)
      ensures forall i :: 0 <= i < |ruleRows| && ruleRows[i] != null ==>
        ruleRows[i].State() == WithRewardList(old(ruleRows[i].State()), rewards)
    {
      rewardList := rewards;
      var i := 0;
      while i < |ruleRows|
        invariant 0 <= i <= |ruleRows|
        invariant ruleRows == old(ruleRows) && rewardList == rewards && sceneList == old(sceneList)
        invariant Valid()
        invariant forall j {:trigger ruleRows[j].State()} :: 0 <= j < i && ruleRows[j] != null ==>
          ruleRows[j].State() == WithRewardList(old(ruleRows[j].State()), rewards)
        invariant forall j :: i <= j < |ruleRows| && ruleRows[j] != null ==> unchanged(ruleRows[j])
      {
        var row := ruleRows[i];
        if row != null {
          row.SetRewardList(rewards);
        }
        i := i + 1;
      }
    }

    /** `addRuleRow`: appends one new row, filled with the cached lists
        when they are non-empty, so that it starts on the sentinel, the
        first scene and the first reward; the earlier rows stay where they
        were. */
    method AddRuleRow(anyLabel: string) returns (row: RuleRow)
      requires Valid()
      modifies this
      ensures Valid() && fresh(row)
      ensures ruleRows == old(ruleRows) + [row]
      ensures sceneList == old(sceneList) && rewardList == old(rewardList)
      ensures row.enabledChecked && row.revertValue == 10
      ensures sceneList != [] ==> row.sourceBox.items == [Sentinel(anyLabel)] + PlainItems(sceneList)
      ensures sceneList != [] ==> row.targetBox.items == PlainItems(sceneList)
      ensures sceneList == [] ==> row.sourceBox == EmptyBox && row.targetBox == EmptyBox
      ensures row.sourceBox.index == (if sceneList != [] then 0 else -1)
      ensures row.targetBox.index == (if sceneList != [] then 0 else -1)
      ensures rewardList != [] ==> row.rewardBox.items == RewardItems(rewardList)
      ensures rewardList == [] ==> row.rewardBox == EmptyBox
      ensures row.rewardBox.index == (if rewardList != [] then 0 else -1)
      ensures row.rewardList == rewardList
    {
      row := new RuleRow();
      if sceneList != [] {
        row.SetSceneList(sceneList, anyLabel);
      }
      if rewardList != [] {
        row.SetRewardList(rewardList);
      }
      ruleRows := ruleRows + [row];
    }

    /** `removeRuleRow`: a null row changes nothing; otherwise the first
        occurrence of the row leaves the list and the others keep their
        order. */
    method RemoveRuleRow(row: RuleRow?)
      requires Valid()
      modifies this
      ensures Valid()
      ensures row == null ==> ruleRows == old(ruleRows)
      ensures row != null ==> ruleRows == RemoveOne(old(ruleRows), row)
      ensures sceneList == old(sceneList) && rewardList == old(rewardList)
    {
      if row == null {
        return;
      }
      ruleRows := RemoveOne(ruleRows, row);
      forall i | 0 <= i < |ruleRows| && ruleRows[i] != null ensures ruleRows[i].Valid() {
        assert ruleRows[i] in old(ruleRows);
      }
      if row in old(ruleRows) {
        forall i, j | 0 <= i < j < |ruleRows| && ruleRows[i] != null ensures ruleRows[i] != ruleRows[j] {
          RemoveOneKeepsOrder(old(ruleRows), row, i);
          RemoveOneKeepsOrder(old(ruleRows), row, j);
        }
      }
    }

    /** `saveRules`: the map handed to the controller, built row by row;
        a later row with the same reward id replaces an earlier one. */
    method SaveRules() returns (saved: map<string, RewardRule>)
      requires Valid()
      ensures saved == Collect(RowEntries(ruleRows))
    {
      saved := map[];
      var i := 0;
      while i < |ruleRows|
        invariant 0 <= i <= |ruleRows|
        invariant saved == Collect(RowEntries(ruleRows[..i]))
      {
        var row := ruleRows[i];
        SavedStep(ruleRows, i);
        i := i + 1;
        if row == null {
          continue;
        }
        var rewardId := row.RewardId();
        var rule := row.Rule();
        if rewardId == [] || rule.targetScene == [] {
          continue;
        }
        saved := saved[rewardId := rule];
      }
      assert ruleRows[..i] == ruleRows;
    }
  }

  /** Visiting one more row extends the saved map by that row's entry. */
  lemma SavedStep(rows: seq<RuleRow?>, i: nat)
    requires RowsValid(rows) && i < |rows|
    ensures RowsValid(rows[..i]) && RowsValid(rows[..i + 1])
    ensures Collect(RowEntries(rows[..i + 1])) ==
      match RowEntry(rows[i]) case None => Collect(RowEntries(rows[..i])) case Some(kv) => Collect(RowEntries(rows[..i]))[kv.0 := kv.1]
  {
    assert RowsValid(rows[..i]) && RowsValid(rows[..i + 1]) by {
      forall j | 0 <= j < i + 1 ensures rows[..i + 1][j] == rows[j] {}
    }
    assert RowEntries(rows[..i + 1]) == RowEntries(rows[..i]) + [RowEntry(rows[i])];
    CollectSnoc(RowEntries(rows[..i]), RowEntry(rows[i]));
  }

  /** The saved map's keys are exactly the reward ids of the eligible rows. */
  lemma SavedKeys(rows: seq<RuleRow?>, id: string)
    requires RowsValid(rows)
    ensures id in Collect(RowEntries(rows)) <==>
      exists i :: 0 <= i < |rows| && rows[i] != null && rows[i].RewardId() == id && id != [] && rows[i].TargetScene() != []
  {
    var es := RowEntries(rows);
    CollectKeys(es, id);
    if id in Collect(es) {
      var i :| HasKeyAt(es, i, id);
      assert rows[i] != null && rows[i].RewardId() == id;
    } else {
      forall i | 0 <= i < |rows| && rows[i] != null && rows[i].RewardId() == id && id != []
        ensures rows[i].TargetScene() == []
      {
        assert !HasKeyAt(es, i, id);
      }
    }
  }

  /** Each eligible row's rule is saved under its reward id unless a later
      eligible row carries the same id; so the last such row wins. */
  lemma SavedLastWins(rows: seq<RuleRow?>, i: nat)
    requires RowsValid(rows)
    requires i < |rows| && rows[i] != null && rows[i].RewardId() != [] && rows[i].TargetScene() != []
    requires forall j :: i < j < |rows| && rows[j] != null && rows[j].TargetScene() != [] ==>
      rows[j].RewardId() != rows[i].RewardId()
    ensures rows[i].RewardId() in Collect(RowEntries(rows))
    ensures Collect(RowEntries(rows))[rows[i].RewardId()] == rows[i].Rule()
  {
    var es := RowEntries(rows);
    forall j | i < j < |es| ensures !HasKeyAt(es, j, rows[i].RewardId()) {
    }
    CollectLastWins(es, i, rows[i].RewardId(), rows[i].Rule());
  }
}
