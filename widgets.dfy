/** The parts of Qt's combo box and spin box behaviour the rule editor
    relies on, as values: a combo box is its items (display text plus an
    optional string datum) and its current index, -1 meaning no selection. */
module Widgets {
  import opened Wrappers

  /** One combo box entry; `data` is `None` for an item added without user
      data (an invalid `QVariant`). */
  datatype Item = Item(text: string, data: Option<string>)

  datatype ComboBox = ComboBox(items: seq<Item>, index: int)
  {
    /** Qt keeps the current index at -1 or on an existing item. */
    predicate Valid() {
      -1 <= index < |items|
    }

    /** `currentText()`: the selected item's text, or "" with no selection. */
    function CurrentText(): (t: string)
      requires Valid()
      ensures index == -1 ==> t == []
      ensures index >= 0 ==> t == items[index].text
    {
      if index < 0 then [] else items[index].text
    }

    /** `currentData().toString()`: the selected item's datum, "" when there
        is no selection or the item carries no datum. */
    function CurrentData(): (d: Option<string>)
      requires Valid()
      ensures d.Some? ==> index >= 0 && items[index].data == d
      ensures index >= 0 ==> d == items[index].data
    {
      if index < 0 then None else items[index].data
    }
  }

  /** `QComboBox()`: no items, no selection. */
  const EmptyBox := ComboBox([], -1)

  /** `clear()`: every item is removed and the selection with them. */
  function Clear(box: ComboBox): (r: ComboBox)
    ensures r.Valid() && |r.items| == 0
    ensures r.CurrentText() == [] && r.CurrentData() == None
  {
    ComboBox([], -1)
  }

  /** `addItem` / `addItems`: appends items at the end. A box that was
      empty selects its new first item; otherwise the selection is kept. */
  function AddItems(box: ComboBox, added: seq<Item>): (r: ComboBox)
    requires box.Valid()
    ensures r.Valid() && r.items == box.items + added
    ensures box.items != [] ==> r.index == box.index
    ensures box.items == [] ==> r.index == (if added == [] then -1 else 0)
  {
    ComboBox(box.items + added, if box.items == [] && added != [] then 0 else box.index)
  }

  /** Items for `addItems(QStringList)`: one per string, without data. */
  function PlainItems(texts: seq<string>): (r: seq<Item>)
    ensures |r| == |texts|
    ensures forall i :: 0 <= i < |texts| ==> r[i] == Item(texts[i], None)
  {
    seq(|texts|, i requires 0 <= i < |texts| => Item(texts[i], None))
  }

  /** `findText(text)` with Qt's default exact, case-sensitive matching:
      the first item showing `text`, or -1. */
  function FindText(items: seq<Item>, text: string): (k: int)
    ensures -1 <= k < |items|
    ensures k >= 0 ==> items[k].text == text && forall j :: 0 <= j < k ==> items[j].text != text
    ensures k == -1 <==> forall j :: 0 <= j < |items| ==> items[j].text != text
  {
    FindTextFrom(items, text, 0)
  }

  /** The first item at or after `from` showing `text`, or -1. */
  function FindTextFrom(items: seq<Item>, text: string, from: nat): (k: int)
    requires from <= |items|
    ensures -1 <= k < |items|
    ensures k >= 0 ==> from <= k && items[k].text == text && forall j :: from <= j < k ==> items[j].text != text
    ensures k == -1 <==> forall j :: from <= j < |items| ==> items[j].text != text
    decreases |items| - from
  {
    if from == |items| then -1
    else if items[from].text == text then from
    else FindTextFrom(items, text, from + 1)
  }

  /** The first item whose datum, read as a string ("" for none), is `id`. */
  function FindData(items: seq<Item>, id: string): (k: int)
    ensures -1 <= k < |items|
    ensures k >= 0 ==> items[k].data.GetOr([]) == id && forall j :: 0 <= j < k ==> items[j].data.GetOr([]) != id
    ensures k == -1 <==> forall j :: 0 <= j < |items| ==> items[j].data.GetOr([]) != id
  {
    FindDataFrom(items, id, 0)
  }

  /** The first item at or after `from` whose datum is `id`, or -1. */
  function FindDataFrom(items: seq<Item>, id: string, from: nat): (k: int)
    requires from <= |items|
    ensures -1 <= k < |items|
    ensures k >= 0 ==> from <= k && items[k].data.GetOr([]) == id && forall j :: from <= j < k ==> items[j].data.GetOr([]) != id
    ensures k == -1 <==> forall j :: from <= j < |items| ==> items[j].data.GetOr([]) != id
    decreases |items| - from
  {
    if from == |items| then -1
    else if items[from].data.GetOr([]) == id then from
    else FindDataFrom(items, id, from + 1)
  }

  /** `setCurrentIndex(i)`: selects item `i`; an index outside the items
      leaves no selection. */
  function SetCurrentIndex(box: ComboBox, i: int): (r: ComboBox)
    ensures r.Valid() && r.items == box.items
    ensures 0 <= i < |box.items| ==> r.index == i
    ensures !(0 <= i < |box.items|) ==> r.index == -1
    ensures 0 <= i < |box.items| ==> r.CurrentText() == box.items[i].text && r.CurrentData() == box.items[i].data
    ensures !(0 <= i < |box.items|) ==> r.CurrentText() == [] && r.CurrentData() == None
  {
    ComboBox(box.items, if 0 <= i < |box.items| then i else -1)
  }

  /** `setCurrentText(text)` on a non-editable box: selects the first item
      showing `text`; when none does the selection is kept. */
  function SetCurrentText(box: ComboBox, text: string): (r: ComboBox)
    requires box.Valid()
    ensures r.Valid() && r.items == box.items
    ensures (exists j :: 0 <= j < |box.items| && box.items[j].text == text) ==> r.CurrentText() == text
    ensures (forall j :: 0 <= j < |box.items| ==> box.items[j].text != text) ==> r == box
    ensures FindText(box.items, text) >= 0 ==> r.index == FindText(box.items, text)
  {
    var k := FindText(box.items, text);
    if k >= 0 then SetCurrentIndex(box, k) else box
  }

  /** The range the rule editor gives its seconds spin box. */
  const RevertMin := 0
  const RevertMax := 86400

  /** `QSpinBox::setValue`: values outside the range are pulled to the
      nearest bound. */
  function Clamp(v: int): (r: int)
    ensures RevertMin <= r <= RevertMax
    ensures RevertMin <= v <= RevertMax ==> r == v
    ensures v < RevertMin ==> r == RevertMin
    ensures v > RevertMax ==> r == RevertMax
  {
    if v < RevertMin then RevertMin else if v > RevertMax then RevertMax else v
  }
}
