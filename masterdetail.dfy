/**
 * The master/detail item list: a view model holding the outline items, the
 * item being edited and whether the detail view adds or edits, and the
 * rules by which it takes the detail view's responses.
 */
module MasterDetail {
  import opened Wrappers
  import opened Kinds
  import opened Nodes

  /** `IdentifiedTMType`: an outline node with a stable identifier. */
  datatype IdentifiedNode = IdentifiedNode(id: string, node: Node)
  {
    /** `update(_:)`: the node is replaced; the identifier stays. */
    function Update(newItem: Node): (r: IdentifiedNode)
      ensures r.id == id && r.node == newItem
    {
      this.(node := newItem)
    }

    /** `duplicate(with:)`: a new value with the same identifier and the given node. */
    function Duplicate(newItem: Node): (r: IdentifiedNode)
      ensures r.id == id && r.node == newItem
      ensures r.Update(node) == this
    {
      IdentifiedNode(id, newItem)
    }
  }

  /** `DetailMode`. */
  datatype DetailMode = Add | Edit
  {
    /** `isEditing`: the detail view edits exactly when it is not adding. */
    function IsEditing(): (r: bool)
      ensures r <==> this != Add
    {
      this == Edit
    }
  }

  /** `DetailResponseType`: how the detail view was left, with its item. */
  datatype DetailResponseType = Canceled(item: IdentifiedNode) | Deleted(item: IdentifiedNode) | Save(item: IdentifiedNode)

  /** `firstIndex(where: { $0.id == id })`. */
  function FirstIndexWithId(items: seq<IdentifiedNode>, id: string): (r: Option<nat>)
    ensures r.None? <==> forall j :: 0 <= j < |items| ==> items[j].id != id
    ensures r.Some? ==>
      r.value < |items| && items[r.value].id == id && forall j :: 0 <= j < r.value ==> items[j].id != id
    decreases |items|
  {
    if items == [] then None
    else if items[0].id == id then Some(0)
    else
      var rest := FirstIndexWithId(items[1..], id);
      if rest.None? then None else Some(rest.value + 1)
  }

  /** The list without the item at `index`. */
  function RemovedAt(items: seq<IdentifiedNode>, index: nat): (r: seq<IdentifiedNode>)
    requires index < |items|
    ensures |r| == |items| - 1
    ensures forall j :: 0 <= j < index ==> r[j] == items[j]
    ensures forall j :: index <= j < |r| ==> r[j] == items[j + 1]
  {
    items[..index] + items[index + 1..]
  }

  /** The items after `process(_:)` takes `response` in `mode`, before the clean-up. */
  function ProcessedItems(items: seq<IdentifiedNode>, mode: DetailMode, response: DetailResponseType): seq<IdentifiedNode> {
    var index := FirstIndexWithId(items, response.item.id);
    match response
    case Canceled(_) =>
      if mode == Add && index.Some? then RemovedAt(items, index.value) else items
    case Deleted(_) =>
      if index.Some? then RemovedAt(items, index.value) else items
    case Save(model) =>
      if index.Some? then items[index.value := model] else items
  }

  /** The view model of the master/detail view. */
  class ViewModel {
    var selectedItem: Option<IdentifiedNode>
    var responseType: Option<DetailResponseType>
    var detailMode: DetailMode
    var items: seq<IdentifiedNode>

    constructor(selectedItem: Option<IdentifiedNode>, responseType: Option<DetailResponseType>,
                detailMode: DetailMode, items: seq<IdentifiedNode>)
      ensures this.selectedItem == selectedItem && this.responseType == responseType
      ensures this.detailMode == detailMode && this.items == items
    {
      this.selectedItem := selectedItem;
      this.responseType := responseType;
      this.detailMode := detailMode;
      this.items := items;
    }

    /**
     * `addItem(from:)`: appends a text item at level 0 holding `text`, or
     * nothing, and selects it.  The identifier is the fresh one `UUID()`
     * would give.
     */
    method AddItem(text: Option<string>, id: string)
      modifies this
      ensures items == old(items) + [IdentifiedNode(id, Leaf(0, Text(if text.Some? then text.value else "")))]
      ensures selectedItem == Some(items[|items| - 1])
      ensures detailMode == old(detailMode) && responseType == old(responseType)
    {
      var newItem := IdentifiedNode(id, Leaf(0, Text(if text.Some? then text.value else "")));
      items := items + [newItem];
      selectedItem := Some(newItem);
    }

    /** `select(item:)`: the detail view edits `item`. */
    method Select(item: IdentifiedNode)
      modifies this
      ensures detailMode == Edit && selectedItem == Some(item)
      ensures items == old(items) && responseType == old(responseType)
    {
      detailMode := Edit;
      selectedItem := Some(item);
    }

    /**
     * `process(_:)`: no response changes nothing; any response updates the
     * items by its kind and then, as the `defer` does, clears the selection
     * and returns to adding.
     */
    method Process(response: Option<DetailResponseType>)
      modifies this
      ensures response.None? ==>
        items == old(items) && selectedItem == old(selectedItem) && detailMode == old(detailMode)
      ensures response.Some? ==>
        items == ProcessedItems(old(items), old(detailMode), response.value) &&
        selectedItem == None && detailMode == Add
      ensures responseType == old(responseType)
    {
      if response.None? {
        return;
      }
      var index := FirstIndexWithId(items, response.value.item.id);
      match response.value {
        case Canceled(_) =>
          if detailMode == Add && index.Some? {
            items := items[..index.value] + items[index.value + 1..];
          }
        case Deleted(_) =>
          if index.Some? {
            items := items[..index.value] + items[index.value + 1..];
          }
        case Save(model) =>
          if index.Some? {
            items := items[index.value := model];
          }
      }
      selectedItem := None;
      detailMode := Add;
    }
  }

  // ---------------------------------------------------------------------
  // What a response does to the items
  // ---------------------------------------------------------------------

  /** Cancelling a listed item keeps it while editing and removes an item while adding. */
  lemma CancelRemovesOnlyWhileAdding(items: seq<IdentifiedNode>, response: DetailResponseType)
    requires response.Canceled? && FirstIndexWithId(items, response.item.id).Some?
    ensures ProcessedItems(items, Edit, response) == items
    ensures ProcessedItems(items, Add, response) != items
  {
  }

  /** No response changes the items when no item has its identifier. */
  lemma UnknownIdKeeps(items: seq<IdentifiedNode>, mode: DetailMode, response: DetailResponseType)
    requires forall j :: 0 <= j < |items| ==> items[j].id != response.item.id
    ensures ProcessedItems(items, mode, response) == items
  {
  }

  /**
   * Removing by identifier drops the first item with it and nothing else:
   * one fewer item, the same items before it and after it, in order.
   */
  lemma RemovesFirstWithId(items: seq<IdentifiedNode>, mode: DetailMode, response: DetailResponseType)
    requires response.Deleted? || (response.Canceled? && mode == Add)
    requires FirstIndexWithId(items, response.item.id).Some?
    ensures var i := FirstIndexWithId(items, response.item.id).value;
      var r := ProcessedItems(items, mode, response);
      items[i].id == response.item.id &&
      (forall j :: 0 <= j < i ==> items[j].id != response.item.id) &&
      r == items[..i] + items[i + 1..] &&
      multiset(r) + multiset{items[i]} == multiset(items)
  {
    var i := FirstIndexWithId(items, response.item.id).value;
    assert items == items[..i] + [items[i]] + items[i + 1..];
  }

  /** Saving replaces the first item with the identifier at its place, keeping the length. */
  lemma SaveReplacesInPlace(items: seq<IdentifiedNode>, mode: DetailMode, model: IdentifiedNode)
    ensures |ProcessedItems(items, mode, Save(model))| == |items|
    ensures forall j :: 0 <= j < |items| ==>
      ProcessedItems(items, mode, Save(model))[j] ==
        if Some(j) == FirstIndexWithId(items, model.id) then model else items[j]
  {
  }

  /** After a save of a listed identifier, the saved item is what the list holds under it first. */
  lemma SaveThenFind(items: seq<IdentifiedNode>, mode: DetailMode, model: IdentifiedNode)
    requires FirstIndexWithId(items, model.id).Some?
    ensures var r := ProcessedItems(items, mode, Save(model));
      FirstIndexWithId(r, model.id) == FirstIndexWithId(items, model.id) &&
      r[FirstIndexWithId(items, model.id).value] == model
  {
    var i := FirstIndexWithId(items, model.id).value;
    var r := ProcessedItems(items, mode, Save(model));
    assert forall j :: 0 <= j < i ==> r[j] == items[j];
  }

  /** An added item is found again by its identifier when no earlier item has it. */
  lemma AddedIsFound(items: seq<IdentifiedNode>, item: IdentifiedNode)
    requires forall j :: 0 <= j < |items| ==> items[j].id != item.id
    ensures FirstIndexWithId(items + [item], item.id) == Some(|items|)
  {
    var r := FirstIndexWithId(items + [item], item.id);
    assert (items + [item])[|items|].id == item.id;
  }

  /** Adding an item and cancelling it while adding gives the list back. */
  lemma AddThenCancel(items: seq<IdentifiedNode>, item: IdentifiedNode)
    requires forall j :: 0 <= j < |items| ==> items[j].id != item.id
    ensures ProcessedItems(items + [item], Add, Canceled(item)) == items
  {
    AddedIsFound(items, item);
    assert (items + [item])[..|items|] == items;
  }
}
