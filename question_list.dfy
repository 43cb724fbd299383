/**
 * The sortable question list: drag to reorder, toggle a question's table
 * visibility, delete a question. Each change yields the new list, which
 * the component stores and passes to `onUpdate`.
 */
module QuestionList {
  import opened Wrappers
  import opened Collections

  /**
   * One listed question. The list holds references: a shallow copy of the
   * list shares these objects, so a change to one is seen through every
   * list that holds it.
   */
  class Item {
    const id: int
    var displayInTable: bool

    constructor (id: int, displayInTable: bool)
      ensures this.id == id && this.displayInTable == displayInTable
    {
      this.id := id;
      this.displayInTable := displayInTable;
    }
  }

  /** `items.findIndex(item => item.id === id)` for an id the list holds. */
  function IndexOfId(items: seq<Item>, id: int): (i: nat)
    requires exists k | 0 <= k < |items| :: items[k].id == id
    ensures i < |items| && items[i].id == id
    ensures forall k | 0 <= k < i :: items[k].id != id
  {
    if items[0].id == id then 0
    else
      assert exists k | 0 <= k < |items[1..]| :: items[1..][k].id == id by {
        var k :| 0 <= k < |items| && items[k].id == id;
        assert items[1..][k - 1] == items[k];
      }
      1 + IndexOfId(items[1..], id)
  }

  /**
   * handleDragEnd: nothing happens when an item is dropped on itself;
   * otherwise the dragged item moves to the drop target's position.
   */
  function DragEnd(items: seq<Item>, activeId: int, overId: int): (r: Option<seq<Item>>)
    requires exists k | 0 <= k < |items| :: items[k].id == activeId
    requires exists k | 0 <= k < |items| :: items[k].id == overId
    ensures r.None? <==> activeId == overId
    ensures r.Some? ==>
      && |r.value| == |items|
      && multiset(r.value) == multiset(items)
      && r.value[IndexOfId(items, overId)] == items[IndexOfId(items, activeId)]
      && SpliceOut(r.value, IndexOfId(items, overId)) == SpliceOut(items, IndexOfId(items, activeId))
  {
    if activeId == overId then None
    else Some(ArrayMove(items, IndexOfId(items, activeId), IndexOfId(items, overId)))
  }

  /** Dragging the moved item back to where it came from restores the list. */
  lemma DragBackRestores(items: seq<Item>, activeId: int, overId: int)
    requires exists k | 0 <= k < |items| :: items[k].id == activeId
    requires exists k | 0 <= k < |items| :: items[k].id == overId
    requires activeId != overId
    ensures ArrayMove(DragEnd(items, activeId, overId).value, IndexOfId(items, overId), IndexOfId(items, activeId)) == items
  {
    ArrayMoveBack(items, IndexOfId(items, activeId), IndexOfId(items, overId));
  }

  /** handleDelete: `items.filter((_, i) => i !== index)`. */
  function Delete(items: seq<Item>, index: nat): (r: seq<Item>)
    ensures index < |items| ==> |r| == |items| - 1 && IsSubsequence(r, items)
    ensures index < |items| ==> multiset(r) + multiset{items[index]} == multiset(items)
    ensures index >= |items| ==> r == items
  {
    if index < |items| then SpliceOutSubsequence(items, index); SpliceOut(items, index)
    else items
  }

  /**
   * toggleVisibility: the list is copied, and the item at `index`, shared
   * by the copy and the original, has its flag flipped in place.
   */
  method ToggleVisibility(items: seq<Item>, index: nat) returns (newItems: seq<Item>)
    requires index < |items|
    modifies items[index]
    ensures newItems == items
    ensures items[index].displayInTable == !old(items[index].displayInTable)
    ensures forall k | 0 <= k < |items| && items[k] != items[index] :: items[k].displayInTable == old(items[k].displayInTable)
  {
    newItems := items;
    newItems[index].displayInTable := !newItems[index].displayInTable;
  }
}
