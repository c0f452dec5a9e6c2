/**
 * SeekableVirtualTreeView: locating an item among the visible rows of a
 * partly expanded tree. Every item is an ITreeSeekable; an item's identity
 * (the reference compared with `==`) is its `id`.
 */
module TreeView {

  import opened DotNet
  import Wrapping

  datatype Node = Node(id: int, expanded: bool, children: seq<Node>)

  /**
   * Test(enumerator, desiredItem): walk the items until the desired one;
   * a collapsed item counts one row, an expanded one counts what Test
   * counts among its children, and its own row is not counted.
   */
  function Test(forest: seq<Node>, desired: int): (count: nat)
    decreases forest
  {
    if |forest| == 0 then 0
    else
      var n := forest[0];
      if n.id == desired then 0
      else (if n.expanded then Test(n.children, desired) else 1) + Test(forest[1..], desired)
  }

  /** The ids of the visible rows, top to bottom. */
  function Rows(forest: seq<Node>): (r: seq<int>)
    decreases forest
  {
    if |forest| == 0 then []
    else
      var n := forest[0];
      [n.id] + (if n.expanded then Rows(n.children) else []) + Rows(forest[1..])
  }

  /**
   * BringItemIntoView's position lookup: an index of -1 from Test is
   * reported as not found.
   */
  function ItemIndex(forest: seq<Node>, item: int): (r: Result<int>)
    ensures r.Ok? && r.value == Test(forest, item)
  {
    var itemIndex := Test(forest, item) as int;
    if itemIndex == -1 then Throws(InvalidOperation("Item not found in ItemsSource")) else Ok(itemIndex)
  }

  /** Test never returns more than the number of visible rows. */
  lemma {:induction false} TestAtMostRows(forest: seq<Node>, desired: int)
    ensures Test(forest, desired) <= |Rows(forest)|
    decreases forest
  {
    if |forest| > 0 {
      var n := forest[0];
      TestAtMostRows(forest[1..], desired);
      if n.expanded {
        TestAtMostRows(n.children, desired);
      }
    }
  }

  /** The ids of the top-level items. */
  function TopIds(forest: seq<Node>): (ids: seq<int>)
    ensures |ids| == |forest| && forall i :: 0 <= i < |forest| ==> ids[i] == forest[i].id
  {
    if |forest| == 0 then [] else [forest[0].id] + TopIds(forest[1..])
  }

  /**
   * When no item is expanded, Test is the item's index among the top-level
   * items, or their number when the item is not there; never -1, so the
   * not-found check can never fire.
   */
  lemma {:induction false} TestFlat(forest: seq<Node>, desired: int)
    requires forall i :: 0 <= i < |forest| ==> !forest[i].expanded
    ensures Test(forest, desired) ==
      if desired in TopIds(forest) then Wrapping.IndexOf(TopIds(forest), desired) else |forest|
    decreases forest
  {
    if |forest| > 0 {
      assert forall i :: 0 <= i < |forest[1..]| ==> !forest[1..][i].expanded;
      TestFlat(forest[1..], desired);
      assert TopIds(forest)[1..] == TopIds(forest[1..]);
    }
  }

  /** A three-row tree: 1 expanded over 2, then 3. */
  const Example: seq<Node> := [Node(1, true, [Node(2, false, [])]), Node(3, false, [])]

  /**
   * Item 3 is on row 2 (rows 1, 2, 3), but Test answers 1: the expanded
   * item's own row is missed.
   */
  lemma TestMissesExpandedRow()
    ensures Rows(Example) == [1, 2, 3]
    ensures Test(Example, 3) == 1
    ensures Test(Example, 4) == 2
  {
    assert Example[1..] == [Node(3, false, [])];
    assert Example[1..][1..] == [];
  }

  /**
   * The row index of the first visible row holding the item, or -1 when no
   * visible row does: an expanded item counts its own row, a match among its
   * children ends the search, and a miss among them adds all their rows.
   */
  function RowIndex(forest: seq<Node>, desired: int): (index: int)
    ensures -1 <= index < |Rows(forest)|
    decreases forest
  {
    if |forest| == 0 then -1
    else
      var n := forest[0];
      if n.id == desired then 0
      else
        var inChildren := if n.expanded then RowIndex(n.children, desired) else -1;
        if inChildren >= 0 then 1 + inChildren
        else
          var below := if n.expanded then |Rows(n.children)| else 0;
          var rest := RowIndex(forest[1..], desired);
          if rest >= 0 then 1 + below + rest else -1
  }

  /** RowIndex is the position of the item in the visible rows, -1 when absent. */
  lemma {:induction false} RowIndexIsPosition(forest: seq<Node>, desired: int)
    ensures RowIndex(forest, desired) == Wrapping.IndexOf(Rows(forest), desired)
    decreases forest
  {
    if |forest| > 0 {
      var n := forest[0];
      var kids := if n.expanded then Rows(n.children) else [];
      var rest := Rows(forest[1..]);
      var rows := Rows(forest);
      assert rows == [n.id] + (kids + rest);
      if n.id != desired {
        assert rows[1..] == kids + rest;
        assert Wrapping.IndexOf(rows, desired) == if desired in kids + rest then 1 + Wrapping.IndexOf(kids + rest, desired) else -1;
        RowIndexIsPosition(forest[1..], desired);
        if n.expanded {
          RowIndexIsPosition(n.children, desired);
        }
        IndexOfAppend(kids, rest, desired);
      }
    }
  }

  lemma {:induction false} IndexOfAppend(a: seq<int>, b: seq<int>, x: int)
    ensures Wrapping.IndexOf(a + b, x) ==
      if x in a then Wrapping.IndexOf(a, x)
      else if x in b then |a| + Wrapping.IndexOf(b, x)
      else -1
  {
    if |a| > 0 {
      assert (a + b)[1..] == a[1..] + b;
      IndexOfAppend(a[1..], b, x);
    } else {
      assert a + b == b;
    }
  }

  /**
   * BringItemIntoView's lookup with the corrected count: the item's row, or
   * the not-found error exactly when no visible row holds the item.
   */
  function CorrectedItemIndex(forest: seq<Node>, item: int): (r: Result<int>)
    ensures r.Throws? <==> item !in Rows(forest)
    ensures r.Throws? ==> r.error == InvalidOperation("Item not found in ItemsSource")
    ensures r.Ok? ==> 0 <= r.value < |Rows(forest)| && Rows(forest)[r.value] == item
    ensures r.Ok? ==> item !in Rows(forest)[..r.value]
  {
    RowIndexIsPosition(forest, item);
    var itemIndex := RowIndex(forest, item);
    if itemIndex == -1 then Throws(InvalidOperation("Item not found in ItemsSource")) else Ok(itemIndex)
  }

  /** With the own row counted, item 3 is found on row 2 and a missing item is reported. */
  lemma RowIndexExample()
    ensures RowIndex(Example, 3) == 2
    ensures RowIndex(Example, 4) == -1
  {
    assert Example[1..] == [Node(3, false, [])];
    assert Example[1..][1..] == [];
  }
}
