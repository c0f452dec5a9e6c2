/**
 * RangedObservableCollection<T> and MTRangedObservableCollection<T>: an
 * observable collection whose range operations change the underlying
 * `Items` list directly, bypassing the per-item notifications, and then
 * announce the whole change once. The two classes share this list logic;
 * the multi-threaded one only differs in the thread its handlers run on.
 * Raised notifications are kept as a log, in order.
 */
module Ranged {

  import opened DotNet
  import BitConverter

  datatype Notification = PropertyChanged(propertyName: string) | CollectionReset

  /** NotifyRangeChange: Count and the indexer changed, then a Reset. */
  const RangeChange: seq<Notification> := [PropertyChanged("Count"), PropertyChanged("Item[]"), CollectionReset]

  /** `Items.Insert(index, item)` for each item in turn, at the same index. */
  function InsertEach<T>(items: seq<T>, index: nat, additions: seq<T>): (r: seq<T>)
    requires index <= |items|
    ensures |r| == |items| + |additions|
    decreases |additions|
  {
    if |additions| == 0 then items
    else InsertEach(items[..index] + [additions[0]] + items[index..], index, additions[1..])
  }

  /**
   * Inserting one by one at a fixed index leaves the block in reverse order
   * in front of what was at the index.
   */
  lemma {:induction false} InsertEachReverses<T>(items: seq<T>, index: nat, additions: seq<T>)
    requires index <= |items|
    ensures InsertEach(items, index, additions) == items[..index] + BitConverter.Reverse(additions) + items[index..]
    decreases |additions|
  {
    if |additions| > 0 {
      var a := additions[0];
      var next := items[..index] + [a] + items[index..];
      InsertEachReverses(next, index, additions[1..]);
      assert next[..index] == items[..index];
      assert next[index..] == [a] + items[index..];
      assert BitConverter.Reverse(additions) == BitConverter.Reverse(additions[1..]) + [a];
    }
  }

  /** Inserting a range at the end appends it reversed, so it is not AddRange. */
  lemma InsertAtEndIsReversedAppend<T>(items: seq<T>, additions: seq<T>)
    ensures InsertEach(items, |items|, additions) == items + BitConverter.Reverse(additions)
  {
    InsertEachReverses(items, |items|, additions);
    assert items[..|items|] == items && items[|items|..] == [];
  }

  class RangedObservableCollection<T> {
    /** The underlying Items list. */
    var items: seq<T>
    /** The notifications raised so far. */
    var raised: seq<Notification>

    constructor ()
      ensures items == [] && raised == []
    {
      items := [];
      raised := [];
    }

    /** The enumerable and list constructors copy the input in order. */
    constructor FromSequence(source: seq<T>)
      ensures items == source && raised == []
    {
      items := source;
      raised := [];
    }

    method NotifyRangeChange()
      modifies this
      ensures items == old(items)
      ensures raised == old(raised) + RangeChange
    {
      raised := raised + RangeChange;
    }

    /** AddRange: the items appended in order, announced once. */
    method AddRange(additions: seq<T>)
      modifies this
      ensures items == old(items) + additions
      ensures raised == old(raised) + RangeChange
    {
      for i := 0 to |additions|
        invariant items == old(items) + additions[..i]
        invariant raised == old(raised)
      {
        assert additions[..i + 1] == additions[..i] + [additions[i]];
        items := items + [additions[i]];
      }
      assert additions[..|additions|] == additions;
      NotifyRangeChange();
    }

    /**
     * InsertRange: each item inserted at the same index, so the block lands
     * reversed. An index outside 0..Count throws on the first insertion,
     * before anything changes or is announced; with nothing to insert the
     * index is never checked.
     */
    method InsertRange(index: int, additions: seq<T>) returns (r: Result<()>)
      modifies this
      ensures |additions| > 0 && !(0 <= index <= |old(items)|) ==>
        r == Throws(ArgumentOutOfRange) && items == old(items) && raised == old(raised)
      ensures |additions| == 0 ==> r == Ok(()) && items == old(items) && raised == old(raised) + RangeChange
      ensures |additions| > 0 && 0 <= index <= |old(items)| ==>
        r == Ok(()) &&
        items == InsertEach(old(items), index, additions) &&
        items == old(items)[..index] + BitConverter.Reverse(additions) + old(items)[index..] &&
        raised == old(raised) + RangeChange
    {
      if |additions| > 0 && !(0 <= index <= |items|) {
        return Throws(ArgumentOutOfRange);
      }
      if |additions| == 0 {
        NotifyRangeChange();
        return Ok(());
      }
      ghost var start := items;
      for i := 0 to |additions|
        invariant index <= |items|
        invariant InsertEach(items, index, additions[i..]) == InsertEach(start, index, additions)
        invariant raised == old(raised)
      {
        assert additions[i..][1..] == additions[i + 1..];
        items := items[..index] + [additions[i]] + items[index..];
      }
      assert additions[|additions|..] == [];
      InsertEachReverses(start, index, additions);
      NotifyRangeChange();
      return Ok(());
    }

    /** Reset: the underlying list cleared silently, then AddRange. */
    method Reset(additions: seq<T>)
      modifies this
      ensures items == additions
      ensures raised == old(raised) + RangeChange
    {
      items := [];
      AddRange(additions);
    }
  }
}
