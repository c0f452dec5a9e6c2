/**
 * WrappingCollection<T>: a list whose positional operations reduce the
 * index modulo Count first. The reduction is C#'s `%`, which truncates
 * toward zero, so a negative index gives a negative position that the
 * underlying list then refuses.
 */
module Wrapping {

  import opened DotNet
  import Maths

  /** C#'s `a % b` for a positive divisor: the sign follows the dividend. */
  function TruncatedRem(a: int, b: int): (r: int)
    requires b > 0
    ensures -b < r < b
    ensures a >= 0 ==> r == a % b
    ensures a < 0 ==> r <= 0 && (r == 0 <==> a % b == 0)
  {
    if a >= 0 then a % b
    else
      var m := (0 - a) % b;
      assert m == 0 <==> a % b == 0 by {
        var q := (0 - a) / b;
        if m == 0 {
          Maths.DivUnique(a, b, 0 - q, 0);
        } else {
          Maths.DivUnique(a, b, 0 - q - 1, b - m);
        }
      }
      0 - m
  }

  /** WrapIndex: the index reduced modulo the count, or -1 for an empty list. */
  function WrapIndex(count: nat, index: int): (w: int)
    ensures count == 0 ==> w == -1
    ensures count > 0 ==> 0 - count < w < count
  {
    if count != 0 then TruncatedRem(index, count) else -1
  }

  /** The indexer's getter. */
  function At<T>(items: seq<T>, index: int): (r: Result<T>)
    ensures |items| == 0 ==> r == Throws(ArgumentOutOfRange)
    ensures |items| > 0 && index >= 0 ==> r == Ok(items[index % |items|])
    ensures |items| > 0 && index < 0 ==> (r.Ok? <==> index % |items| == 0)
    ensures |items| > 0 && index < 0 && r.Ok? ==> r.value == items[0]
  {
    var w := WrapIndex(|items|, index);
    if 0 <= w < |items| then Ok(items[w]) else Throws(ArgumentOutOfRange)
  }

  /** `List<T>.Insert`: any position from 0 to Count. */
  function InsertAt<T>(items: seq<T>, position: int, x: T): (r: Result<seq<T>>)
    ensures r.Ok? <==> 0 <= position <= |items|
    ensures r.Ok? ==>
      |r.value| == |items| + 1 && r.value[position] == x &&
      r.value[..position] == items[..position] && r.value[position + 1..] == items[position..]
  {
    if 0 <= position <= |items| then Ok(items[..position] + [x] + items[position..])
    else Throws(ArgumentOutOfRange)
  }

  /** `List<T>.RemoveAt`: any position below Count. */
  function RemoveAtPosition<T>(items: seq<T>, position: int): (r: Result<seq<T>>)
    ensures r.Ok? <==> 0 <= position < |items|
    ensures r.Ok? ==>
      |r.value| == |items| - 1 &&
      r.value[..position] == items[..position] && r.value[position..] == items[position + 1..]
  {
    if 0 <= position < |items| then Ok(items[..position] + items[position + 1..])
    else Throws(ArgumentOutOfRange)
  }

  /** `List<T>.IndexOf`: the first position of x, or -1. */
  function IndexOf<T(==)>(items: seq<T>, x: T): (i: int)
    ensures -1 <= i < |items|
    ensures i == -1 <==> x !in items
    ensures i >= 0 ==> items[i] == x && x !in items[..i]
  {
    if |items| == 0 then -1
    else if items[0] == x then 0
    else
      var rest := IndexOf(items[1..], x);
      assert rest >= 0 ==> items[1..][..rest] == items[1..rest + 1];
      if rest == -1 then -1 else 1 + rest
  }

  class WrappingCollection<T(==)> {
    /** The underlying List<T>; every constructor sets it, so it is never null. */
    var items: seq<T>

    /** The empty collection. */
    constructor ()
      ensures items == []
    {
      items := [];
    }

    /** The enumerable and collection constructors copy the input in order. */
    constructor FromSequence(source: seq<T>)
      ensures items == source
    {
      items := [];
      items := items + source;
    }

    /** Count: the underlying list's count (the -1 for a null list cannot arise). */
    function Count(): (n: int)
      reads this
      ensures n >= 0 && n == |items|
    {
      |items|
    }

    method Add(x: T)
      modifies this
      ensures items == old(items) + [x]
    {
      items := items + [x];
    }

    method Clear()
      modifies this
      ensures items == []
    {
      items := [];
    }

    function Contains(x: T): (r: bool)
      reads this
      ensures r <==> exists i :: 0 <= i < |items| && items[i] == x
    {
      IndexOf(items, x) >= 0
    }

    /** Removes the first element equal to x, reporting whether there was one. */
    method Remove(x: T) returns (found: bool)
      modifies this
      ensures found <==> x in old(items)
      ensures found ==> items == old(items)[..IndexOf(old(items), x)] + old(items)[IndexOf(old(items), x) + 1..]
      ensures !found ==> items == old(items)
    {
      var i := IndexOf(items, x);
      found := i >= 0;
      if found {
        items := items[..i] + items[i + 1..];
      }
    }

    /** The indexer's getter; the collection is unchanged. */
    method Get(index: int) returns (r: Result<T>)
      ensures r == At(items, index)
    {
      var w := WrapIndex(|items|, index);
      if w < 0 {
        return Throws(ArgumentOutOfRange);
      }
      return Ok(items[w]);
    }

    /** The indexer's setter: only the wrapped position changes. */
    method Set(index: int, value: T) returns (r: Result<()>)
      modifies this
      ensures At(old(items), index).Throws? ==> r == Throws(ArgumentOutOfRange) && items == old(items)
      ensures At(old(items), index).Ok? ==>
        r == Ok(()) && items == old(items)[WrapIndex(|old(items)|, index) := value]
    {
      var w := WrapIndex(|items|, index);
      if w < 0 {
        return Throws(ArgumentOutOfRange);
      }
      items := items[w := value];
      return Ok(());
    }

    method Insert(index: int, x: T) returns (r: Result<()>)
      modifies this
      ensures var next := InsertAt(old(items), WrapIndex(|old(items)|, index), x);
        if next.Ok? then r == Ok(()) && items == next.value
        else r == Throws(ArgumentOutOfRange) && items == old(items)
    {
      var next := InsertAt(items, WrapIndex(|items|, index), x);
      if next.Throws? {
        return Throws(ArgumentOutOfRange);
      }
      items := next.value;
      return Ok(());
    }

    method RemoveAt(index: int) returns (r: Result<()>)
      modifies this
      ensures var next := RemoveAtPosition(old(items), WrapIndex(|old(items)|, index));
        if next.Ok? then r == Ok(()) && items == next.value
        else r == Throws(ArgumentOutOfRange) && items == old(items)
    {
      var next := RemoveAtPosition(items, WrapIndex(|items|, index));
      if next.Throws? {
        return Throws(ArgumentOutOfRange);
      }
      items := next.value;
      return Ok(());
    }
  }

  /** Reading is periodic with period Count for non-negative indices. */
  lemma AtPeriodic<T>(items: seq<T>, index: int)
    requires |items| > 0 && index >= 0
    ensures At(items, index + |items|) == At(items, index)
  {
    var n := |items|;
    Maths.DivUnique(index + n, n, index / n + 1, index % n);
  }

  /**
   * Insert(Count, x) wraps to position 0: it puts x at the front, so Insert
   * can never append at the end.
   */
  lemma InsertAtCountPrepends<T>(items: seq<T>, x: T)
    requires |items| > 0
    ensures InsertAt(items, WrapIndex(|items|, |items|), x) == Ok([x] + items)
  {
    Maths.DivUnique(|items|, |items|, 1, 0);
    assert items[..0] + [x] + items[0..] == [x] + items;
  }

  /** The setter changes one element and nothing else, keeping Count. */
  lemma SetChangesOnlyWrapped<T>(items: seq<T>, index: int, value: T)
    requires |items| > 0 && index >= 0
    ensures var w := WrapIndex(|items|, index);
      && w == index % |items|
      && |items[w := value]| == |items|
      && At(items[w := value], index) == Ok(value)
      && forall j :: 0 <= j < |items| && j != w ==> items[w := value][j] == items[j]
  {
  }

  /** RemoveAt(i) then Insert(i, x) of the removed element restores the list. */
  lemma RemoveThenInsertRestores<T>(items: seq<T>, position: int)
    requires 0 <= position < |items|
    ensures var removed := RemoveAtPosition(items, position);
      removed.Ok? && InsertAt(removed.value, position, items[position]) == Ok(items)
  {
    var rest := items[..position] + items[position + 1..];
    assert rest[..position] == items[..position];
    assert rest[position..] == items[position + 1..];
    assert items[..position] + [items[position]] + items[position + 1..] == items;
  }
}
