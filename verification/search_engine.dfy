/**
 * SearchEngine<T>: named search predicates over a collection. Both the
 * collection and the table of search methods are settable properties, so
 * they are fields here; the table keeps its keys in insertion order, which
 * is the order `First()` sees.
 */
module Search {

  import opened DotNet

  /** A search method: does the item match the search string? */
  type Searcher<!T> = (T, string) -> bool

  /** A `KeyValuePair<string, Func<T, string, bool>>` argument; either half may be null. */
  datatype SearcherPair<!T> = SearcherPair(key: Option<string>, value: Option<Searcher<T>>)

  /** `default(KeyValuePair<..>).Equals(pair)`: both halves null. */
  predicate IsDefault<T>(pair: SearcherPair<T>)
  {
    pair.key.None? && pair.value.None?
  }

  /** The constructor's test for registering a pair. */
  predicate Registers<T>(pair: SearcherPair<T>)
  {
    IsDefault(pair) && pair.key.Some? && pair.value.Some?
  }

  /** The pairs the constructor registers, in order. */
  function Registered<T>(searchers: seq<SearcherPair<T>>): (r: seq<(string, Searcher<T>)>)
    ensures |r| <= |searchers|
  {
    if |searchers| == 0 then []
    else
      var rest := Registered(searchers[1..]);
      if Registers(searchers[0]) then [(searchers[0].key.value, searchers[0].value.value)] + rest else rest
  }

  /**
   * The registration test asks for a pair that is both all-null and
   * non-null, so no pair is ever registered: the constructor always leaves
   * the table empty.
   */
  lemma {:induction false} NothingRegisters<T>(searchers: seq<SearcherPair<T>>)
    ensures Registered(searchers) == []
  {
    if |searchers| > 0 {
      assert !Registers(searchers[0]);
      NothingRegisters(searchers[1..]);
    }
  }

  /** `SearchMethods[key]` on a table with distinct keys. */
  function Lookup<T>(methods: seq<(string, Searcher<T>)>, key: string): (r: Result<Searcher<T>>)
    ensures r.Throws? <==> forall i :: 0 <= i < |methods| ==> methods[i].0 != key
    ensures r.Throws? ==> r.error == KeyNotFound
    ensures r.Ok? ==> exists i :: 0 <= i < |methods| && methods[i] == (key, r.value)
  {
    if |methods| == 0 then Throws(KeyNotFound)
    else if methods[0].0 == key then Ok(methods[0].1)
    else
      var rest := Lookup(methods[1..], key);
      assert forall i :: 1 <= i < |methods| ==> methods[i] == methods[1..][i - 1];
      rest
  }

  /** The searcher `Search(searchString, searchMethodKey)` uses: the first one when no key is given. */
  function ChooseSearcher<T>(methods: seq<(string, Searcher<T>)>, key: Option<string>): (r: Result<Searcher<T>>)
    ensures key.None? ==> (r.Ok? <==> |methods| > 0)
    ensures key.None? && |methods| == 0 ==> r == Throws(InvalidOperation("Sequence contains no elements"))
    ensures key.None? && |methods| > 0 ==> r == Ok(methods[0].1)
    ensures key.Some? ==> r == Lookup(methods, key.value)
  {
    match key
    case None =>
      if |methods| == 0 then Throws(InvalidOperation("Sequence contains no elements")) else Ok(methods[0].1)
    case Some(k) => Lookup(methods, k)
  }

  /** The items of group that the searcher accepts, in order. */
  function Matches<T>(group: seq<T>, searcher: Searcher<T>, searchString: string): (r: seq<T>)
    ensures |r| <= |group|
    ensures forall i :: 0 <= i < |r| ==> searcher(r[i], searchString)
  {
    if |group| == 0 then []
    else
      var rest := Matches(group[1..], searcher, searchString);
      if searcher(group[0], searchString) then [group[0]] + rest else rest
  }

  /** Every accepted item of the group is in the results, and only those. */
  lemma {:induction false} MatchesComplete<T>(group: seq<T>, searcher: Searcher<T>, searchString: string, x: T)
    ensures x in Matches(group, searcher, searchString) <==> x in group && searcher(x, searchString)
  {
    if |group| > 0 {
      MatchesComplete(group[1..], searcher, searchString, x);
      assert group == [group[0]] + group[1..];
    }
  }

  lemma {:induction false} MatchesAppend<T>(a: seq<T>, b: seq<T>, searcher: Searcher<T>, searchString: string)
    ensures Matches(a + b, searcher, searchString) == Matches(a, searcher, searchString) + Matches(b, searcher, searchString)
  {
    if |a| > 0 {
      assert (a + b)[1..] == a[1..] + b;
      MatchesAppend(a[1..], b, searcher, searchString);
    } else {
      assert a + b == b;
    }
  }

  class SearchEngine<T> {
    /** SearchableCollection; null when the constructor was given null. */
    var searchableCollection: Option<seq<T>>
    /** SearchMethods, keys in insertion order. */
    var searchMethods: seq<(string, Searcher<T>)>

    /** The constructor: the collection is kept, and the table stays empty. */
    constructor (searchable: Option<seq<T>>, searchers: seq<SearcherPair<T>>)
      ensures searchableCollection == searchable
      ensures searchMethods == Registered(searchers) == []
    {
      searchableCollection := searchable;
      var methods: seq<(string, Searcher<T>)> := [];
      for i := 0 to |searchers|
        invariant methods == Registered(searchers[..i])
      {
        var searcher := searchers[i];
        RegisteredSnoc(searchers[..i], searcher);
        assert searchers[..i + 1] == searchers[..i] + [searcher];
        if IsDefault(searcher) {
          match searcher {
            case SearcherPair(Some(k), Some(v)) => methods := methods + [(k, v)];
            case _ =>
          }
        }
      }
      searchMethods := methods;
      assert searchers[..|searchers|] == searchers;
      NothingRegisters(searchers);
    }

    /**
     * Search(searchString, Searcher, collection): the items of the given
     * collection, or else the searchable one, that the searcher accepts.
     * With neither collection there is nothing to enumerate.
     */
    method SearchWith(searchString: string, searcher: Searcher<T>, collection: Option<seq<T>>) returns (r: Result<seq<T>>)
      ensures collection.None? && searchableCollection.None? ==> r == Throws(NullReference)
      ensures collection.Some? ==> r == Ok(Matches(collection.value, searcher, searchString))
      ensures collection.None? && searchableCollection.Some? ==>
        r == Ok(Matches(searchableCollection.value, searcher, searchString))
    {
      var searchGroup := if collection.Some? then collection else searchableCollection;
      if searchGroup.None? {
        return Throws(NullReference);
      }
      var group := searchGroup.value;
      var results := [];
      for i := 0 to |group|
        invariant results == Matches(group[..i], searcher, searchString)
      {
        MatchesAppend(group[..i], [group[i]], searcher, searchString);
        assert group[..i + 1] == group[..i] + [group[i]];
        if searcher(group[i], searchString) {
          results := results + [group[i]];
        }
      }
      assert group[..|group|] == group;
      return Ok(results);
    }

    /** Search(searchString, searchMethodKey, collection): choose the searcher, then search. */
    method Search(searchString: string, searchMethodKey: Option<string>, collection: Option<seq<T>>) returns (r: Result<seq<T>>)
      ensures ChooseSearcher(searchMethods, searchMethodKey).Throws? ==>
        r == Throws(ChooseSearcher(searchMethods, searchMethodKey).error)
      ensures ChooseSearcher(searchMethods, searchMethodKey).Ok? && (collection.Some? || searchableCollection.Some?) ==>
        var group := if collection.Some? then collection.value else searchableCollection.value;
        r == Ok(Matches(group, ChooseSearcher(searchMethods, searchMethodKey).value, searchString))
      ensures ChooseSearcher(searchMethods, searchMethodKey).Ok? && collection.None? && searchableCollection.None? ==>
        r == Throws(NullReference)
    {
      var searcher := ChooseSearcher(searchMethods, searchMethodKey);
      if searcher.Throws? {
        return Throws(searcher.error);
      }
      r := SearchWith(searchString, searcher.value, collection);
    }
  }

  lemma {:induction false} RegisteredSnoc<T>(searchers: seq<SearcherPair<T>>, pair: SearcherPair<T>)
    ensures Registered(searchers + [pair]) ==
      Registered(searchers) + (if Registers(pair) then [(pair.key.value, pair.value.value)] else [])
  {
    if |searchers| > 0 {
      assert (searchers + [pair])[1..] == searchers[1..] + [pair];
      RegisteredSnoc(searchers[1..], pair);
    } else {
      assert searchers + [pair] == [pair];
    }
  }

  /** On a freshly built engine every keyed search fails, and so does the default one. */
  lemma SearchAfterConstructionFails<T>(key: Option<string>)
    ensures ChooseSearcher<T>([], key).Throws?
  {
  }
}
