/**
 * The collection, string and character helpers of `Extensions`. A mutable
 * .NET collection is a class holding a sequence (or a multiset for a
 * ConcurrentBag, whose order is unspecified); a dictionary keeps its
 * entries in enumeration order.
 */
module Extensions {

  import opened DotNet
  import Int32Parsing
  import Strings

  // ---------------------------------------------------------------- lists

  /** The first index holding x. */
  function FirstIndex<T(==)>(s: seq<T>, x: T): (k: nat)
    requires x in s
    ensures k < |s| && s[k] == x && x !in s[..k]
  {
    if s[0] == x then 0 else 1 + FirstIndex(s[1..], x)
  }

  /** `List<T>.Remove(x)` on the items: the first element equal to x goes. */
  function RemoveFirst<T(==)>(s: seq<T>, x: T): (r: seq<T>)
    ensures x !in s ==> r == s
  {
    if |s| == 0 then []
    else if s[0] == x then s[1..]
    else [s[0]] + RemoveFirst(s[1..], x)
  }

  /** Removing x cuts out exactly the position of its first occurrence. */
  lemma {:induction false} RemoveFirstSplice<T>(s: seq<T>, x: T)
    requires x in s
    ensures RemoveFirst(s, x) == s[..FirstIndex(s, x)] + s[FirstIndex(s, x) + 1..]
  {
    if s[0] != x {
      var k := FirstIndex(s, x);
      RemoveFirstSplice(s[1..], x);
      assert s[1..][..k - 1] == s[1..k];
      assert s[1..][k..] == s[k + 1..];
    }
  }

  /** A List<T> seen through ICollection<T>. */
  class Collection<T(==)> {
    var items: seq<T>

    constructor (items: seq<T>)
      ensures this.items == items
    {
      this.items := items;
    }

    method Add(x: T)
      modifies this
      ensures items == old(items) + [x]
    {
      items := items + [x];
    }

    /** Removes the first element equal to x; false when there is none. */
    method Remove(x: T) returns (found: bool)
      modifies this
      ensures found <==> x in old(items)
      ensures items == RemoveFirst(old(items), x)
    {
      found := x in items;
      items := RemoveFirst(items, x);
    }
  }

  /**
   * Pop(collection, index): the element at index, after which the first
   * element equal to it is removed. An index outside the collection is
   * refused by ElementAt.
   */
  method Pop<T(==)>(collection: Collection<T>, index: int) returns (r: Result<T>)
    modifies collection
    ensures !(0 <= index < |old(collection.items)|) ==>
      r == Throws(ArgumentOutOfRange) && collection.items == old(collection.items)
    ensures 0 <= index < |old(collection.items)| ==>
      r == Ok(old(collection.items)[index]) &&
      collection.items == RemoveFirst(old(collection.items), old(collection.items)[index])
  {
    if index < 0 || index >= |collection.items| {
      return Throws(ArgumentOutOfRange);
    }
    var item := collection.items[index];
    var _ := collection.Remove(item);
    return Ok(item);
  }

  /**
   * What Pop leaves: one element fewer, the popped value taken out once, but
   * from the first position holding an equal value, which may come before
   * the index asked for.
   */
  lemma PopRemovesFirstEqual<T>(items: seq<T>, index: nat)
    requires index < |items|
    ensures var k := FirstIndex(items, items[index]);
      && k <= index
      && RemoveFirst(items, items[index]) == items[..k] + items[k + 1..]
      && |RemoveFirst(items, items[index])| == |items| - 1
      && multiset(RemoveFirst(items, items[index])) == multiset(items) - multiset{items[index]}
  {
    var x := items[index];
    var k := FirstIndex(items, x);
    RemoveFirstSplice(items, x);
    assert items == items[..k] + [x] + items[k + 1..];
    assert multiset(items) == multiset(items[..k]) + multiset{x} + multiset(items[k + 1..]);
  }

  /** With duplicates, popping a later copy removes the earlier one. */
  lemma PopDuplicateExample()
    ensures RemoveFirst([7, 8, 7], [7, 8, 7][2]) == [8, 7]
  {
  }

  /** ToList(enumerable, size): a new list of the items; `size` plays no part. */
  function ToList<T>(items: seq<T>, size: int): (r: seq<T>)
    ensures |r| == |items| && forall i :: 0 <= i < |items| ==> r[i] == items[i]
  {
    items
  }

  /**
   * ToArray(enumerable, size): an array of exactly `size` slots, the items
   * first and default values after them. A negative size cannot be
   * allocated; more items than slots overrun the array.
   */
  method ToArray<T>(items: seq<T>, size: int, defaultValue: T) returns (r: Result<array<T>>)
    ensures size < 0 ==> r == Throws(Overflow)
    ensures 0 <= size < |items| ==> r == Throws(IndexOutOfRange)
    ensures 0 <= size && |items| <= size ==>
      r.Ok? && fresh(r.value) && r.value[..] == items + seq(size - |items|, _ => defaultValue)
  {
    if size < 0 {
      return Throws(Overflow);
    }
    var newarr := new T[size](_ => defaultValue);
    var count := 0;
    while count < |items|
      invariant 0 <= count <= |items| && count <= size
      invariant newarr[..count] == items[..count]
      invariant forall j :: count <= j < size ==> newarr[j] == defaultValue
    {
      if count >= size {
        return Throws(IndexOutOfRange);
      }
      newarr[count] := items[count];
      count := count + 1;
    }
    assert newarr[..] == items + seq(size - |items|, _ => defaultValue);
    return Ok(newarr);
  }

  // ---------------------------------------------------------------- paths

  /** The set the static constructor builds: invalid file-name chars, then invalid path chars. */
  function InvalidPathingChars(fileNameChars: seq<char>, pathChars: seq<char>): (r: seq<char>)
    ensures forall c :: c in r <==> c in fileNameChars || c in pathChars
  {
    fileNameChars + pathChars
  }

  /** U+0000 to U+001F. */
  const ControlChars: seq<char> := seq(32, i requires 0 <= i < 32 => i as char)

  /** Path.GetInvalidFileNameChars on Windows. */
  const WindowsInvalidFileNameChars: seq<char> :=
    ['"', '<', '>', '|'] + ControlChars + [':', '*', '?', '\\', '/']

  /** Path.GetInvalidPathChars on Windows. */
  const WindowsInvalidPathChars: seq<char> := ['|'] + ControlChars

  /** The chars of s that are not in bad, in order. */
  function Without(s: string, bad: seq<char>): (r: string)
    ensures |r| <= |s|
    ensures forall i :: 0 <= i < |r| ==> r[i] !in bad && r[i] in s
  {
    if |s| == 0 then ""
    else if s[0] in bad then Without(s[1..], bad)
    else [s[0]] + Without(s[1..], bad)
  }

  /** StringBuilder.Replace(c + "", ""): every occurrence of c removed. */
  function RemoveChar(s: string, c: char): (r: string)
  {
    if |s| == 0 then ""
    else if s[0] == c then RemoveChar(s[1..], c)
    else [s[0]] + RemoveChar(s[1..], c)
  }

  lemma {:induction false} RemoveCharStep(s: string, bad: seq<char>, c: char)
    ensures RemoveChar(Without(s, bad), c) == Without(s, bad + [c])
  {
    if |s| > 0 {
      RemoveCharStep(s[1..], bad, c);
    }
  }

  method GetPathWithoutInvalids(str: string, invalidPathingChars: seq<char>) returns (r: string)
    ensures r == Without(str, invalidPathingChars)
  {
    var newstr := str;
    assert Without(str, []) == str by { WithoutNothing(str); }
    for i := 0 to |invalidPathingChars|
      invariant newstr == Without(str, invalidPathingChars[..i])
    {
      RemoveCharStep(str, invalidPathingChars[..i], invalidPathingChars[i]);
      assert invalidPathingChars[..i + 1] == invalidPathingChars[..i] + [invalidPathingChars[i]];
      newstr := RemoveChar(newstr, invalidPathingChars[i]);
    }
    assert invalidPathingChars[..|invalidPathingChars|] == invalidPathingChars;
    r := newstr;
  }

  lemma {:induction false} WithoutNothing(s: string)
    ensures Without(s, []) == s
  {
    if |s| > 0 {
      WithoutNothing(s[1..]);
    }
  }

  /**
   * Stripping keeps every valid char in order, leaves a string with no
   * invalid char unchanged, and so is idempotent.
   */
  lemma {:induction false} WithoutKeepsValid(s: string, bad: seq<char>)
    ensures (forall i :: 0 <= i < |s| ==> s[i] !in bad) ==> Without(s, bad) == s
    ensures Without(Without(s, bad), bad) == Without(s, bad)
  {
    if |s| > 0 {
      WithoutKeepsValid(s[1..], bad);
      if s[0] !in bad {
        assert Without(s, bad)[1..] == Without(s[1..], bad);
      }
    }
  }

  /** The Windows set: the control chars and `"<>|:*?\\/`. */
  lemma WindowsInvalidChars(c: char)
    ensures c in InvalidPathingChars(WindowsInvalidFileNameChars, WindowsInvalidPathChars) <==>
      c < ' ' || c in ['"', '<', '>', '|', ':', '*', '?', '\\', '/']
  {
    assert c in ControlChars <==> c < ' ' by {
      if c < ' ' {
        assert ControlChars[c as int] == c;
      }
    }
  }

  /** On Windows the drive colon and the separators are stripped too. */
  lemma StripsSeparatorsExample()
    ensures Without("C:\\d/f", InvalidPathingChars(WindowsInvalidFileNameChars, WindowsInvalidPathChars)) == "Cdf"
  {
    var bad := InvalidPathingChars(WindowsInvalidFileNameChars, WindowsInvalidPathChars);
    WindowsInvalidChars('C');
    WindowsInvalidChars(':');
    WindowsInvalidChars('\\');
    WindowsInvalidChars('d');
    WindowsInvalidChars('/');
    WindowsInvalidChars('f');
    var s := "C:\\d/f";
    assert Without(s[5..], bad) == "f";
    assert Without(s[4..], bad) == "f";
    assert Without(s[3..], bad) == "df";
    assert Without(s[2..], bad) == "df";
    assert Without(s[1..], bad) == "df";
  }

  // ---------------------------------------------------------------- digits and letters

  /** isDigit(string): Int32.TryParse succeeds. */
  predicate IsDigit(str: string)
  {
    Int32Parsing.TryParse(str).Some?
  }

  /** isDigit(char): the one-char string parses. */
  predicate IsDigitChar(c: char)
  {
    IsDigit([c])
  }

  /** isLetter(char): anything that is not a digit. */
  predicate IsLetterChar(c: char)
  {
    !IsDigitChar(c)
  }

  /** isLetter(string): a single char that does not parse. */
  predicate IsLetter(str: string)
  {
    if |str| == 1 then !IsDigit(str) else false
  }

  /**
   * A char is a digit exactly when it is '0'..'9', and a letter otherwise,
   * punctuation and white space included.
   */
  lemma CharClasses(c: char)
    ensures IsDigitChar(c) <==> '0' <= c <= '9'
    ensures IsLetterChar(c) <==> !('0' <= c <= '9')
  {
    Int32Parsing.TryParseOneChar(c);
  }

  /** isLetter(string) is false unless there is exactly one char, which is not a digit. */
  lemma IsLetterString(str: string)
    ensures IsLetter(str) <==> |str| == 1 && !('0' <= str[0] <= '9')
  {
    if |str| == 1 {
      assert str == [str[0]];
      CharClasses(str[0]);
    }
  }

  /** isDigit(string) accepts a signed number with white space around it. */
  lemma IsDigitSigned()
    ensures IsDigit(" -12 ")
  {
    var s := " -12 ";
    assert Int32Parsing.TrimStart(s[1..]) == s[1..];
    assert Int32Parsing.TrimStart(s) == "-12 ";
    assert Int32Parsing.TrimEnd("-12 "[..3]) == "-12";
    assert Int32Parsing.TrimEnd("-12 ") == "-12";
    assert "-12"[1..] == "12";
    assert Int32Parsing.DigitsValue("12"[..1]) == 1;
    assert Int32Parsing.DigitsValue("12") == 12;
  }

  /** Punctuation and white space count as letters. */
  lemma IsLetterPunctuation()
    ensures IsLetterChar('.') && IsLetterChar(' ')
  {
    CharClasses('.');
    CharClasses(' ');
  }

  // ---------------------------------------------------------------- Contains

  /** `List<T>.Find`: the first item satisfying pred, or the default value. */
  function Find<T>(list: seq<T>, pred: T -> bool, defaultValue: T): (r: T)
    ensures (exists i :: 0 <= i < |list| && pred(list[i])) || r == defaultValue
  {
    if |list| == 0 then defaultValue
    else if pred(list[0]) then list[0]
    else Find(list[1..], pred, defaultValue)
  }

  /** The first index whose item satisfies pred. */
  function FirstMatch<T>(list: seq<T>, pred: T -> bool): (k: nat)
    requires exists i :: 0 <= i < |list| && pred(list[i])
    ensures k < |list| && pred(list[k]) && forall j :: 0 <= j < k ==> !pred(list[j])
  {
    if pred(list[0]) then 0
    else
      assert exists i :: 0 <= i < |list[1..]| && pred(list[1..][i]) by {
        var i :| 0 <= i < |list| && pred(list[i]);
        assert list[1..][i - 1] == list[i];
      }
      1 + FirstMatch(list[1..], pred)
  }

  lemma {:induction false} FindIsFirstMatch<T>(list: seq<T>, pred: T -> bool, defaultValue: T)
    ensures (exists i :: 0 <= i < |list| && pred(list[i])) ==>
      Find(list, pred, defaultValue) == list[FirstMatch(list, pred)]
    ensures (forall i :: 0 <= i < |list| ==> !pred(list[i])) ==> Find(list, pred, defaultValue) == defaultValue
  {
    if |list| > 0 && !pred(list[0]) {
      FindIsFirstMatch(list[1..], pred, defaultValue);
      if exists i :: 0 <= i < |list| && pred(list[i]) {
        var i :| 0 <= i < |list| && pred(list[i]);
        assert list[1..][i - 1] == list[i];
      }
    }
  }

  /**
   * Contains(List<T>, Predicate<T>): `list.Find(..) != null`. `isNull`
   * says which values are null: none for a value type, whose default is
   * never null.
   */
  function ListContains<T>(list: seq<T>, pred: T -> bool, defaultValue: T, isNull: T -> bool): bool
  {
    !isNull(Find(list, pred, defaultValue))
  }

  /** For a value type the answer is always true, even for an empty list. */
  lemma ListContainsValueType<T>(list: seq<T>, pred: T -> bool, defaultValue: T, isNull: T -> bool)
    requires forall x :: !isNull(x)
    ensures ListContains(list, pred, defaultValue, isNull)
  {
  }

  /**
   * For a reference type (default null) the answer is true exactly when some
   * item matches and the first match is not null.
   */
  lemma ListContainsReferenceType<T>(list: seq<T>, pred: T -> bool, defaultValue: T, isNull: T -> bool)
    requires isNull(defaultValue)
    ensures ListContains(list, pred, defaultValue, isNull) <==>
      (exists i :: 0 <= i < |list| && pred(list[i])) && !isNull(list[FirstMatch(list, pred)])
  {
    FindIsFirstMatch(list, pred, defaultValue);
  }

  /** Contains(IEnumerable<T>, Predicate<T>): whether any item matches. */
  function EnumerableContains<T>(items: seq<T>, pred: T -> bool): (r: bool)
    ensures r <==> exists i :: 0 <= i < |items| && pred(items[i])
  {
    if |items| == 0 then false
    else if pred(items[0]) then true
    else
      var rest := EnumerableContains(items[1..], pred);
      assert rest <==> exists i :: 0 <= i < |items| && pred(items[i]) by {
        if exists i :: 0 <= i < |items| && pred(items[i]) {
          var i :| 0 <= i < |items| && pred(items[i]);
          assert items[1..][i - 1] == items[i];
        }
      }
      rest
  }

  /** Contains(string, toCheck, Ordinal): `IndexOf >= 0`. */
  function StringContains(str: string, toCheck: string): (r: bool)
    ensures r <==> exists i :: Strings.OccursAt(str, toCheck, i)
  {
    var found := Strings.IndexOf(str, toCheck, 0);
    assert found.Ok?;
    found.value >= 0
  }

  // ---------------------------------------------------------------- dictionaries and bags

  function Keys<K, V>(entries: seq<(K, V)>): set<K>
  {
    set i | 0 <= i < |entries| :: entries[i].0
  }

  predicate DistinctKeys<K(==), V>(entries: seq<(K, V)>)
  {
    forall i, j :: 0 <= i < j < |entries| ==> entries[i].0 != entries[j].0
  }

  /** A Dictionary<K, V>: its entries in enumeration order. */
  class Dictionary<K(==), V> {
    var entries: seq<(K, V)>

    ghost predicate Valid()
      reads this
    {
      DistinctKeys(entries)
    }

    constructor ()
      ensures entries == [] && Valid()
    {
      entries := [];
    }

    /** Dictionary.Add: a key already present is an ArgumentException. */
    method Add(key: K, value: V) returns (r: Result<()>)
      requires Valid()
      modifies this
      ensures Valid()
      ensures key in Keys(old(entries)) ==> r == Throws(Argument) && entries == old(entries)
      ensures key !in Keys(old(entries)) ==> r == Ok(()) && entries == old(entries) + [(key, value)]
    {
      if key in Keys(entries) {
        return Throws(Argument);
      }
      KeysSnoc(entries, (key, value));
      entries := entries + [(key, value)];
      return Ok(());
    }
  }

  /** Adding each entry in turn, stopping at the first key already present. */
  function AddAll<K(==), V>(entries: seq<(K, V)>, additions: seq<(K, V)>): (r: (seq<(K, V)>, Result<()>))
    decreases |additions|
  {
    if |additions| == 0 then (entries, Ok(()))
    else if additions[0].0 in Keys(entries) then (entries, Throws(Argument))
    else AddAll(entries + [additions[0]], additions[1..])
  }

  /**
   * Dictionary AddRange: a null argument is refused before anything is
   * added; otherwise the entries go in one by one, and a key already
   * present throws with the earlier entries already added.
   */
  method AddRange<K(==), V>(mainDictionary: Dictionary<K, V>, newAdditions: Dictionary?<K, V>) returns (r: Result<()>)
    requires mainDictionary.Valid() && (newAdditions != null ==> newAdditions.Valid())
    modifies mainDictionary
    ensures mainDictionary.Valid()
    ensures newAdditions == null ==> r == Throws(ArgumentNull) && mainDictionary.entries == old(mainDictionary.entries)
    ensures newAdditions != null ==>
      (mainDictionary.entries, r) == AddAll(old(mainDictionary.entries), old(newAdditions.entries))
  {
    if newAdditions == null {
      return Throws(ArgumentNull);
    }
    var items := newAdditions.entries;
    for i := 0 to |items|
      invariant AddAll(old(mainDictionary.entries), items) == AddAll(mainDictionary.entries, items[i..])
      invariant mainDictionary.Valid()
    {
      assert items[i..][1..] == items[i + 1..];
      var added := mainDictionary.Add(items[i].0, items[i].1);
      if added.Throws? {
        return added;
      }
    }
    assert items[|items|..] == [];
    return Ok(());
  }

  /**
   * AddRange succeeds exactly when no key to add is already present, and
   * then appends the additions in order.
   */
  lemma {:induction false} AddAllSucceeds<K, V>(entries: seq<(K, V)>, additions: seq<(K, V)>)
    requires DistinctKeys(additions)
    ensures AddAll(entries, additions).1.Ok? <==> Keys(entries) !! Keys(additions)
    ensures AddAll(entries, additions).1.Ok? ==> AddAll(entries, additions).0 == entries + additions
    decreases |additions|
  {
    if |additions| == 0 {
      assert Keys(additions) == {};
    } else {
      var a := additions[0];
      KeysCons(additions);
      if a.0 !in Keys(entries) {
        DistinctTail(additions);
        KeysSnoc(entries, a);
        AddAllSucceeds(entries + [a], additions[1..]);
        assert entries + [a] + additions[1..] == entries + additions;
      }
    }
  }

  /**
   * When AddRange throws, the entries before the first clashing key have
   * been added and nothing from it on.
   */
  lemma {:induction false} AddAllThrows<K, V>(entries: seq<(K, V)>, additions: seq<(K, V)>)
    requires DistinctKeys(additions)
    ensures AddAll(entries, additions).1.Throws? ==>
      exists i :: 0 <= i < |additions| && additions[i].0 in Keys(entries) &&
        (forall j :: 0 <= j < i ==> additions[j].0 !in Keys(entries)) &&
        AddAll(entries, additions).0 == entries + additions[..i]
    decreases |additions|
  {
    if |additions| > 0 {
      var a := additions[0];
      var rest := additions[1..];
      if a.0 in Keys(entries) {
        assert entries + additions[..0] == entries;
      } else if AddAll(entries, additions).1.Throws? {
        var grown := entries + [a];
        DistinctTail(additions);
        KeysSnoc(entries, a);
        AddAllThrows(grown, rest);
        var i :| 0 <= i < |rest| && rest[i].0 in Keys(grown) &&
          (forall j :: 0 <= j < i ==> rest[j].0 !in Keys(grown)) &&
          AddAll(grown, rest).0 == grown + rest[..i];
        assert additions[i + 1] == rest[i];
        assert grown + rest[..i] == entries + additions[..i + 1];
        forall j | 0 <= j < i + 1
          ensures additions[j].0 !in Keys(entries)
        {
          if j > 0 {
            assert additions[j] == rest[j - 1];
          }
        }
      }
    }
  }

  /** A dictionary's keys stay distinct whatever AddRange does. */
  lemma {:induction false} AddAllKeepsDistinct<K, V>(entries: seq<(K, V)>, additions: seq<(K, V)>)
    requires DistinctKeys(entries)
    ensures DistinctKeys(AddAll(entries, additions).0)
    decreases |additions|
  {
    if |additions| > 0 && additions[0].0 !in Keys(entries) {
      KeysSnoc(entries, additions[0]);
      AddAllKeepsDistinct(entries + [additions[0]], additions[1..]);
    }
  }

  lemma DistinctTail<K, V>(additions: seq<(K, V)>)
    requires |additions| > 0 && DistinctKeys(additions)
    ensures DistinctKeys(additions[1..]) && additions[0].0 !in Keys(additions[1..])
  {
  }

  lemma KeysSnoc<K, V>(entries: seq<(K, V)>, a: (K, V))
    ensures Keys(entries + [a]) == Keys(entries) + {a.0}
  {
    var grown := entries + [a];
    forall k | k in Keys(grown)
      ensures k in Keys(entries) || k == a.0
    {
      var i :| 0 <= i < |grown| && grown[i].0 == k;
      if i < |entries| {
        assert entries[i] == grown[i];
      }
    }
    assert grown[|entries|] == a;
    forall k | k in Keys(entries)
      ensures k in Keys(grown)
    {
      var i :| 0 <= i < |entries| && entries[i].0 == k;
      assert grown[i] == entries[i];
    }
  }

  lemma KeysCons<K, V>(additions: seq<(K, V)>)
    requires |additions| > 0
    ensures Keys(additions) == {additions[0].0} + Keys(additions[1..])
  {
    var rest := additions[1..];
    forall k | k in Keys(additions)
      ensures k == additions[0].0 || k in Keys(rest)
    {
      var i :| 0 <= i < |additions| && additions[i].0 == k;
      if i > 0 {
        assert rest[i - 1] == additions[i];
      }
    }
    forall k | k in Keys(rest)
      ensures k in Keys(additions)
    {
      var i :| 0 <= i < |rest| && rest[i].0 == k;
      assert additions[i + 1] == rest[i];
    }
  }

  /** A ConcurrentBag<T>: a multiset, since its order is unspecified. */
  class Bag<T(==)> {
    var contents: multiset<T>

    constructor ()
      ensures contents == multiset{}
    {
      contents := multiset{};
    }

    method Add(x: T)
      modifies this
      ensures contents == old(contents) + multiset{x}
    {
      contents := contents + multiset{x};
    }
  }

  /** AddRangeKinda(ConcurrentBag, additions): each addition added once. */
  method AddRangeKindaBag<T(==)>(bag: Bag<T>, additions: seq<T>)
    modifies bag
    ensures bag.contents == old(bag.contents) + multiset(additions)
  {
    for i := 0 to |additions|
      invariant bag.contents == old(bag.contents) + multiset(additions[..i])
    {
      assert additions[..i + 1] == additions[..i] + [additions[i]];
      bag.Add(additions[i]);
    }
    assert additions[..|additions|] == additions;
  }

  /** AddRangeKinda(ICollection, additions): the additions appended in order. */
  method AddRangeKinda<T(==)>(collection: Collection<T>, additions: seq<T>)
    modifies collection
    ensures collection.items == old(collection.items) + additions
  {
    for i := 0 to |additions|
      invariant collection.items == old(collection.items) + additions[..i]
    {
      assert additions[..i + 1] == additions[..i] + [additions[i]];
      collection.Add(additions[i]);
    }
    assert additions[..|additions|] == additions;
  }
}
