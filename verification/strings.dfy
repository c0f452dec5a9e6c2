/**
 * The string helpers of `Strings`: extracting the text between two markers
 * and capitalising words. `IndexOf` is ordinal and `char.ToUpper` is taken
 * to change only the ASCII letters a-z.
 */
module Strings {

  import opened DotNet

  /** The pattern occurs in s starting at index i. */
  predicate OccursAt(s: string, pattern: string, i: int)
  {
    0 <= i && i + |pattern| <= |s| && s[i..i + |pattern|] == pattern
  }

  /**
   * `s.IndexOf(pattern, from)`, ordinal: the first occurrence at or after
   * `from`, or -1. A `from` past the end is an ArgumentOutOfRangeException.
   */
  function IndexOf(s: string, pattern: string, from: int): (r: Result<int>)
    ensures r.Ok? <==> 0 <= from <= |s|
    ensures r.Ok? && r.value >= 0 ==> from <= r.value && OccursAt(s, pattern, r.value)
    ensures r.Ok? ==> r.value >= -1
    ensures r.Ok? ==> forall j :: from <= j && (r.value == -1 || j < r.value) ==> !OccursAt(s, pattern, j)
    decreases |s| - from
  {
    if from < 0 || from > |s| then Throws(ArgumentOutOfRange)
    else if from + |pattern| > |s| then Ok(-1)
    else if s[from..from + |pattern|] == pattern then Ok(from)
    else IndexOf(s, pattern, from + 1)
  }

  /**
   * ExtractString(str, left, right): the text after the first `left` up to
   * the next `right`. When `left` is missing its index is -1, so the text
   * starts at |left| - 1; when no `right` follows, Substring gets a negative
   * length and throws.
   */
  function ExtractString(str: string, left: string, right: string): (r: Result<string>)
  {
    var first := IndexOf(str, left, 0).value;
    var startIndex := first + |left|;
    match IndexOf(str, right, startIndex)
    case Throws(e) => Throws(e)
    case Ok(endIndex) =>
      if endIndex - startIndex < 0 then Throws(ArgumentOutOfRange)
      else Ok(str[startIndex..endIndex])
  }

  /** ExtractString(str, enclosingElement): the text between two delimiters. */
  function ExtractDelimited(str: string, enclosingElement: string): (r: Result<string>)
    ensures r == ExtractString(str, enclosingElement, enclosingElement)
  {
    ExtractString(str, enclosingElement, enclosingElement)
  }

  /**
   * When `left` first occurs at p, the call succeeds exactly when `right`
   * occurs at or after p + |left|; the result then sits between them, so
   * that left + result + right is contiguous at p, and no `right` starts
   * inside the result.
   */
  lemma ExtractStringBetween(str: string, left: string, right: string, p: int)
    requires IndexOf(str, left, 0) == Ok(p) && p >= 0
    ensures ExtractString(str, left, right).Ok?
        <==> exists q :: p + |left| <= q && OccursAt(str, right, q)
    ensures ExtractString(str, left, right).Ok? ==>
        var mid := ExtractString(str, left, right).value;
        && OccursAt(str, left + mid + right, p)
        && forall j :: p + |left| <= j < p + |left| + |mid| ==> !OccursAt(str, right, j)
  {
    var startIndex := p + |left|;
    var found := IndexOf(str, right, startIndex);
    assert found.Ok?;
    var e := found.value;
    if e >= 0 {
      var mid := str[startIndex..e];
      assert ExtractString(str, left, right) == Ok(mid);
      Contiguous(str, left, right, p, e);
    } else {
      assert ExtractString(str, left, right).Throws?;
    }
  }

  lemma Contiguous(str: string, left: string, right: string, p: int, e: int)
    requires OccursAt(str, left, p) && OccursAt(str, right, e) && p + |left| <= e
    ensures OccursAt(str, left + str[p + |left|..e] + right, p)
  {
    var startIndex := p + |left|;
    assert str[p..e + |right|] == str[p..startIndex] + str[startIndex..e] + str[e..e + |right|];
  }

  /** A missing `left` counts as found at -1: extraction starts at |left| - 1. */
  lemma ExtractStringMissingLeft()
    ensures ExtractString("abc", "zz", "c") == Ok("b")
  {
    assert !OccursAt("abc", "zz", 0) by { assert "abc"[0..2][0] == 'a'; }
    assert !OccursAt("abc", "zz", 1) by { assert "abc"[1..3][0] == 'b'; }
    assert IndexOf("abc", "zz", 0) == Ok(-1);
    assert !OccursAt("abc", "c", 1) by { assert "abc"[1..2][0] == 'b'; }
    assert OccursAt("abc", "c", 2);
    assert IndexOf("abc", "c", 1) == Ok(2);
    assert "abc"[1..2] == "b";
  }

  /** IndexOf finds q when the pattern occurs there and nowhere between `from` and q. */
  lemma IndexOfFinds(s: string, pattern: string, from: int, q: int)
    requires 0 <= from <= q && OccursAt(s, pattern, q)
    requires forall j :: from <= j < q ==> !OccursAt(s, pattern, j)
    ensures IndexOf(s, pattern, from) == Ok(q)
  {
  }

  /** The documented examples. */
  lemma ExtractStringExample()
    ensures ExtractString("indigo", "in", "go") == Ok("di")
  {
    assert OccursAt("indigo", "in", 0);
    IndexOfFinds("indigo", "in", 0, 0);
    assert !OccursAt("indigo", "go", 2) by { assert "indigo"[2..4][0] == 'd'; }
    assert !OccursAt("indigo", "go", 3) by { assert "indigo"[3..5][0] == 'i'; }
    assert OccursAt("indigo", "go", 4);
    IndexOfFinds("indigo", "go", 2, 4);
    assert "indigo"[2..4] == "di";
  }

  const Snuffles := "I like #snuffles# and things"

  lemma ExtractDelimitedExample()
    ensures ExtractDelimited(Snuffles, "#") == Ok("snuffles")
  {
    FirstHash();
    SecondHash();
    assert ExtractString(Snuffles, "#", "#") == Ok(Snuffles[8..16]);
    SnufflesSlice();
  }

  lemma SnufflesSlice()
    ensures Snuffles[8..16] == "snuffles"
  {
  }

  lemma FirstHash()
    ensures IndexOf(Snuffles, "#", 0) == Ok(7)
  {
    var s := Snuffles;
    assert OccursAt(s, "#", 7);
    forall j | 0 <= j < 7
      ensures !OccursAt(s, "#", j)
    {
      assert s[j..j + 1][0] == s[j] != '#';
    }
    IndexOfFinds(s, "#", 0, 7);
  }

  lemma SecondHash()
    ensures IndexOf(Snuffles, "#", 8) == Ok(16)
  {
    var s := Snuffles;
    assert OccursAt(s, "#", 16);
    forall j | 8 <= j < 16
      ensures !OccursAt(s, "#", j)
    {
      assert s[j..j + 1][0] == s[j] != '#';
    }
    IndexOfFinds(s, "#", 8, 16);
  }

  /** char.ToUpper on the ASCII letters. */
  function ToUpper(c: char): (u: char)
    ensures 'a' <= c <= 'z' ==> 'A' <= u <= 'Z' && u as int == c as int - 32
    ensures !('a' <= c <= 'z') ==> u == c
  {
    if 'a' <= c <= 'z' then (c as int - 32) as char else c
  }

  /** CapitaliseWord(word): changes at most the first character, to upper case. */
  function CapitaliseWord(word: string): (r: string)
    ensures |r| == |word|
    ensures |word| > 0 ==> r[0] == ToUpper(word[0]) && r[1..] == word[1..]
  {
    if |word| == 0 then ""
    else
      var first := word[0];
      var caps := ToUpper(first);
      if caps == first then word else [caps] + word[1..]
  }

  lemma CapitaliseWordProperties(word: string)
    ensures CapitaliseWord("") == ""
    ensures |word| > 0 && ToUpper(word[0]) == word[0] ==> CapitaliseWord(word) == word
    ensures CapitaliseWord(CapitaliseWord(word)) == CapitaliseWord(word)
  {
  }

  /** `string.Split(sep)`: the pieces between separators, empty ones included. */
  function Split(s: string, sep: char): (ws: seq<string>)
    ensures |ws| >= 1
    ensures forall i :: 0 <= i < |ws| ==> sep !in ws[i]
  {
    if |s| == 0 then [""]
    else
      var rest := Split(s[1..], sep);
      if s[0] == sep then [""] + rest else [[s[0]] + rest[0]] + rest[1..]
  }

  /** `string.Join(sep, ws)`. */
  function Join(ws: seq<string>, sep: char): string
    requires |ws| >= 1
  {
    if |ws| == 1 then ws[0] else ws[0] + [sep] + Join(ws[1..], sep)
  }

  lemma {:induction false} JoinSplit(s: string, sep: char)
    ensures Join(Split(s, sep), sep) == s
  {
    if |s| > 0 {
      JoinSplit(s[1..], sep);
      var rest := Split(s[1..], sep);
      if s[0] != sep {
        var ws := Split(s, sep);
        if |rest| > 1 {
          assert ws[1..] == rest[1..];
        }
      }
    }
  }

  /** What `CapitaliseString` builds from the pieces: each one capitalised and followed by a space. */
  function CapitaliseAll(words: seq<string>): string
  {
    if |words| == 0 then "" else CapitaliseWord(words[0]) + " " + CapitaliseAll(words[1..])
  }

  function CapitaliseEach(words: seq<string>): (r: seq<string>)
    ensures |r| == |words|
    ensures forall i :: 0 <= i < |words| ==> r[i] == CapitaliseWord(words[i])
  {
    if |words| == 0 then [] else [CapitaliseWord(words[0])] + CapitaliseEach(words[1..])
  }

  /** A text builder: its contents only ever grow at the end. */
  class StringBuilder {
    var contents: string

    constructor ()
      ensures contents == ""
    {
      contents := "";
    }

    method Append(s: string)
      modifies this
      ensures contents == old(contents) + s
    {
      contents := contents + s;
    }
  }

  /**
   * CapitaliseString: every space-separated piece is capitalised and
   * followed by one space. The joining words are never skipped, since the
   * flag that would allow it stays set.
   */
  method CapitaliseString(str: string) returns (r: string)
    ensures r == CapitaliseAll(Split(str, ' '))
  {
    var sb := new StringBuilder();
    var words := Split(str, ' ');
    var first := true;
    var i := 0;
    while i < |words|
      invariant 0 <= i <= |words|
      invariant first
      invariant sb.contents + CapitaliseAll(words[i..]) == CapitaliseAll(words)
    {
      var word := words[i];
      ghost var before := sb.contents;
      CapitaliseAllStep(sb.contents, words, i);
      i := i + 1;
      if !first && IsExcluded(word) {
        continue;
      }
      sb.Append(CapitaliseWord(word));
      sb.Append(" ");
      assert sb.contents == before + CapitaliseWord(word) + " ";
    }
    assert CapitaliseAll(words[i..]) == "";
    r := sb.contents;
  }

  lemma CapitaliseAllStep(built: string, words: seq<string>, i: int)
    requires 0 <= i < |words|
    ensures built + CapitaliseAll(words[i..]) == built + CapitaliseWord(words[i]) + " " + CapitaliseAll(words[i + 1..])
  {
    assert words[i..][1..] == words[i + 1..];
  }

  /** Membership in { "in", "the", "at" }, ignoring ASCII case. */
  predicate IsExcluded(word: string)
  {
    var lower := LowerAscii(word);
    lower == "in" || lower == "the" || lower == "at"
  }

  function LowerAscii(s: string): string
  {
    if |s| == 0 then "" else [if 'A' <= s[0] <= 'Z' then (s[0] as int + 32) as char else s[0]] + LowerAscii(s[1..])
  }

  lemma {:induction false} CapitaliseAllIsJoin(words: seq<string>)
    requires |words| >= 1
    ensures CapitaliseAll(words) == Join(CapitaliseEach(words), ' ') + " "
  {
    if |words| > 1 {
      CapitaliseAllIsJoin(words[1..]);
      assert CapitaliseEach(words)[1..] == CapitaliseEach(words[1..]);
    }
  }

  lemma {:induction false} JoinSameLengths(ws: seq<string>, vs: seq<string>, sep: char)
    requires |ws| == |vs| >= 1
    requires forall i :: 0 <= i < |ws| ==> |ws[i]| == |vs[i]|
    ensures |Join(ws, sep)| == |Join(vs, sep)|
  {
    if |ws| > 1 {
      JoinSameLengths(ws[1..], vs[1..], sep);
    }
  }

  /**
   * The result of CapitaliseString is the input with the first letter of
   * each piece raised, plus one trailing space: it is one longer and ends
   * in a space.
   */
  lemma CapitaliseStringShape(str: string)
    ensures CapitaliseAll(Split(str, ' ')) == Join(CapitaliseEach(Split(str, ' ')), ' ') + " "
    ensures |CapitaliseAll(Split(str, ' '))| == |str| + 1
    ensures CapitaliseAll(Split(str, ' '))[|str|] == ' '
  {
    var ws := Split(str, ' ');
    CapitaliseAllIsJoin(ws);
    JoinSameLengths(ws, CapitaliseEach(ws), ' ');
    JoinSplit(str, ' ');
  }

  /** The joining words are capitalised like any other. */
  lemma JoiningWordsCapitalised()
    ensures Split("in the at", ' ') == ["in", "the", "at"]
    ensures CapitaliseAll(Split("in the at", ' ')) == "In The At "
  {
    SplitJoiningWords();
    CapitaliseJoiningWords();
  }

  /** The capitalised sample sentence, word by word. */
  lemma CapitaliseJoiningWords()
    ensures CapitaliseAll(["in", "the", "at"]) == "In The At "
  {
    var words := ["in", "the", "at"];
    assert CapitaliseWord("at") == "At";
    assert words[2..] == ["at"] && words[3..] == [];
    assert CapitaliseAll(words[2..]) == "At ";
    assert CapitaliseWord("the") == "The";
    assert words[2..] == words[1..][1..];
    assert CapitaliseAll(words[1..]) == "The At ";
    assert CapitaliseWord("in") == "In";
  }

  /** The words of the sample sentence, split on spaces. */
  lemma SplitJoiningWords()
    ensures Split("in the at", ' ') == ["in", "the", "at"]
  {
    SplitTheAt();
    SplitWordThenSpace("in", "the at");
    assert "in" + [' '] + "the at" == "in the at";
  }

  lemma SplitTheAt()
    ensures Split("the at", ' ') == ["the", "at"]
  {
    SplitWithoutSeparator("at");
    SplitWordThenSpace("the", "at");
    assert "the" + [' '] + "at" == "the at";
  }

  /** A string without a space is one piece. */
  lemma {:induction false} SplitWithoutSeparator(w: string)
    requires forall i :: 0 <= i < |w| ==> w[i] != ' '
    ensures Split(w, ' ') == [w]
  {
    if |w| > 0 {
      SplitWithoutSeparator(w[1..]);
      assert [w[0]] + w[1..] == w;
    }
  }

  /** A word followed by a space is the first piece of what follows. */
  lemma {:induction false} SplitWordThenSpace(w: string, t: string)
    requires forall i :: 0 <= i < |w| ==> w[i] != ' '
    ensures Split(w + [' '] + t, ' ') == [w] + Split(t, ' ')
  {
    if |w| == 0 {
      assert w + [' '] + t == [' '] + t;
      assert ([' '] + t)[1..] == t;
    } else {
      assert (w + [' '] + t)[1..] == w[1..] + [' '] + t;
      SplitWordThenSpace(w[1..], t);
      assert [w[0]] + w[1..] == w;
    }
  }

  /** CapitaliseWord(word, destination): appends exactly CapitaliseWord(word). */
  method AppendCapitalisedWord(word: string, destination: StringBuilder)
    modifies destination
    ensures destination.contents == old(destination.contents) + CapitaliseWord(word)
  {
    if |word| == 0 {
      return;
    }
    var first := word[0];
    var caps := ToUpper(first);
    if caps == first {
      destination.Append(word);
    } else {
      destination.Append([caps] + word[1..]);
    }
  }
}
