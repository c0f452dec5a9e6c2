/**
 * The WPF value converters. Values and parameters arrive as `object`;
 * calling GetType() on a null one throws, and a cast to the wrong type
 * throws InvalidCast.
 */
module Converters {

  import opened DotNet
  import Int32Parsing

  // ---------------------------------------------------------------- BoolToVisibilityConverter

  /**
   * BoolToVisibilityConverter.Convert: a boolean value becomes Visible or
   * Collapsed, anything else Hidden; a true parameter inverts the boolean.
   */
  function BoolToVisibility(value: Boxed, parameter: Boxed): (r: Result<Visibility>)
    ensures value.Null? ==> r == Throws(NullReference)
    ensures !value.Null? && !parameter.Null? && !parameter.BoxedBool? ==> r == Throws(InvalidCast)
  {
    if value.Null? then Throws(NullReference)
    else
      var val: Option<bool> := if value.BoxedBool? then Some(value.b) else None;
      if !parameter.Null? && !parameter.BoxedBool? then Throws(InvalidCast)
      else
        var inverted := if parameter.BoxedBool? && parameter.b then (if val.Some? then Some(!val.value) else None) else val;
        if inverted == Some(true) then Ok(Visible)
        else if inverted.None? then Ok(Hidden)
        else Ok(Collapsed)
  }

  /**
   * A boolean shows exactly when it differs from the inversion flag (a null
   * parameter does not invert); any other value is Hidden; Convert never
   * throws for a non-null value and a boolean or null parameter.
   */
  lemma BoolToVisibilityTable(value: Boxed, parameter: Boxed)
    requires !value.Null? && (parameter.Null? || parameter.BoxedBool?)
    ensures var invert := parameter.BoxedBool? && parameter.b;
      BoolToVisibility(value, parameter) ==
        if !value.BoxedBool? then Ok(Hidden)
        else if value.b != invert then Ok(Visible)
        else Ok(Collapsed)
  {
  }

  /** Inverting a boolean is the same as converting its negation without inversion. */
  lemma BoolToVisibilityInverts(b: bool)
    ensures BoolToVisibility(BoxedBool(b), BoxedBool(true)) == BoolToVisibility(BoxedBool(!b), Null)
    ensures BoolToVisibility(BoxedBool(b), BoxedBool(false)) == BoolToVisibility(BoxedBool(b), Null)
  {
    BoolToVisibilityTable(BoxedBool(b), BoxedBool(true));
    BoolToVisibilityTable(BoxedBool(!b), Null);
  }

  /** ConvertBack of BoolToVisibility, StringToInt and IntsEqual: not implemented. */
  function ConvertBackNotImplemented(value: Boxed, parameter: Boxed): (r: Result<Boxed>)
    ensures r == Throws(NotImplemented)
  {
    Throws(NotImplemented)
  }

  // ---------------------------------------------------------------- MutuallyExclusiveCheckersConverter

  /** Convert: a boolean, inverted by a true boolean parameter; anything else is false. */
  function MutuallyExclusiveConvert(value: Boxed, parameter: Boxed): (r: bool)
    ensures !value.BoxedBool? ==> !r
    ensures value.BoxedBool? && !parameter.BoxedBool? ==> r == value.b
    ensures value.BoxedBool? && parameter.BoxedBool? ==> r == (value.b != parameter.b)
  {
    if value.Null? then false
    else if value.BoxedBool? then
      var val := value.b;
      if !parameter.Null? && parameter.BoxedBool? then (if parameter.b then !val else val)
      else val
    else false
  }

  /**
   * ConvertBack: a checked box gives back the boolean that converts to
   * checked; an unchecked one gives null, which leaves the source alone; a
   * non-boolean gives false.
   */
  function MutuallyExclusiveConvertBack(value: Boxed, parameter: Boxed): (r: Result<Boxed>)
    ensures value.Null? ==> r == Throws(NullReference)
    ensures !value.Null? && !value.BoxedBool? ==> r == Ok(BoxedBool(false))
    ensures value.BoxedBool? ==> r.Ok? && (r.value.Null? || r.value.BoxedBool?)
  {
    if value.Null? then Throws(NullReference)
    else if value.BoxedBool? then
      var val := value.b;
      if !parameter.Null? && parameter.BoxedBool? then
        Ok(if parameter.b then (if !val then Null else BoxedBool(false)) else (if val then BoxedBool(true) else Null))
      else
        Ok(if val then BoxedBool(true) else Null)
    else Ok(BoxedBool(false))
  }

  /**
   * The round trip the converter exists for: converting what ConvertBack
   * gives back yields the box state again, for every parameter (an unchecked
   * box gives null, which converts to false); ConvertBack answers with a
   * boolean exactly for a checked box; and a source that shows checked is
   * what ConvertBack recovers.
   */
  lemma MutuallyExclusiveRoundTrip(checked: bool, source: bool, parameter: Boxed)
    ensures var back := MutuallyExclusiveConvertBack(BoxedBool(checked), parameter);
      && (back.value.BoxedBool? <==> checked)
      && MutuallyExclusiveConvert(back.value, parameter) == checked
    ensures MutuallyExclusiveConvert(BoxedBool(source), parameter) ==>
      MutuallyExclusiveConvertBack(BoxedBool(true), parameter) == Ok(BoxedBool(source))
  {
  }

  // ---------------------------------------------------------------- StringToIntConverter

  const SingleCharMessage := "Value must be a single character string"

  /** StringToIntConverter.Convert: a one-character string parsed as an int. */
  function StringToInt(value: Boxed): (r: Result<int>)
    ensures value.Null? ==> r == Throws(NullReference)
    ensures !value.Null? && !value.BoxedString? ==> r == Throws(InvalidOperation(SingleCharMessage))
    ensures value.BoxedString? && |value.s| > 1 ==> r == Throws(InvalidOperation(SingleCharMessage))
  {
    if value.Null? then Throws(NullReference)
    else if !value.BoxedString? then Throws(InvalidOperation(SingleCharMessage))
    else
      var val := value.s;
      if |val| > 1 then Throws(InvalidOperation(SingleCharMessage))
      else match Int32Parsing.TryParse(val)
        case None => Throws(InvalidOperation("Conversion failed."))
        case Some(res) => Ok(res)
  }

  /**
   * Only a single decimal digit converts, to its value; the empty string and
   * any other single character fail the parse.
   */
  lemma StringToIntDigits(value: Boxed)
    ensures StringToInt(value).Ok? <==> value.BoxedString? && |value.s| == 1 && '0' <= value.s[0] <= '9'
    ensures StringToInt(value).Ok? ==> StringToInt(value).value == (value.s[0] as int) - ('0' as int)
    ensures value.BoxedString? && |value.s| <= 1 && !StringToInt(value).Ok? ==>
      StringToInt(value) == Throws(InvalidOperation("Conversion failed."))
  {
    if value.BoxedString? && |value.s| == 1 {
      assert value.s == [value.s[0]];
      Int32Parsing.TryParseOneChar(value.s[0]);
    }
  }

  // ---------------------------------------------------------------- IntsEqualConverter

  /**
   * IntsEqualConverter.Convert: whether two ints are equal. A value that is
   * not an int is refused before the parameter is looked at.
   */
  function IntsEqual(value: Boxed, parameter: Boxed): (r: Result<bool>)
    ensures value.BoxedInt? && parameter.BoxedInt? ==> r == Ok(value.i == parameter.i)
    ensures r.Ok? <==> value.BoxedInt? && parameter.BoxedInt?
    ensures value.Null? || (value.BoxedInt? && parameter.Null?) ==> r == Throws(NullReference)
    ensures !value.Null? && !value.BoxedInt? ==> r == Throws(InvalidCast)
  {
    if value.Null? then Throws(NullReference)
    else if !value.BoxedInt? then Throws(InvalidCast)
    else if parameter.Null? then Throws(NullReference)
    else if parameter.BoxedInt? then Ok(value.i == parameter.i)
    else Throws(InvalidCast)
  }

  /** Equality is symmetric: swapping value and parameter gives the same answer. */
  lemma IntsEqualSymmetric(a: int, b: int)
    ensures IntsEqual(BoxedInt(a), BoxedInt(b)) == IntsEqual(BoxedInt(b), BoxedInt(a))
    ensures IntsEqual(BoxedInt(a), BoxedInt(a)) == Ok(true)
  {
  }
}
