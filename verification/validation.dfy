/**
 * The text-box validation rules: the current `TextBoxValidation` and the
 * older one built on `ValidationRuleBase`. The file system they consult is
 * a parameter: the set of existing files and the set of existing
 * directories.
 */
module Validation {

  import opened DotNet
  import Int32Parsing
  import Extensions

  datatype ValidationResult = Valid | Invalid(message: string)

  datatype FileSystem = FileSystem(files: set<string>, directories: set<string>)

  /** `value as string`: the string, or null for anything else. */
  function AsString(value: Boxed): Option<string>
  {
    if value.BoxedString? then Some(value.s) else None
  }

  /** `String.IsNullOrEmpty(value as string)`. */
  predicate IsNullOrEmpty(value: Boxed)
  {
    AsString(value) == None || AsString(value) == Some("")
  }

  /** isDirectory: the path exists and has the directory attribute. */
  predicate IsDirectory(fs: FileSystem, path: string)
  {
    if path !in fs.files && path !in fs.directories then false
    else path in fs.directories
  }

  /** isFile: whatever is not a directory, existing or not. */
  predicate IsFile(fs: FileSystem, path: string)
  {
    !IsDirectory(fs, path)
  }

  /**
   * A path counts as a directory exactly when the directory exists, and
   * everything else counts as a file, including a path that does not exist.
   */
  lemma DirectoryOrFile(fs: FileSystem, path: string)
    ensures IsDirectory(fs, path) <==> path in fs.directories
    ensures IsFile(fs, path) <==> path !in fs.directories
    ensures path !in fs.files && path !in fs.directories ==> IsFile(fs, path)
  {
  }

  /** The existence check both rules share. */
  function ExistenceCheck(fs: FileSystem, val: string): (r: ValidationResult)
    ensures r == Valid <==> val in fs.directories
    ensures val in fs.files && val !in fs.directories ==> r == Invalid("Specified directory doesn't exist!")
  {
    if IsFile(fs, val) && val !in fs.files then Invalid("Specified file doesn't exist!")
    else if val !in fs.directories then Invalid("Specified directory doesn't exist!")
    else Valid
  }

  // ---------------------------------------------------------------- TextBoxValidation

  /** The format the current rule accepts: `<letter>:\`, where a letter is any non-digit. */
  predicate LetterDrivePrefix(val: string)
  {
    |val| >= 3 && Extensions.IsLetterChar(val[0]) && val[1] == ':' && val[2] == '\\'
  }

  /** TextBoxValidation.Validate. */
  function Validate(checkIfExists: bool, isNumbers: bool, fs: FileSystem, value: Boxed): (r: ValidationResult)
    ensures IsNullOrEmpty(value) ==> r == Invalid("Value can't be empty.")
  {
    if IsNullOrEmpty(value) then Invalid("Value can't be empty.")
    else
      var val := value.s;
      if isNumbers then
        if Int32Parsing.TryParse(val).None? then Invalid("Not a valid number") else Valid
      else if checkIfExists then ExistenceCheck(fs, val)
      else if |val| < 3 || !(Extensions.IsLetterChar(val[0]) && val[1] == ':' && val[2] == '\\') then
        Invalid("Path is in invalid format.")
      else Valid
  }

  /**
   * What the current rule accepts: in number mode exactly the strings
   * Int32.TryParse accepts, in existence mode exactly the existing
   * directories, and otherwise exactly the strings that start with a
   * non-digit, a colon and a backslash.
   */
  lemma ValidateAccepts(checkIfExists: bool, isNumbers: bool, fs: FileSystem, val: string)
    requires val != ""
    ensures isNumbers ==>
      (Validate(checkIfExists, isNumbers, fs, BoxedString(val)) == Valid <==> Int32Parsing.TryParse(val).Some?)
    ensures !isNumbers && checkIfExists ==>
      (Validate(checkIfExists, isNumbers, fs, BoxedString(val)) == Valid <==> val in fs.directories)
    ensures !isNumbers && !checkIfExists ==>
      (Validate(checkIfExists, isNumbers, fs, BoxedString(val)) == Valid <==>
        |val| >= 3 && !('0' <= val[0] <= '9') && val[1] == ':' && val[2] == '\\')
  {
    if |val| >= 3 {
      Extensions.CharClasses(val[0]);
    }
  }

  // ---------------------------------------------------------------- the older rule

  /** The older rule's format check, `^[a-zA-Z]:\\`. */
  predicate AsciiDrivePrefix(val: string)
  {
    |val| >= 3 && ('a' <= val[0] <= 'z' || 'A' <= val[0] <= 'Z') && val[1] == ':' && val[2] == '\\'
  }

  /** Int32.TryParse's out value: the number, or 0 when parsing fails. */
  function ParsedOrZero(val: string): (num: int)
    ensures Int32Parsing.TryParse(val).Some? ==> num == Int32Parsing.TryParse(val).value
    ensures Int32Parsing.TryParse(val).None? ==> num == 0
  {
    match Int32Parsing.TryParse(val)
    case Some(n) => n
    case None => 0
  }

  /**
   * The number branch accepts a string exactly when it parses and, when Min
   * and Max differ, lies between them; equal bounds switch the range check
   * off. A string that does not parse counts as 0 for the range check,
   * whose message then replaces "Not a valid number".
   */
  function NumberResult(val: string, min: int, max: int): (r: ValidationResult)
    ensures r == Valid <==>
      Int32Parsing.TryParse(val).Some? && (min != max ==> min <= Int32Parsing.TryParse(val).value <= max)
    ensures Int32Parsing.TryParse(val).None? && min != max && 0 > max ==>
      r == Invalid("Must be smaller than " + Int32Parsing.Format(max))
    ensures Int32Parsing.TryParse(val).None? && min != max && 0 <= max && 0 < min ==>
      r == Invalid("Must be larger than " + Int32Parsing.Format(min))
    ensures Int32Parsing.TryParse(val).None? && (min == max || min <= 0 <= max) ==> r == Invalid("Not a valid number")
  {
    var num := ParsedOrZero(val);
    var parsed := if Int32Parsing.TryParse(val).None? then Invalid("Not a valid number") else Valid;
    if min != max then
      if num > max then Invalid("Must be smaller than " + Int32Parsing.Format(max))
      else if num < min then Invalid("Must be larger than " + Int32Parsing.Format(min))
      else parsed
    else parsed
  }

  /**
   * The older DoValidate's result, given the IsNumber it starts with.
   * Requiring existence overrides number mode; the path branch accepts
   * exactly the strings that start with an ASCII letter, a colon and a
   * backslash and, when existence is required, name an existing directory.
   */
  function OldResult(requireExistence: bool, isNumber: bool, min: int, max: int, fs: FileSystem, value: Boxed): (r: ValidationResult)
    ensures IsNullOrEmpty(value) ==> r == Invalid("Value can't be empty.")
    ensures !IsNullOrEmpty(value) && isNumber && !requireExistence ==> r == NumberResult(value.s, min, max)
    ensures !IsNullOrEmpty(value) && (!isNumber || requireExistence) ==>
      (r == Valid <==> AsciiDrivePrefix(value.s) && (requireExistence ==> value.s in fs.directories))
  {
    if IsNullOrEmpty(value) then Invalid("Value can't be empty.")
    else
      var val := value.s;
      if isNumber && !requireExistence then NumberResult(val, min, max)
      else if |val| < 3 then Invalid("Need more characters")
      else if !AsciiDrivePrefix(val) then Invalid("Path should be <letter>:\\")
      else if requireExistence then ExistenceCheck(fs, val)
      else Valid
  }

  /** The two rules disagree on a drive "letter" that is punctuation. */
  lemma RulesDisagree(fs: FileSystem)
    ensures Validate(false, false, fs, BoxedString("?:\\")) == Valid
    ensures OldResult(false, false, 0, 0, fs, BoxedString("?:\\")) == Invalid("Path should be <letter>:\\")
  {
    var v := "?:\\";
    assert |v| == 3 && v[0] == '?' && v[1] == ':' && v[2] == '\\';
    ValidateAccepts(false, false, fs, v);
  }

  /**
   * The older rule (ValidationRuleBase and TextBoxValidation together):
   * inactive rules pass everything; DoValidate switches number mode off for
   * good once existence is required.
   */
  class OldTextBoxValidation {
    var isActive: bool
    var requireExistence: bool
    var isNumber: bool
    var min: int
    var max: int

    /** ValidationRuleBase's constructor: active; the properties start at their defaults. */
    constructor ()
      ensures isActive && !requireExistence && !isNumber && min == 0 && max == 0
    {
      isActive := true;
      requireExistence := false;
      isNumber := false;
      min := 0;
      max := 0;
    }

    method DoValidate(fs: FileSystem, value: Boxed) returns (r: ValidationResult)
      modifies this
      ensures r == OldResult(requireExistence, old(isNumber), min, max, fs, value)
      ensures isNumber == if IsNullOrEmpty(value) then old(isNumber) else old(isNumber) && !requireExistence
      ensures isActive == old(isActive) && requireExistence == old(requireExistence)
      ensures min == old(min) && max == old(max)
    {
      if IsNullOrEmpty(value) {
        return Invalid("Value can't be empty.");
      }
      var val := value.s;
      var result := Valid;
      if requireExistence {
        isNumber := false;
      }
      if isNumber {
        var parsed := Int32Parsing.TryParse(val);
        var num := if parsed.Some? then parsed.value else 0;
        if parsed.None? {
          result := Invalid("Not a valid number");
        }
        if min != max {
          if num > max {
            result := Invalid("Must be smaller than " + Int32Parsing.Format(max));
          } else if num < min {
            result := Invalid("Must be larger than " + Int32Parsing.Format(min));
          }
        }
      } else {
        if |val| < 3 {
          return Invalid("Need more characters");
        }
        if !AsciiDrivePrefix(val) {
          return Invalid("Path should be <letter>:\\");
        }
        if requireExistence {
          if IsFile(fs, val) && val !in fs.files {
            result := Invalid("Specified file doesn't exist!");
          } else if val !in fs.directories {
            result := Invalid("Specified directory doesn't exist!");
          }
        }
      }
      return result;
    }

    /** ValidationRuleBase.Validate: an inactive rule passes everything. */
    method Validate(fs: FileSystem, value: Boxed) returns (r: ValidationResult)
      modifies this
      ensures !old(isActive) ==> r == Valid && isNumber == old(isNumber)
      ensures old(isActive) ==> r == OldResult(requireExistence, old(isNumber), min, max, fs, value)
      ensures isActive == old(isActive) && requireExistence == old(requireExistence)
      ensures min == old(min) && max == old(max)
    {
      if !isActive {
        return Valid;
      }
      r := DoValidate(fs, value);
    }
  }
}
