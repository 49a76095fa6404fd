/** The regular expressions shared by processor.py and review_tool.py, as
    predicates on strings: where a match of each pattern can start.
    Character classes follow their ASCII meaning.
 */
module Patterns {
  import opened Text

  /** The character classes used by the "unusual pattern" regexes. */
  datatype CharClass =
    | NonWordNonSpace  // [^\w\s]
    | Digit            // \d
    | Symbol           // [|@#$%^&*]

  predicate InClass(cls: CharClass, c: char) {
    match cls
    case NonWordNonSpace => !IsWordChar(c) && !IsSpace(c)
    case Digit => IsDigit(c)
    case Symbol => c in "|@#$%^&*"
  }

  /** `(.)\1{3,}` matches at `i`: four copies of one non-newline character. */
  predicate RepeatedAt(text: string, i: int) {
    0 <= i && i + 4 <= |text| && text[i] != '\n'
    && text[i + 1] == text[i] && text[i + 2] == text[i] && text[i + 3] == text[i]
  }

  predicate HasRepeatedRun(text: string) {
    exists i | 0 <= i <= |text| - 4 :: RepeatedAt(text, i)
  }

  /** `[a-z][A-Z]` matches at `i`. */
  predicate CaseJoinAt(text: string, i: int) {
    0 <= i && i + 2 <= |text| && IsLower(text[i]) && IsUpper(text[i + 1])
  }

  predicate HasCaseJoin(text: string) {
    exists i | 0 <= i <= |text| - 2 :: CaseJoinAt(text, i)
  }

  /** `n` characters of class `cls` start at `i`. */
  predicate RunAt(text: string, cls: CharClass, i: int, n: nat) {
    0 <= i && i + n <= |text| && forall j :: i <= j < i + n ==> InClass(cls, text[j])
  }

  /** `[class]{min,}` matches somewhere in `text`. */
  predicate HasRun(text: string, cls: CharClass, min: nat) {
    exists i | 0 <= i <= |text| - min :: RunAt(text, cls, i, min)
  }
}
