/**
 * Ek-codes: the `CODE_RE = /^[A-Z0-9]{10}$/` check shared by the ticket
 * routes, the admin dashboard and the user page.
 */
module Codes {
  import opened Text

  const CODE_LENGTH: nat := 10

  predicate IsCodeChar(c: char) {
    IsUpper(c) || IsDigit(c)
  }

  /** `CODE_RE.test(s)`: exactly ten characters from [A-Z0-9]. */
  predicate ValidCode(s: string) {
    |s| == CODE_LENGTH && forall i :: 0 <= i < |s| ==> IsCodeChar(s[i])
  }

  /** A letter of either case or a digit: what upper-casing turns into a code character. */
  predicate IsAsciiAlnum(c: char) {
    IsUpper(c) || IsLower(c) || IsDigit(c)
  }

  /**
   * Codes are entered case-insensitively and upper-cased before the check:
   * the upper-cased input passes exactly when the input is ten ASCII letters
   * (of either case) or digits.
   */
  lemma UpperCasedValid(s: string)
    ensures ValidCode(ToUpper(s)) <==> |s| == CODE_LENGTH && forall i :: 0 <= i < |s| ==> IsAsciiAlnum(s[i])
  {
    if ValidCode(ToUpper(s)) {
      forall i | 0 <= i < |s| ensures IsAsciiAlnum(s[i]) {
        assert IsCodeChar(ToUpper(s)[i]);
      }
    }
  }

  /** A valid code is already upper case: normalising it again changes nothing. */
  lemma ValidCodeIsUpper(s: string)
    requires ValidCode(s)
    ensures ToUpper(s) == s
  {
  }

  /** A valid code holds no white space and no CSV field separator. */
  lemma ValidCodeIsPlain(s: string)
    requires ValidCode(s)
    ensures forall i :: 0 <= i < |s| ==> !IsJsWhitespace(s[i]) && !IsFieldSeparator(s[i])
  {
  }
}
