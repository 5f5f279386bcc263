/**
 * Phone numbers of the contact book: the validation rule and the
 * validating constructor (class `Phone` in oop_bot.py).
 *
 * The source validates with `re.match(r'^\d{10}$', phone)`. Two details of
 * Python's regular expressions are not the intended rule "exactly ten
 * digits": `$` also matches just before one trailing newline, and `\d`
 * also matches non-ASCII decimal digits. The first is modelled below as
 * `ValidateAsWritten` and exhibited by `AsWrittenAcceptsTrailingNewline`;
 * the rest of the model uses the corrected `Validate`. Non-ASCII digits are
 * not modelled: a digit here is one of '0'..'9'.
 */
module Phone {
  import opened Wrappers

  /** The source raises plain `ValueError` for every failure; only the message differs. */
  datatype Error = ValueError(message: string)

  const InvalidMessage: string := "Phone number must contain 10 digits"

  /** Number of digits in a phone number. */
  const Length: nat := 10

  predicate IsDigit(c: char) {
    '0' <= c <= '9'
  }

  /** The intended rule, stated declaratively: exactly ten digits and nothing else. */
  ghost predicate IsPhoneNumber(s: string) {
    |s| == Length && forall i :: 0 <= i < |s| ==> IsDigit(s[i])
  }

  /** The pattern `\d{n}` followed by an end-of-string anchor that matches only at the very end. */
  function MatchDigitsThenEnd(s: string, n: nat): bool
    decreases n
  {
    if n == 0 then |s| == 0
    else |s| > 0 && IsDigit(s[0]) && MatchDigitsThenEnd(s[1..], n - 1)
  }

  /** The matcher accepts exactly the strings of `n` digits. */
  lemma {:induction false} MatchDigitsThenEndCorrect(s: string, n: nat)
    ensures MatchDigitsThenEnd(s, n) <==> |s| == n && forall i :: 0 <= i < |s| ==> IsDigit(s[i])
    decreases n
  {
    if n > 0 && |s| > 0 {
      MatchDigitsThenEndCorrect(s[1..], n - 1);
      if forall i :: 0 <= i < |s| ==> IsDigit(s[i]) {
        assert forall i :: 0 <= i < |s[1..]| ==> IsDigit(s[1..][i]) by {
          forall i | 0 <= i < |s[1..]| ensures IsDigit(s[1..][i]) {
            assert s[1..][i] == s[i + 1];
          }
        }
      }
      if IsDigit(s[0]) && forall i :: 0 <= i < |s[1..]| ==> IsDigit(s[1..][i]) {
        forall i | 0 <= i < |s| ensures IsDigit(s[i]) {
          if i > 0 {
            assert s[i] == s[1..][i - 1];
          }
        }
      }
    }
  }

  /** `Phone.validate`: true exactly for strings of ten digits. */
  function Validate(s: string): (ok: bool)
    ensures ok <==> IsPhoneNumber(s)
  {
    MatchDigitsThenEndCorrect(s, Length);
    MatchDigitsThenEnd(s, Length)
  }

  /** `Phone(value)`: the value itself when it is valid, otherwise `ValueError`. */
  function NewPhone(s: string): (r: Result<string, Error>)
    ensures r.Success? <==> IsPhoneNumber(s)
    ensures r.Success? ==> r.value == s
    ensures r.Failure? ==> r.error == ValueError(InvalidMessage)
  {
    if Validate(s) then Success(s) else Failure(ValueError(InvalidMessage))
  }

  // ----- The validation exactly as written, with Python's `$` -----

  /**
   * The pattern `\d{n}$` under Python's `re.match` without MULTILINE: after the
   * digits, `$` matches at the end of the string or just before a newline that
   * is the last character.
   */
  function MatchDigitsThenDollar(s: string, n: nat): bool
    decreases n
  {
    if n == 0 then |s| == 0 || s == "\n"
    else |s| > 0 && IsDigit(s[0]) && MatchDigitsThenDollar(s[1..], n - 1)
  }

  /**
   * `Phone.validate` as written: it accepts the intended strings and also any
   * of them followed by one newline, and nothing else.
   */
  function ValidateAsWritten(s: string): (ok: bool)
    ensures ok <==> IsPhoneNumber(s) || (|s| == Length + 1 && s[Length] == '\n' && IsPhoneNumber(s[..Length]))
  {
    MatchDigitsThenDollarShape(s, Length);
    MatchDigitsThenEndCorrect(s, Length);
    if |s| == Length + 1 then
      MatchDigitsThenEndCorrect(s[..Length], Length);
      MatchDigitsThenDollar(s, Length)
    else
      MatchDigitsThenDollar(s, Length)
  }

  /** The as-written matcher accepts the intended strings plus those strings followed by one newline. */
  lemma {:induction false} MatchDigitsThenDollarShape(s: string, n: nat)
    ensures MatchDigitsThenDollar(s, n) <==>
              MatchDigitsThenEnd(s, n) || (|s| == n + 1 && s[n] == '\n' && MatchDigitsThenEnd(s[..n], n))
    decreases n
  {
    if n > 0 && |s| > 0 {
      MatchDigitsThenDollarShape(s[1..], n - 1);
      if |s| == n + 1 {
        assert s[1..][n - 1] == s[n];
        assert s[..n][1..] == s[1..][..n - 1];
        assert s[..n][0] == s[0];
      }
    }
  }

  /** The counterexample: ten digits and a newline pass the as-written check but are not a phone number. */
  lemma AsWrittenAcceptsTrailingNewline()
    ensures ValidateAsWritten("1234567890\n")
    ensures !IsPhoneNumber("1234567890\n")
    ensures !Validate("1234567890\n")
  {
    assert "1234567890\n"[..Length] == "1234567890";
  }
}
