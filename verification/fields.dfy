/**
 * The validated fields of a contact: a phone number of exactly ten digits and
 * a birthday read from, and written back as, `DD.MM.YYYY`.
 */
module Fields {
  import opened Wrappers
  import opened Errors
  import opened Calendar

  const PhoneLength := 10

  predicate IsDigit(c: char) {
    '0' <= c <= '9'
  }

  predicate AllDigitsAt(s: string) {
    forall i :: 0 <= i < |s| ==> IsDigit(s[i])
  }

  /** Scans `s` character by character, as `str.isdigit` does. */
  function AllDigits(s: string): (b: bool)
    ensures b <==> AllDigitsAt(s)
  {
    |s| == 0 || (IsDigit(s[0]) && AllDigits(s[1..]))
  }

  /** `str.isdigit()` on ASCII text: false for the empty string. */
  function IsDigitString(s: string): bool {
    |s| > 0 && AllDigits(s)
  }

  predicate IsValidPhone(s: string) {
    |s| == PhoneLength && AllDigitsAt(s)
  }

  /** A phone number as `Phone` stores it: the validated text itself. */
  type Phone = s: string | IsValidPhone(s) witness "0000000000"

  /** `Phone(value)`: accepts exactly ten digits and keeps the text as given. */
  function NewPhone(value: string): (r: Result<Phone, Error>)
    ensures r.Ok? <==> |value| == PhoneLength && forall i :: 0 <= i < |value| ==> IsDigit(value[i])
    ensures r.Ok? ==> r.value == value
    ensures r.Err? ==> r.error == InvalidPhone
  {
    if IsDigitString(value) && |value| == PhoneLength then Ok(value) else Err(InvalidPhone)
  }

  /** `Phone.set`: the phone after the call, and whether the call raised. */
  function SetPhone(p: Phone, newValue: string): (r: (Phone, Outcome<Error>))
    ensures r.1.Pass? <==> |newValue| == PhoneLength && forall i :: 0 <= i < |newValue| ==> IsDigit(newValue[i])
    ensures r.1.Pass? ==> r.0 == newValue
    ensures r.1.Fail? ==> r.0 == p && r.1.error == InvalidPhone
  {
    match NewPhone(newValue)
    case Ok(q) => (q, Pass)
    case Err(e) => (p, Fail(e))
  }

  function DigitValue(c: char): int
    requires IsDigit(c)
  {
    c as int - '0' as int
  }

  function DigitChar(n: int): (c: char)
    requires 0 <= n < 10
    ensures IsDigit(c) && DigitValue(c) == n
  {
    ('0' as int + n) as char
  }

  function Pow10(k: nat): (p: nat)
    ensures p >= 1
  {
    if k == 0 then 1 else 10 * Pow10(k - 1)
  }

  /** The decimal number a digit string denotes, most significant digit first. */
  function DigitsValue(s: string): (n: nat)
    requires AllDigitsAt(s)
    ensures n < Pow10(|s|)
  {
    if |s| == 0 then 0 else DigitsValue(s[..|s| - 1]) * 10 + DigitValue(s[|s| - 1])
  }

  /** `n` written with exactly `width` decimal digits, zero-padded on the left. */
  function Pad(n: nat, width: nat): (s: string)
    ensures |s| == width && AllDigitsAt(s)
  {
    if width == 0 then [] else Pad(n / 10, width - 1) + [DigitChar(n % 10)]
  }

  lemma {:induction false} PadValue(n: nat, width: nat)
    requires n < Pow10(width)
    ensures DigitsValue(Pad(n, width)) == n
  {
    if width > 0 {
      var s := Pad(n, width);
      assert s[..|s| - 1] == Pad(n / 10, width - 1);
      PadValue(n / 10, width - 1);
    }
  }

  lemma {:induction false} ValuePad(s: string)
    requires AllDigitsAt(s)
    ensures Pad(DigitsValue(s), |s|) == s
  {
    if |s| > 0 {
      var pre := s[..|s| - 1];
      ValuePad(pre);
      assert DigitsValue(s) / 10 == DigitsValue(pre);
      assert s == pre + [s[|s| - 1]];
    }
  }

  /** A text of the `DD.MM.YYYY` shape is the padded rendering of its three numbers. */
  lemma Rebuild(s: string)
    requires |s| == 10 && s[2] == '.' && s[5] == '.'
    requires AllDigitsAt(s[0..2]) && AllDigitsAt(s[3..5]) && AllDigitsAt(s[6..10])
    ensures Pad(DigitsValue(s[0..2]), 2) + "." + Pad(DigitsValue(s[3..5]), 2) + "." + Pad(DigitsValue(s[6..10]), 4) == s
  {
    ValuePad(s[0..2]);
    ValuePad(s[3..5]);
    ValuePad(s[6..10]);
    assert s == s[0..2] + "." + s[3..5] + "." + s[6..10];
  }

  /** `Birthday.__str__`: `DD.MM.YYYY`, every field zero-padded. */
  function FormatDate(d: Date): (s: string)
    requires ValidDate(d)
    ensures |s| == 10 && s[2] == '.' && s[5] == '.'
    ensures AllDigitsAt(s[0..2]) && DigitsValue(s[0..2]) == d.day
    ensures AllDigitsAt(s[3..5]) && DigitsValue(s[3..5]) == d.month
    ensures AllDigitsAt(s[6..10]) && DigitsValue(s[6..10]) == d.year
  {
    var s := Pad(d.day, 2) + "." + Pad(d.month, 2) + "." + Pad(d.year, 4);
    assert s[0..2] == Pad(d.day, 2);
    assert s[3..5] == Pad(d.month, 2);
    assert s[6..10] == Pad(d.year, 4);
    PadValue(d.day, 2);
    PadValue(d.month, 2);
    PadValue(d.year, 4);
    s
  }

  /**
   * `Birthday(value)`: reads `DD.MM.YYYY` and accepts it only when it names a
   * real calendar date; the stored date prints back as exactly the input.
   */
  function ParseDate(s: string): (r: Result<Date, Error>)
    ensures r.Ok? ==> ValidDate(r.value) && FormatDate(r.value) == s
    ensures r.Err? ==> r.error == InvalidDate
  {
    if |s| == 10 && s[2] == '.' && s[5] == '.'
       && AllDigits(s[0..2]) && AllDigits(s[3..5]) && AllDigits(s[6..10])
    then
      var d := Date(DigitsValue(s[6..10]), DigitsValue(s[3..5]), DigitsValue(s[0..2]));
      if ValidDate(d) then
        Rebuild(s);
        Ok(d)
      else
        Err(InvalidDate)
    else
      Err(InvalidDate)
  }

  /** Every valid date survives printing and re-reading. */
  lemma FormatThenParse(d: Date)
    requires ValidDate(d)
    ensures ParseDate(FormatDate(d)) == Ok(d)
  {
  }

  /** The parser accepts a text for a date exactly when that date prints as the text. */
  lemma ParseIffFormat(s: string, d: Date)
    requires ValidDate(d)
    ensures ParseDate(s) == Ok(d) <==> FormatDate(d) == s
  {
    if FormatDate(d) == s {
      FormatThenParse(d);
    }
  }
}
