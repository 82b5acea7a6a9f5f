/**
  `BusinessUtils.formatPhone`: display form `+91 XXXXX XXXXX` of a ten-digit
  Indian number, or the input unchanged.
 */
module PhoneFormat {
  import opened Text
  import Validation

  const CountryPrefix: string := "+91 "

  /** Strips every non-digit; ten digits are regrouped as five and five after the
      country prefix, any other count returns the input as given. */
  function FormatPhone(phone: string): (r: string)
    ensures |Digits(phone)| == 10 ==> |r| == 15 && r[..4] == CountryPrefix && r[9] == ' '
    ensures |Digits(phone)| == 10 ==> r[4..9] + r[10..] == Digits(phone)
    ensures |Digits(phone)| != 10 ==> r == phone
  {
    var d := Digits(phone);
    if |d| == 10 then
      var r := CountryPrefix + d[..5] + " " + d[5..];
      assert r == (CountryPrefix + d[..5]) + [' '] + d[5..];
      assert r[9] == ' ';
      assert r[..4] == CountryPrefix && r[4..9] == d[..5] && r[10..] == d[5..];
      r
    else phone
  }

  /** The digits of the country prefix are the country code. */
  lemma PrefixDigits()
    ensures Digits(CountryPrefix) == "91"
    ensures Digits(" ") == []
  {
    assert CountryPrefix[1..] == "91 ";
    assert "91 "[1..] == "1 ";
    assert "1 "[1..] == " ";
    assert " "[1..] == [];
  }

  /** The digits of a display string are the country code and the two groups. */
  lemma {:induction false} DisplayDigits(a: string, b: string)
    requires AllDigits(a) && AllDigits(b)
    ensures Digits(CountryPrefix + a + " " + b) == "91" + a + b
  {
    DigitsOfAllDigits(a);
    DigitsOfAllDigits(b);
    PrefixDigits();
    DigitsAppend(CountryPrefix, a);
    DigitsAppend(CountryPrefix + a, " ");
    DigitsAppend(CountryPrefix + a + " ", b);
  }

  /** The formatted string carries the country code followed by the original
      digits, so the local number can be read back from it. */
  lemma {:induction false} FormattedDigits(phone: string)
    requires |Digits(phone)| == 10
    ensures Digits(FormatPhone(phone)) == "91" + Digits(phone)
  {
    var d := Digits(phone);
    var a, b := d[..5], d[5..];
    assert FormatPhone(phone) == CountryPrefix + a + " " + b;
    DisplayDigits(a, b);
    assert "91" + a + b == "91" + d;
  }

  /** The local number is recovered from the display form by taking its digits
      after the country code. */
  lemma LocalNumberRoundTrip(phone: string)
    requires |Digits(phone)| == 10
    ensures |Digits(FormatPhone(phone))| == 12
    ensures Digits(FormatPhone(phone))[2..] == Digits(phone)
  {
    FormattedDigits(phone);
  }

  /** Formatting twice is formatting once: the display form has twelve digits,
      so the second call returns it unchanged. */
  lemma FormatIdempotent(phone: string)
    ensures FormatPhone(FormatPhone(phone)) == FormatPhone(phone)
  {
    if |Digits(phone)| == 10 {
      FormattedDigits(phone);
    }
  }

  /** A number the form accepts is regrouped from its own characters. */
  lemma FormatValidPhone(phone: string)
    requires Validation.IsValidPhone(phone)
    ensures FormatPhone(phone) == CountryPrefix + phone[..5] + " " + phone[5..]
  {
    Validation.ValidPhoneIsDigits(phone);
  }

  /** Separators in the input do not matter: `XXXXX-XXXXX` or `XXXXX XXXXX`
      is displayed the same as the bare ten digits. */
  lemma {:induction false} FormatIgnoresSeparator(a: string, sep: char, b: string)
    requires |a| == 5 && |b| == 5 && AllDigits(a) && AllDigits(b)
    requires !IsAsciiDigit(sep)
    ensures FormatPhone(a + [sep] + b) == FormatPhone(a + b)
    ensures FormatPhone(a + b) == CountryPrefix + a + " " + b
  {
    DigitsAppend(a, [sep]);
    DigitsAppend(a + [sep], b);
    DigitsAppend(a, b);
    DigitsOfAllDigits(a);
    DigitsOfAllDigits(b);
    assert [sep][1..] == [];
    assert (a + b)[..5] == a && (a + b)[5..] == b;
  }
}
