/**
 * The folder-name validators of the journal tree: a month folder is `01`..`12`
 * and a year folder is four digits, as judged by Rust's byte length and
 * `u32::from_str`.
 */
module FolderNames {
  import opened Wrappers
  import opened Decimal

  /** `is_valid_month`: two bytes long and parsing as a `u32` in 1..=12. */
  predicate IsValidMonth(folderName: string) {
    Utf8Len(folderName) == 2 &&
    match ParseU32(folderName)
    case Some(month) => 1 <= month <= 12
    case None => false
  }

  /** `is_valid_year`: four bytes long and parsing as a `u32`. */
  predicate IsValidYear(folderName: string) {
    Utf8Len(folderName) == 4 && ParseU32(folderName).Some?
  }

  /**
   * A month folder name is valid exactly when it is two digits denoting 1..12,
   * or a `+` followed by one digit 1..9 (which `u32::from_str` also accepts).
   */
  lemma MonthFolderShape(s: string)
    ensures IsValidMonth(s) <==>
      |s| == 2 &&
      ((AllDigits(s) && 1 <= DigitsValue(s) <= 12) || (s[0] == '+' && '1' <= s[1] <= '9'))
  {
    if ParseU32(s).Some? {
      ParsedIsAscii(s);
    }
    Utf8LenBounds(s);
    if |s| == 2 && s[0] == '+' {
      var d := s[1..];
      assert d[..0] == [];
      if IsDigit(s[1]) {
        assert AllDigits(d) && DigitsValue(d) == DigitValue(s[1]);
      }
    }
    if |s| == 2 && AllDigits(s) {
      DigitsValueBelow(s);
    }
  }

  /**
   * A year folder name is valid exactly when it is four digits, or a `+`
   * followed by three digits.
   */
  lemma YearFolderShape(s: string)
    ensures IsValidYear(s) <==>
      |s| == 4 && (AllDigits(s) || (s[0] == '+' && AllDigits(s[1..])))
  {
    if ParseU32(s).Some? {
      ParsedIsAscii(s);
    }
    Utf8LenBounds(s);
    assert Pow10(3) == 1000 && Pow10(4) == 10000;
    if |s| == 4 && AllDigits(s) {
      DigitsValueBelow(s);
    }
    if |s| == 4 && s[0] == '+' && AllDigits(s[1..]) {
      DigitsValueBelow(s[1..]);
      assert forall i :: 1 <= i < |s| ==> s[i] == s[1..][i - 1];
    }
  }

  /** The month folder `format!("{:02}", m)` is valid exactly for months 1..=12. */
  lemma PaddedMonthValid(m: nat)
    ensures IsValidMonth(Pad2(m)) <==> 1 <= m <= 12
  {
    Pad2Value(m);
    MonthFolderShape(Pad2(m));
  }

  /**
   * The year folder `year.to_string()` is valid exactly for years 1000..=9999:
   * shorter years are not zero-padded and negative ones carry a `-`.
   */
  lemma YearStringValid(y: int)
    ensures IsValidYear(IntToString(y)) <==> 1000 <= y <= 9999
  {
    var s := IntToString(y);
    YearFolderShape(s);
    NatToStringValue(if y < 0 then -y else y);
    NatToStringLength(if y < 0 then -y else y);
    if y < 0 {
      assert s[0] == '-';
    }
  }

  /** The month folder names the source's tests accept, and a `+` form. */
  lemma MonthExamples()
    ensures IsValidMonth("01") && IsValidMonth("06") && IsValidMonth("12")
    ensures IsValidMonth("+5")
  {
    MonthFolderShape("01");
    MonthFolderShape("06");
    MonthFolderShape("12");
    MonthFolderShape("+5");
  }

  /** Month folder names out of range or of the wrong length, as the source's tests check. */
  lemma MonthCounterExamples()
    ensures !IsValidMonth("00") && !IsValidMonth("13") && !IsValidMonth("1")
  {
    MonthFolderShape("00");
    MonthFolderShape("13");
    MonthFolderShape("1");
  }

  /** Month folder names too long, not numeric or empty, as the source's tests check. */
  lemma MonthMalformedExamples()
    ensures !IsValidMonth("001") && !IsValidMonth("ab") && !IsValidMonth("")
  {
    MonthFolderShape("001");
    MonthFolderShape("ab");
    MonthFolderShape("");
  }

  /** The year folder names the source's tests accept. */
  lemma YearExamples()
    ensures IsValidYear("2024") && IsValidYear("2025") && IsValidYear("2026")
  {
    YearFolderShape("2024");
    YearFolderShape("2025");
    YearFolderShape("2026");
  }

  /** More accepted year folder names: a leading zero, and a `+` sign that `u32` parsing allows. */
  lemma YearPaddedExamples()
    ensures IsValidYear("1999") && IsValidYear("0001")
    ensures IsValidYear("+999")
  {
    YearFolderShape("1999");
    YearFolderShape("0001");
    YearFolderShape("+999");
  }

  /** The malformed year folder names the source's tests check. */
  lemma YearCounterExamples()
    ensures !IsValidYear("202") && !IsValidYear("20245") && !IsValidYear("abcd")
    ensures !IsValidYear("") && !IsValidYear("2a24")
  {
    YearFolderShape("202");
    YearFolderShape("20245");
    YearFolderShape("abcd");
    YearFolderShape("");
    YearFolderShape("2a24");
  }
}
