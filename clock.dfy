/**
 * Parsing of the "HH:MM" event times typed into the report tab: the text is split at ':'
 * into exactly two fields, each field goes through Python's int(), and the result must be
 * a valid hour and minute for datetime.replace.
 */
module ClockText {
  import opened Common

  datatype ClockTime = ClockTime(hour: int, minute: int)

  /** The range datetime.replace accepts. */
  predicate ValidClock(t: ClockTime) {
    0 <= t.hour < 24 && 0 <= t.minute < 60
  }

  predicate IsDigit(c: char) {
    '0' <= c <= '9'
  }

  predicate AllDigits(s: string) {
    forall i | 0 <= i < |s| :: IsDigit(s[i])
  }

  /** Decimal value of a digit string, most significant digit first. */
  function DigitsValue(s: string): nat
    requires AllDigits(s)
  {
    if |s| == 0 then 0 else 10 * DigitsValue(s[..|s| - 1]) + (s[|s| - 1] as int - '0' as int)
  }

  /** Python's int() on one field: an optional sign followed by at least one decimal digit. */
  function ParseInt(s: string): (r: Option<int>)
    ensures r.Some? <==> (|s| > 0 && AllDigits(s)) || (|s| > 1 && (s[0] == '+' || s[0] == '-') && AllDigits(s[1..]))
    ensures |s| > 0 && AllDigits(s) ==> r == Some(DigitsValue(s))
    ensures |s| > 1 && s[0] == '+' && AllDigits(s[1..]) ==> r == Some(DigitsValue(s[1..]))
    ensures |s| > 1 && s[0] == '-' && AllDigits(s[1..]) ==> r == Some(0 - DigitsValue(s[1..]))
  {
    if |s| > 0 && (s[0] == '+' || s[0] == '-') then
      if |s| > 1 && AllDigits(s[1..]) then
        Some(if s[0] == '-' then 0 - DigitsValue(s[1..]) as int else DigitsValue(s[1..]) as int)
      else None
    else if |s| > 0 && AllDigits(s) then Some(DigitsValue(s))
    else None
  }

  /** The inverse of Split: the fields glued back together with the separator between them. */
  function Join(parts: seq<string>, sep: char): string
    requires |parts| >= 1
  {
    if |parts| == 1 then parts[0] else parts[0] + [sep] + Join(parts[1..], sep)
  }

  /** Python's str.split(sep): the maximal separator-free fields, in order. */
  function Split(s: string, sep: char): (parts: seq<string>)
    ensures |parts| >= 1
    ensures forall i | 0 <= i < |parts| :: sep !in parts[i]
    ensures Join(parts, sep) == s
  {
    if |s| == 0 then [""]
    else
      var rest := Split(s[1..], sep);
      if s[0] == sep then
        assert ([""] + rest)[1..] == rest;
        [""] + rest
      else
        var parts := [[s[0]] + rest[0]] + rest[1..];
        assert parts[1..] == rest[1..];
        assert s == [s[0]] + s[1..];
        parts
  }

  lemma {:induction false} SplitWithoutSeparator(a: string, sep: char)
    requires sep !in a
    ensures Split(a, sep) == [a]
  {
    if |a| > 0 {
      SplitWithoutSeparator(a[1..], sep);
      assert [a[0]] + a[1..] == a;
    }
  }

  lemma {:induction false} SplitAfterField(a: string, sep: char, b: string)
    requires sep !in a
    ensures Split(a + [sep] + b, sep) == [a] + Split(b, sep)
  {
    var s := a + [sep] + b;
    if |a| == 0 {
      assert s == [sep] + b;
      assert s[1..] == b;
    } else {
      assert s[1..] == a[1..] + [sep] + b;
      SplitAfterField(a[1..], sep, b);
      assert [a[0]] + a[1..] == a;
    }
  }

  /** Two-digit zero-padded rendering, the form of the default times "14:00" and "17:00". */
  function TwoDigits(n: int): (s: string)
    requires 0 <= n < 100
    ensures |s| == 2 && AllDigits(s)
  {
    [('0' as int + n / 10) as char, ('0' as int + n % 10) as char]
  }

  function FormatClock(t: ClockTime): string
    requires ValidClock(t)
  {
    TwoDigits(t.hour) + ":" + TwoDigits(t.minute)
  }

  /**
   * `map(int, text.split(":"))` unpacked into two integers; None when there are not exactly
   * two fields or int() rejects one of them.
   */
  function ClockFields(s: string): (r: Option<(int, int)>)
    ensures r.Some? <==> |Split(s, ':')| == 2 && ParseInt(Split(s, ':')[0]).Some? && ParseInt(Split(s, ':')[1]).Some?
    ensures r.Some? ==> r.value == (ParseInt(Split(s, ':')[0]).value, ParseInt(Split(s, ':')[1]).value)
  {
    var parts := Split(s, ':');
    if |parts| != 2 then None
    else
      match (ParseInt(parts[0]), ParseInt(parts[1]))
      case (Some(h), Some(m)) => Some((h, m))
      case _ => None
  }

  /** The two fields, then the range check of datetime.replace; None when any of these steps raises. */
  function ParseClock(s: string): (r: Option<ClockTime>)
    ensures r.Some? <==> ClockFields(s).Some? && 0 <= ClockFields(s).value.0 < 24 && 0 <= ClockFields(s).value.1 < 60
    ensures r.Some? ==> ValidClock(r.value) && r.value == ClockTime(ClockFields(s).value.0, ClockFields(s).value.1)
  {
    match ClockFields(s)
    case Some((h, m)) => if 0 <= h < 24 && 0 <= m < 60 then Some(ClockTime(h, m)) else None
    case None => None
  }

  lemma TwoDigitsValue(n: int)
    requires 0 <= n < 100
    ensures DigitsValue(TwoDigits(n)) == n
  {
    var s := TwoDigits(n);
    assert s[..1][..0] == [];
    assert DigitsValue(s[..1]) == n / 10;
  }

  /** Every well-formed time survives formatting and parsing unchanged. */
  lemma ParseFormatRoundTrip(t: ClockTime)
    requires ValidClock(t)
    ensures ParseClock(FormatClock(t)) == Some(t)
  {
    var hh, mm := TwoDigits(t.hour), TwoDigits(t.minute);
    assert FormatClock(t) == hh + [':'] + mm;
    SplitAfterField(hh, ':', mm);
    SplitWithoutSeparator(mm, ':');
    assert Split(FormatClock(t), ':') == [hh, mm];
    TwoDigitsValue(t.hour);
    TwoDigitsValue(t.minute);
  }

  /** int() is lenient: an unpadded field is accepted. */
  lemma UnpaddedClockText()
    ensures ParseClock("9:5") == Some(ClockTime(9, 5))
  {
    SplitAfterField("9", ':', "5");
    SplitWithoutSeparator("5", ':');
    assert "9:5" == "9" + [':'] + "5";
    assert DigitsValue("9") == 9 by { assert "9"[..0] == []; }
    assert DigitsValue("5") == 5 by { assert "5"[..0] == []; }
  }

  /** Signed and zero-padded fields are accepted as well: "-0" is minute 0. */
  lemma SignedClockText()
    ensures ParseClock("+09:-0") == Some(ClockTime(9, 0))
  {
    SignedFields();
    SplitAfterField("+09", ':', "-0");
    SplitWithoutSeparator("-0", ':');
    assert "+09:-0" == "+09" + [':'] + "-0";
    assert Split("+09:-0", ':') == ["+09", "-0"];
    assert ClockFields("+09:-0") == Some((9, 0));
  }

  /** The two signed fields of SignedClockText, one at a time. */
  lemma SignedFields()
    ensures ParseInt("+09") == Some(9) && ParseInt("-0") == Some(0)
  {
    assert "+09"[1..] == "09" && "-0"[1..] == "0";
    assert DigitsValue("09") == 9 by { assert "09"[..1] == "0"; assert "0"[..0] == []; }
    assert DigitsValue("0") == 0 by { assert "0"[..0] == []; }
  }

  /** A minute out of range is rejected. */
  lemma RejectedMinute()
    ensures ParseClock("9:60") == None
  {
    SplitAfterField("9", ':', "60");
    SplitWithoutSeparator("60", ':');
    assert "9:60" == "9" + [':'] + "60";
    assert DigitsValue("60") == 60 by { assert "60"[..1] == "6"; assert "6"[..0] == []; }
  }

  /** A single field and three fields are rejected. */
  lemma RejectedFieldCounts()
    ensures ParseClock("9") == None
    ensures ParseClock("9:00:00") == None
  {
    SplitWithoutSeparator("9", ':');
    SplitAfterField("9", ':', "00:00");
    SplitAfterField("00", ':', "00");
    SplitWithoutSeparator("00", ':');
    assert "9:00:00" == "9" + [':'] + "00:00";
    assert "00:00" == "00" + [':'] + "00";
  }

}
