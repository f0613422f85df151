/**
 * Minute-precision times of day and their "HH:MM" text form, as produced by
 * `strftime("%H:%M")` both for the reminder widget's value and for the
 * dispatcher's reading of the wall clock.
 */
module Clock {
  import opened Wrappers

  /** A time of day truncated to the minute. */
  datatype Minute = Minute(hour: nat, minute: nat) {
    predicate Valid() {
      hour < 24 && minute < 60
    }
  }

  function Digit(d: nat): (c: char)
    requires d < 10
    ensures '0' <= c <= '9' && c as int - '0' as int == d
  {
    ('0' as int + d) as char
  }

  predicate IsDigit(c: char) {
    '0' <= c <= '9'
  }

  function DigitValue(c: char): (d: nat)
    requires IsDigit(c)
    ensures d < 10
  {
    c as int - '0' as int
  }

  /** `strftime("%H:%M")`: two zero-padded digits of hour, a colon, two zero-padded digits of minute. */
  function HHMM(t: Minute): (s: string)
    requires t.Valid()
    ensures |s| == 5 && s[2] == ':'
    ensures IsDigit(s[0]) && IsDigit(s[1]) && IsDigit(s[3]) && IsDigit(s[4])
  {
    [Digit(t.hour / 10), Digit(t.hour % 10), ':', Digit(t.minute / 10), Digit(t.minute % 10)]
  }

  /** Reads an "HH:MM" string back; anything else is `None`. */
  function ParseHHMM(s: string): (r: Option<Minute>)
    ensures r.Some? ==> r.value.Valid()
  {
    if |s| == 5 && s[2] == ':' && IsDigit(s[0]) && IsDigit(s[1]) && IsDigit(s[3]) && IsDigit(s[4]) then
      var t := Minute(10 * DigitValue(s[0]) + DigitValue(s[1]), 10 * DigitValue(s[3]) + DigitValue(s[4]));
      if t.Valid() then Some(t) else None
    else
      None
  }

  /** Formatting loses nothing: the text reads back as the same minute. */
  lemma FormatThenParse(t: Minute)
    requires t.Valid()
    ensures ParseHHMM(HHMM(t)) == Some(t)
  {
    var s := HHMM(t);
    assert DigitValue(s[0]) == t.hour / 10 && DigitValue(s[1]) == t.hour % 10;
    assert DigitValue(s[3]) == t.minute / 10 && DigitValue(s[4]) == t.minute % 10;
  }

  /** Every string that parses is exactly the formatting of what it parses to. */
  lemma ParseThenFormat(s: string)
    requires ParseHHMM(s).Some?
    ensures HHMM(ParseHHMM(s).value) == s
  {
    var t := ParseHHMM(s).value;
    assert t.hour / 10 == DigitValue(s[0]) && t.hour % 10 == DigitValue(s[1]);
    assert t.minute / 10 == DigitValue(s[3]) && t.minute % 10 == DigitValue(s[4]);
    var f := HHMM(t);
    assert f[0] == s[0] && f[1] == s[1] && f[3] == s[3] && f[4] == s[4];
  }

  /** Two minutes have the same text exactly when they are the same minute. */
  lemma HHMMInjective(a: Minute, b: Minute)
    requires a.Valid() && b.Valid()
    ensures HHMM(a) == HHMM(b) <==> a == b
  {
    FormatThenParse(a);
    FormatThenParse(b);
  }
}
