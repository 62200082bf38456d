/** `DurationPipe` (the Angular pipe named `duration`): a number of seconds
    shown as "hh:mm:ss". The input is modelled as an integer. */
module DurationPipe {
  import opened Text

  /** `Math.floor(value / 3600)`; Dafny's `/` by a positive divisor floors. */
  function Hours(value: int): int {
    value / 3600
  }

  /** `Math.floor((value % 3600) / 60)`, with JavaScript's `%`. */
  function Minutes(value: int): int {
    JsRem(value, 3600) / 60
  }

  /** `value % 60`, with JavaScript's `%`. */
  function Seconds(value: int): int {
    JsRem(value, 60)
  }

  /** One field as the `map` callback renders it and `join` prints it: a
      digit is padded to two characters with a '0'; a value from 10 on is its
      digits without padding. */
  function Field(v: int): (f: string)
    ensures 0 <= v < 10 ==> f == ['0', DigitChar(v)]
    ensures v >= 10 ==> |f| >= 2 && AllDigits(f) && f[0] != '0' && DigitsValue(f) == v
  {
    if v < 10 then "0" + IntToString(v)
    else
      NoLeadingZero(v);
      NatToStringRoundTrip(v);
      IntToString(v)
  }

  /** The three fields joined with ':', without the zero guard. */
  function Clock(value: int): string {
    Field(Hours(value)) + ":" + Field(Minutes(value)) + ":" + Field(Seconds(value))
  }

  /** `transform`. `!value` holds for the number 0 alone among integers. */
  function Transform(value: int): string {
    if value == 0 then "00:00:00" else Clock(value)
  }

  // ---------------------------------------------------------------------------
  // Properties
  // ---------------------------------------------------------------------------

  /** For a non-negative number of seconds the three fields are whole hours,
      minutes below 60 and seconds below 60, and they add back up to it. */
  lemma FieldsDecompose(value: int)
    requires value >= 0
    ensures Hours(value) >= 0 && 0 <= Minutes(value) < 60 && 0 <= Seconds(value) < 60
    ensures Hours(value) * 3600 + Minutes(value) * 60 + Seconds(value) == value
  {
    var h := value / 3600;
    var r := value % 3600;
    var m := r / 60;
    var s := r % 60;
    assert value == h * 3600 + r;
    assert r == m * 60 + s;
    assert value == (h * 60 + m) * 60 + s;
    assert value % 60 == s;
  }

  /** For a negative number of seconds every field is negative or zero, and
      a negative field is printed as "0-" and its digits, so the text is no
      time of day. */
  lemma NegativeFields(value: int)
    requires value < 0
    ensures Hours(value) < 0 && Minutes(value) <= 0 && Seconds(value) <= 0
    ensures Seconds(value) == -Seconds(-value)
    ensures forall v :: v < 0 ==> Field(v) == "0-" + NatToString(-v)
  {
    JsRemOdd(-value, 60);
  }

  /** A field of a non-negative value is a digit string, at least two long,
      exactly two long below 100, that reads back as the value. */
  lemma FieldDigits(v: int)
    requires v >= 0
    ensures var f := Field(v);
      |f| >= 2 && (v < 100 ==> |f| == 2) && AllDigits(f) && DigitsValue(f) == v
  {
    if v < 10 {
      var f := Field(v);
      assert f[..1] == ['0'] && f[..1][..0] == [];
      assert DigitsValue(f) == DigitsValue(['0']) * 10 + DigitValue(f[1]);
    } else {
      NatToStringRoundTrip(v);
    }
  }

  /** The guard only repeats what the formula gives: the three fields of 0
      are "00", so `transform` equals the plain formula on every input. */
  lemma GuardRedundant(value: int)
    ensures Clock(0) == "00:00:00"
    ensures Transform(value) == Clock(value)
  {
    assert DigitChar(0) == '0';
  }

  /** The hours, minutes and seconds text of a "h…h:mm:ss" string. */
  function ClockParts(t: string): (string, string, string)
    requires |t| >= 8
  {
    (t[..|t| - 6], t[|t| - 5..|t| - 3], t[|t| - 2..])
  }

  /** `t` has the shape "h…h:mm:ss" (at least two digits of hours, two of
      minutes, two of seconds, separated by the only two colons). */
  predicate ClockShaped(t: string) {
    |t| >= 8 && t[|t| - 6] == ':' && t[|t| - 3] == ':'
    && AllDigits(ClockParts(t).0) && AllDigits(ClockParts(t).1) && AllDigits(ClockParts(t).2)
  }

  /** Reads a clock-shaped text back as a number of seconds. */
  function ParseClock(t: string): int
    requires ClockShaped(t)
  {
    var (hh, mm, ss) := ClockParts(t);
    DigitsValue(hh) * 3600 + DigitsValue(mm) * 60 + DigitsValue(ss)
  }

  lemma SplitClock(t: string, hh: string, mm: string, ss: string)
    requires t == hh + ":" + mm + ":" + ss && |hh| >= 2 && |mm| == 2 && |ss| == 2
    ensures |t| >= 8 && t[|t| - 6] == ':' && t[|t| - 3] == ':'
    ensures ClockParts(t) == (hh, mm, ss)
  {
    var n := |t|;
    assert t[..n - 6] == hh by {
      assert t == hh + (":" + mm + ":" + ss);
    }
    assert t[n - 5..n - 3] == mm by {
      assert t == (hh + ":") + mm + (":" + ss);
    }
    assert t[n - 2..] == ss;
  }

  /** For a non-negative number of seconds the output is "h…h:mm:ss" and
      reading it back gives the number: the pipe loses nothing. */
  lemma TransformRoundTrip(value: int)
    requires value >= 0
    ensures ClockShaped(Transform(value))
    ensures ParseClock(Transform(value)) == value
  {
    GuardRedundant(value);
    FieldsDecompose(value);
    FieldDigits(Hours(value));
    FieldDigits(Minutes(value));
    FieldDigits(Seconds(value));
    SplitClock(Clock(value), Field(Hours(value)), Field(Minutes(value)), Field(Seconds(value)));
  }

  /** Below 100 hours the output is exactly eight characters; from 100 hours
      on the hours field simply grows. */
  lemma TransformLength(value: int)
    requires value >= 0
    ensures value < 360000 ==> |Transform(value)| == 8
    ensures value >= 360000 ==> |Transform(value)| > 8
  {
    GuardRedundant(value);
    FieldsDecompose(value);
    FieldDigits(Hours(value));
    FieldDigits(Minutes(value));
    FieldDigits(Seconds(value));
    if value >= 360000 {
      assert Hours(value) >= 100;
    }
  }

  /** One hour, two minutes and five seconds show as "01:02:05". */
  lemma HourExample()
    ensures Transform(3725) == "01:02:05"
  {
    assert Hours(3725) == 1 && Minutes(3725) == 2 && Seconds(3725) == 5;
    assert DigitChar(1) == '1' && DigitChar(2) == '2' && DigitChar(5) == '5';
  }
}
