/** The Set button's check of the minutes field (MainActivity.java lines
    59-74): the text must be non-empty and all digits, and the duration it
    denotes in milliseconds must not be zero. */
module MinutesInput {
  import opened Outcomes
  import opened Decimal
  import opened TimerModel

  /** The duration in milliseconds the field denotes, or the message shown. */
  function ParseMinutes(input: string): (r: Result<int, Toast>)
    ensures r.Ok? <==> |input| > 0 && AllDigits(input) && Value(input) > 0
    ensures r.Ok? ==> r.value == Value(input) * MsPerMinute && r.value > 0
    ensures r.Err? ==> (r.error == InvalidFormat <==> |input| > 0 && !AllDigits(input))
    ensures r.Err? ==> r.error != InputTimeFirst
  {
    if |input| == 0 then Err(EmptyTime)
    else if !AllDigits(input) then Err(InvalidFormat)
    else
      var time := Value(input) * MsPerMinute;
      if time == 0 then Err(EmptyTime) else Ok(time)
  }

  /** The same check as the activity performs it: a scan for a non-digit,
      then a left-to-right decimal parse. */
  method ValidateMinutes(input: string) returns (r: Result<int, Toast>)
    ensures r == ParseMinutes(input)
  {
    if |input| == 0 {
      return Err(EmptyTime);
    }
    var i := 0;
    while i < |input|
      invariant 0 <= i <= |input|
      invariant forall j :: 0 <= j < i ==> IsDigit(input[j])
    {
      if !IsDigit(input[i]) {
        return Err(InvalidFormat);
      }
      i := i + 1;
    }
    var minutes := 0;
    i := 0;
    while i < |input|
      invariant 0 <= i <= |input|
      invariant AllDigits(input[..i]) && minutes == Value(input[..i])
    {
      assert input[..i + 1][..i] == input[..i];
      minutes := 10 * minutes + DigitValue(input[i]);
      i := i + 1;
    }
    assert input[..i] == input;
    var time := minutes * MsPerMinute;
    if time == 0 {
      return Err(EmptyTime);
    }
    r := Ok(time);
  }

  /** Typing the decimal form of `m` minutes sets exactly `m` minutes, and
      typing zero is refused as an empty time. */
  lemma ParseShownMinutes(m: nat)
    ensures ParseMinutes(Show(m)) == (if m == 0 then Err(EmptyTime) else Ok(m * MsPerMinute))
  {
    ValueOfShow(m);
  }

  /** A non-empty digit string is refused as an empty time exactly when it is
      all zeros ("0", "000", ...). */
  lemma ZeroMinutesRejected(input: string)
    requires |input| > 0 && AllDigits(input)
    ensures ParseMinutes(input) == Err(EmptyTime) <==> forall i :: 0 <= i < |input| ==> input[i] == '0'
  {
    ValueZeroIffAllZeros(input);
  }

  /** Two sample refusals: an empty field and one with a letter in it. */
  lemma RejectedExamples()
    ensures ParseMinutes("") == Err(EmptyTime)
    ensures ParseMinutes("12a3") == Err(InvalidFormat)
  {
    assert !IsDigit("12a3"[2]);
  }
}
