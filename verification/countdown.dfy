/** `updateCountdown`: the remaining time rendered as `HH:MM:SS` or `MM:SS`,
    and whether the pause button is hidden because the display reads zero.
    The source narrows the `long` to an `int` and then uses Java's `/` and
    `%`, which truncate toward zero; both are written out here. */
module Countdown {
  import opened Outcomes
  import opened Decimal
  import opened TimerModel

  const TwoTo31: int := 0x8000_0000
  const TwoTo32: int := 0x1_0000_0000

  /** Java's `(int)` cast of a `long`: keep the low 32 bits, two's complement. */
  function ToInt(x: int): (r: int)
    ensures -TwoTo31 <= r < TwoTo31
    ensures (x - r) % TwoTo32 == 0
  {
    var low := x % TwoTo32;
    if low < TwoTo31 then low else low - TwoTo32
  }

  /** Java's integer `/`: the quotient rounded toward zero. */
  function Quot(a: int, b: int): (q: int)
    requires b > 0
    ensures a >= 0 ==> 0 <= a - b * q < b
    ensures a < 0 ==> -b < a - b * q <= 0
  {
    if a >= 0 then a / b else -((-a) / b)
  }

  /** Java's integer `%`: the remainder takes the sign of the dividend. */
  function Rem(a: int, b: int): (m: int)
    requires b > 0
    ensures a == b * Quot(a, b) + m
    ensures a >= 0 ==> 0 <= m < b
    ensures a < 0 ==> -b < m <= 0
  {
    a - b * Quot(a, b)
  }

  /** `String.format("%02d", n)`: at least two characters, zero-padded after
      the sign. What follows the sign reads back as the magnitude, and a
      non-negative number below 100 takes exactly two digits. Padding never
      goes beyond the width: from 10 up, and after a minus sign, there is no
      leading zero. */
  function Pad2(n: int): (r: string)
    ensures 2 <= |r|
    ensures n >= 0 ==> AllDigits(r) && Value(r) == n && (n < 100 ==> |r| == 2)
    ensures n < 0 ==> r[0] == '-' && AllDigits(r[1..]) && Value(r[1..]) == -n
    ensures n >= 10 ==> r[0] != '0'
    ensures n < 0 ==> r[1] != '0'
  {
    if n < 0 then
      ValueOfShow(-n);
      assert ("-" + Show(-n))[1..] == Show(-n);
      "-" + Show(-n)
    else if n < 10 then
      ValueOfShow(n);
      ValueLeadingZero(Show(n));
      "0" + Show(n)
    else
      ValueOfShow(n);
      assert n < 100 ==> Show(n) == Show(n / 10) + [DigitChar(n % 10)];
      Show(n)
  }

  datatype Clock = Clock(hours: int, minutes: int, seconds: int)

  /** What is on screen after an update. */
  datatype Display = Display(text: string, hidePause: bool)

  /** Hours, minutes and seconds exactly as the source computes them from
      the narrowed time: together they make up the whole seconds (rounded
      toward zero), minutes and seconds stay below 60 in magnitude, and every
      field takes the sign of the time. */
  function Split(ms: int): (c: Clock)
    ensures 3600 * c.hours + 60 * c.minutes + c.seconds == Quot(ToInt(ms), 1000)
    ensures -60 < c.minutes < 60 && -60 < c.seconds < 60
    ensures ToInt(ms) >= 0 ==> c.hours >= 0 && c.minutes >= 0 && c.seconds >= 0
    ensures ToInt(ms) <= 0 ==> c.hours <= 0 && c.minutes <= 0 && c.seconds <= 0
  {
    var secs := Quot(ToInt(ms), 1000);
    SecondsWithinHour(secs);
    Clock(Quot(secs, 3600), Quot(Rem(secs, 3600), 60), Rem(secs, 60))
  }

  /** `MM:SS`, with `HH:` in front when there are hours: at least five
      characters, and at least eight with hours. */
  function Render(c: Clock): (r: string)
    ensures 5 <= |r|
    ensures c.hours > 0 ==> 8 <= |r|
  {
    if c.hours > 0 then Pad2(c.hours) + ":" + Pad2(c.minutes) + ":" + Pad2(c.seconds)
    else Pad2(c.minutes) + ":" + Pad2(c.seconds)
  }

  /** The display after `updateCountdown`; the pause button is hidden exactly
      when the narrowed time is less than a whole second from zero. */
  function UpdateCountdown(ms: int): (d: Display)
    ensures d.hidePause <==> -1000 < ToInt(ms) < 1000
  {
    var c := Split(ms);
    ClockZeroIffNoSeconds(Quot(ToInt(ms), 1000));
    QuotZeroIff(ToInt(ms), 1000);
    Display(Render(c), c.hours == 0 && c.minutes == 0 && c.seconds == 0)
  }

  /** Truncating division gives zero exactly for dividends within one divisor
      of zero. */
  lemma QuotZeroIff(a: int, b: int)
    requires b == 60 || b == 1000
    ensures Quot(a, b) == 0 <==> -b < a < b
  {
    if b == 60 {
      assert Quot(a, 60) == 0 <==> -60 < a < 60;
    } else {
      assert Quot(a, 1000) == 0 <==> -1000 < a < 1000;
    }
  }

  /** All three fields are zero exactly when no whole second is left. */
  lemma ClockZeroIffNoSeconds(secs: int)
    ensures (Quot(secs, 3600) == 0 && Quot(Rem(secs, 3600), 60) == 0 && Rem(secs, 60) == 0) <==> secs == 0
  {
    if Quot(secs, 3600) == 0 {
      assert Rem(secs, 3600) == secs;
      QuotZeroIff(secs, 60);
    }
  }

  /** The number a field of the display holds, if it is all digits. */
  function Field(s: string): (r: Option<nat>)
    ensures AllDigits(s) ==> r == Some(Value(s))
  {
    if AllDigits(s) then Some(Value(s)) else None
  }

  /** Reads a displayed `MM:SS` or `H..:MM:SS` back into whole seconds. */
  function ParseClock(t: string): Option<int> {
    if |t| < 5 || t[|t| - 3] != ':' then None
    else
      match (Field(t[|t| - 5..|t| - 3]), Field(t[|t| - 2..]))
      case (Some(m), Some(s)) =>
        if |t| == 5 then Some(60 * m + s)
        else if |t| < 8 || t[|t| - 6] != ':' then None
        else (match Field(t[..|t| - 6])
              case Some(h) => Some(3600 * h + 60 * m + s)
              case None => None)
      case _ => None
  }

  // ---- Facts about the pieces ----

  /** Below 2^31 the narrowing cast keeps the value. */
  lemma ToIntSmall(x: int)
    requires 0 <= x < TwoTo31
    ensures ToInt(x) == x
  {
    assert x % TwoTo32 == x;
  }

  /** On non-negative operands Java's `/` and `%` agree with floor division. */
  lemma QuotRemNonNegative(a: int, b: int)
    requires a >= 0 && b > 0
    ensures Quot(a, b) == a / b && Rem(a, b) == a % b
  {
  }

  /** Taking seconds modulo an hour first does not change seconds modulo a
      minute. */
  lemma SecondsOfHour(t: int)
    requires t >= 0
    ensures t % 3600 % 60 == t % 60
  {
    var q, r := t / 3600, t % 3600;
    var a, b := r / 60, r % 60;
    assert r == 60 * a + b;
    assert t == 60 * (60 * q + a) + b;
    RemainderBy60Unique(t, 60 * q + a, b);
  }

  /** Java's `/` and `%` by the formatter's divisors are symmetric about zero. */
  lemma QuotRemNegate(a: int, b: int)
    requires b == 60 || b == 3600
    ensures Quot(-a, b) == -Quot(a, b) && Rem(-a, b) == -Rem(a, b)
  {
    if b == 60 {
      assert Quot(-a, 60) == -Quot(a, 60);
    } else {
      assert Quot(-a, 3600) == -Quot(a, 3600);
    }
  }

  /** With Java's `%`, too, the seconds within the hour have the same seconds
      within the minute. */
  lemma SecondsWithinHour(secs: int)
    ensures Rem(Rem(secs, 3600), 60) == Rem(secs, 60)
  {
    var t := if secs >= 0 then secs else -secs;
    QuotRemNonNegative(t, 3600);
    QuotRemNonNegative(t % 3600, 60);
    QuotRemNonNegative(t, 60);
    SecondsOfHour(t);
    if secs < 0 {
      QuotRemNegate(t, 3600);
      QuotRemNegate(t % 3600, 60);
      QuotRemNegate(t, 60);
    }
  }

  /** Euclidean division by 60 has one remainder. */
  lemma RemainderBy60Unique(t: int, k: int, m: int)
    requires t == 60 * k + m && 0 <= m < 60
    ensures t % 60 == m
  {
  }

  /** Euclidean division by one of the constants the formatter uses has one
      quotient and one remainder. */
  lemma DivisionUnique(t: int, d: int, k: int, m: int)
    requires d == 60 || d == 1000 || d == 3600
    requires t == d * k + m && 0 <= m < d
    ensures t / d == k && t % d == m
  {
    if d == 60 {
      assert t / 60 == k && t % 60 == m;
    } else if d == 1000 {
      assert t / 1000 == k && t % 1000 == m;
    } else {
      assert t / 3600 == k && t % 3600 == m;
    }
  }

  /** Whole hours via whole seconds are whole hours of the milliseconds. */
  lemma HoursFloor(ms: int)
    requires ms >= 0
    ensures ms / 1000 / 3600 == ms / 3_600_000
  {
    var q, r := ms / 3_600_000, ms % 3_600_000;
    assert r / 1000 < 3600;
    assert ms == 1000 * (3600 * q + r / 1000) + r % 1000;
    DivisionUnique(ms, 1000, 3600 * q + r / 1000, r % 1000);
    DivisionUnique(ms / 1000, 3600, q, r / 1000);
  }

  /** Minutes within the hour via whole seconds are whole minutes of the
      milliseconds, modulo 60. */
  lemma MinutesFloor(ms: int)
    requires ms >= 0
    ensures ms / 1000 % 3600 / 60 == ms / 60_000 % 60
  {
    var q, r := ms / 60_000, ms % 60_000;
    assert r / 1000 < 60;
    assert ms == 1000 * (60 * q + r / 1000) + r % 1000;
    DivisionUnique(ms, 1000, 60 * q + r / 1000, r % 1000);
    var t := ms / 1000;
    DivisionUnique(t, 60, q, r / 1000);
    var a, b := t / 3600, t % 3600;
    assert b / 60 < 60;
    assert t == 60 * (60 * a + b / 60) + b % 60;
    DivisionUnique(t, 60, 60 * a + b / 60, b % 60);
    assert q == 60 * a + b / 60;
    DivisionUnique(q, 60, a, b / 60);
  }

  /** Within the accepted range the narrowing and truncation change nothing:
      the fields are the floor quotients (hours are `ms / 3600000` and
      minutes `ms / 60000 mod 60`), minutes and seconds are below 60,
      and together they are the whole seconds left. */
  lemma SplitInRange(ms: int)
    requires 0 <= ms <= MaxDuration
    ensures var c := Split(ms);
      && c.hours == ms / 1000 / 3600 && c.minutes == ms / 1000 % 3600 / 60 && c.seconds == ms / 1000 % 60
      && c.hours == ms / 3_600_000 && c.minutes == ms / 60_000 % 60
      && 0 <= c.hours <= 100 && 0 <= c.minutes < 60 && 0 <= c.seconds < 60
      && 3600 * c.hours + 60 * c.minutes + c.seconds == ms / 1000
      && (c.hours > 0 <==> ms >= 3_600_000)
  {
    ToIntSmall(ms);
    var t := ms / 1000;
    QuotRemNonNegative(ms, 1000);
    QuotRemNonNegative(t, 3600);
    QuotRemNonNegative(t % 3600, 60);
    QuotRemNonNegative(t, 60);
    assert Split(ms) == Clock(t / 3600, t % 3600 / 60, t % 60);
    SecondsOfHour(t);
    assert t <= 360_000;
    assert t == 3600 * (t / 3600) + t % 3600;
    assert t % 3600 == 60 * (t % 3600 / 60) + t % 3600 % 60;
    HoursFloor(ms);
    MinutesFloor(ms);
  }

  /** Slicing a rendered `a:b:c` back into its parts. */
  lemma SliceFields(a: string, b: string, c: string)
    requires |b| == 2 && |c| == 2
    ensures var t := a + ":" + b + ":" + c;
      && t[|t| - 3] == ':' && t[|t| - 2..] == c && t[|t| - 5..|t| - 3] == b
      && t[|t| - 6] == ':' && t[..|t| - 6] == a
  {
  }

  lemma SliceTwoFields(b: string, c: string)
    requires |b| == 2 && |c| == 2
    ensures var t := b + ":" + c;
      && |t| == 5 && t[|t| - 3] == ':' && t[|t| - 2..] == c && t[|t| - 5..|t| - 3] == b
  {
  }

  // ---- The display's promises ----

  /** A rendered clock reads back as its total seconds, and it has the short
      `MM:SS` shape exactly when there are no hours. */
  lemma {:induction false} RenderRoundTrip(c: Clock)
    requires 0 <= c.hours && 0 <= c.minutes < 60 && 0 <= c.seconds < 60
    ensures ParseClock(Render(c)) == Some(3600 * c.hours + 60 * c.minutes + c.seconds)
    ensures |Render(c)| == 5 <==> c.hours == 0
  {
    if c.hours > 0 {
      RenderLong(c);
    } else {
      RenderShort(c);
    }
  }

  lemma RenderLong(c: Clock)
    requires 0 < c.hours && 0 <= c.minutes < 60 && 0 <= c.seconds < 60
    ensures ParseClock(Render(c)) == Some(3600 * c.hours + 60 * c.minutes + c.seconds)
    ensures |Render(c)| >= 8
  {
    var t := Pad2(c.hours) + ":" + Pad2(c.minutes) + ":" + Pad2(c.seconds);
    assert ParseClock(t) == Some(3600 * c.hours + 60 * c.minutes + c.seconds) by {
      ParseThreeFields(Pad2(c.hours), Pad2(c.minutes), Pad2(c.seconds), c.hours, c.minutes, c.seconds);
    }
    assert Render(c) == t;
  }

  lemma RenderShort(c: Clock)
    requires c.hours == 0 && 0 <= c.minutes < 60 && 0 <= c.seconds < 60
    ensures ParseClock(Render(c)) == Some(60 * c.minutes + c.seconds)
    ensures |Render(c)| == 5
  {
    var t := Pad2(c.minutes) + ":" + Pad2(c.seconds);
    assert ParseClock(t) == Some(60 * c.minutes + c.seconds) by {
      ParseTwoFields(Pad2(c.minutes), Pad2(c.seconds), c.minutes, c.seconds);
    }
    assert Render(c) == t by {
      ShortShape(c);
    }
  }

  lemma ShortShape(c: Clock)
    requires c.hours == 0
    ensures Render(c) == Pad2(c.minutes) + ":" + Pad2(c.seconds)
  {
  }

  lemma ParseTwoFields(mm: string, ss: string, m: nat, s: nat)
    requires |mm| == 2 && |ss| == 2 && AllDigits(mm) && AllDigits(ss)
    requires Value(mm) == m && Value(ss) == s
    ensures ParseClock(mm + ":" + ss) == Some(60 * m + s)
    ensures |mm + ":" + ss| == 5
  {
    var t := mm + ":" + ss;
    SliceTwoFields(mm, ss);
    FieldIs(t[|t| - 5..|t| - 3], mm);
    FieldIs(t[|t| - 2..], ss);
    ParseShort(t, m, s);
  }

  lemma ParseThreeFields(hh: string, mm: string, ss: string, h: nat, m: nat, s: nat)
    requires 2 <= |hh| && |mm| == 2 && |ss| == 2 && AllDigits(hh) && AllDigits(mm) && AllDigits(ss)
    requires Value(hh) == h && Value(mm) == m && Value(ss) == s
    ensures ParseClock(hh + ":" + mm + ":" + ss) == Some(3600 * h + 60 * m + s)
    ensures |hh + ":" + mm + ":" + ss| >= 8
  {
    var t := hh + ":" + mm + ":" + ss;
    SliceFields(hh, mm, ss);
    FieldIs(t[..|t| - 6], hh);
    FieldIs(t[|t| - 5..|t| - 3], mm);
    FieldIs(t[|t| - 2..], ss);
    ParseLong(t, h, m, s);
  }

  lemma FieldIs(x: string, y: string)
    requires x == y && AllDigits(y)
    ensures Field(x) == Some(Value(y))
  {
  }

  lemma ParseShort(t: string, m: nat, s: nat)
    requires |t| == 5 && t[2] == ':'
    requires Field(t[|t| - 5..|t| - 3]) == Some(m) && Field(t[|t| - 2..]) == Some(s)
    ensures ParseClock(t) == Some(60 * m + s)
  {
  }

  lemma ParseLong(t: string, h: nat, m: nat, s: nat)
    requires |t| >= 8 && t[|t| - 3] == ':' && t[|t| - 6] == ':'
    requires Field(t[..|t| - 6]) == Some(h)
    requires Field(t[|t| - 5..|t| - 3]) == Some(m) && Field(t[|t| - 2..]) == Some(s)
    ensures ParseClock(t) == Some(3600 * h + 60 * m + s)
  {
  }

  /** The display loses only the milliseconds: reading it back gives the
      whole seconds left; it shows hours exactly from one hour up; and the
      pause button is hidden exactly in the last second. */
  lemma {:induction false} CountdownRoundTrip(ms: int)
    requires 0 <= ms <= MaxDuration
    ensures ParseClock(UpdateCountdown(ms).text) == Some(ms / 1000)
    ensures |UpdateCountdown(ms).text| == 5 <==> ms < 3_600_000
    ensures UpdateCountdown(ms).hidePause <==> ms < 1000
  {
    SplitInRange(ms);
    RenderRoundTrip(Split(ms));
    ToIntSmall(ms);
  }

  /** The unset sentinel narrows to -1, which truncates to zero seconds, so a
      reset screen reads "00:00" (floor division would give "59:59"). */
  lemma SentinelShowsZero()
    ensures UpdateCountdown(NoTimeSet) == Display("00:00", true)
  {
    SplitOfSentinel();
    RenderZero();
  }

  lemma SplitOfSentinel()
    ensures Split(-1) == Clock(0, 0, 0)
  {
    assert ToInt(-1) == -1;
    assert Quot(-1, 1000) == 0;
    QuotRemNonNegative(0, 3600);
    QuotRemNonNegative(0, 60);
  }

  lemma RenderZero()
    ensures Render(Clock(0, 0, 0)) == "00:00"
  {
    assert Show(0) == "0";
  }

  /** Two sample renderings: one with hours, one without. */
  lemma DisplayExamples()
    ensures UpdateCountdown(3_661_000).text == "01:01:01"
    ensures UpdateCountdown(59_000).text == "00:59"
  {
    assert Split(3_661_000) == Clock(1, 1, 1) by {
      SplitInRange(3_661_000);
    }
    assert Split(59_000) == Clock(0, 0, 59) by {
      SplitInRange(59_000);
    }
    RenderOneHourOneMinuteOneSecond();
    RenderFiftyNineSeconds();
  }

  /** At the cap of 100 hours the hours field takes three digits, with no
      padding beyond the width. */
  lemma CapShows()
    ensures UpdateCountdown(MaxDuration).text == "100:00:00"
  {
    assert Split(MaxDuration) == Clock(100, 0, 0) by {
      SplitInRange(MaxDuration);
    }
    RenderHundredHours();
  }

  lemma RenderHundredHours()
    ensures Render(Clock(100, 0, 0)) == "100:00:00"
  {
    assert Show(0) == "0";
    assert Show(1) == "1";
    assert Show(10) == "10";
    assert Show(100) == "100";
  }

  lemma RenderOneHourOneMinuteOneSecond()
    ensures Render(Clock(1, 1, 1)) == "01:01:01"
  {
    assert Show(1) == "1";
  }

  lemma RenderFiftyNineSeconds()
    ensures Render(Clock(0, 0, 59)) == "00:59"
  {
    assert Show(0) == "0";
    assert Show(59) == "59" by {
      assert Show(5) == "5" && Show(9) == "9";
    }
  }
}
