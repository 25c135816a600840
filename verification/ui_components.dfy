/** `format_time` of the Pomodoro window: a number of seconds shown as
    `MM:SS`, and a parser for that shape that serves as its inverse. */
module UiComponents {
  import opened Wrappers
  import opened Decimal

  const SecondsPerDay: nat := 86400

  /** `timedelta(seconds=max(0, seconds)).seconds`: negative input clamps to
      zero and whole days are dropped. */
  function TimeOfDay(seconds: int): (t: nat)
    ensures t < SecondsPerDay
    ensures seconds <= 0 ==> t == 0
    ensures 0 <= seconds < SecondsPerDay ==> t == seconds
  {
    if seconds < 0 then 0 else seconds % SecondsPerDay
  }

  /** `format_time(seconds)`: the minutes and seconds of the time of day,
      each zero-padded to two digits and separated by a colon. */
  function FormatTime(seconds: int): (r: string)
    ensures 5 <= |r| <= 7
    ensures var t := TimeOfDay(seconds); Shows(r, t / 60, t % 60) && t / 60 <= 1439 && t % 60 < 60
    ensures seconds < 0 ==> r == "00:00"
    ensures TimeOfDay(seconds) / 60 < 100 ==> |r| == 5
    ensures |r| > 5 ==> r[0] != '0'
  {
    ZeroClock();
    SplitMinutes(TimeOfDay(seconds));
    Clock(TimeOfDay(seconds))
  }

  /** The `MM:SS` text of a time of day `t`. Minutes reach at most 1439, so
      they take two to four digits. */
  function Clock(t: nat): (r: string)
    requires t < SecondsPerDay
    ensures 5 <= |r| <= 7
    ensures Shows(r, t / 60, t % 60)
    ensures t / 60 < 100 ==> |r| == 5
    ensures |r| > 5 ==> r[0] != '0'
  {
    SplitMinutes(t);
    var mm := TwoDigits(t / 60);
    var ss := TwoDigits(t % 60);
    JoinShows(mm, ss);
    mm + ":" + ss
  }

  /** `text` has the shape `MM:SS`, its minute field denotes `minutes` and
      its second field denotes `seconds`. */
  predicate Shows(text: string, minutes: nat, seconds: nat) {
    && |text| >= 5 && text[|text| - 3] == ':'
    && AllDigits(text[..|text| - 3]) && AllDigits(text[|text| - 2..])
    && Value(text[..|text| - 3]) == minutes
    && Value(text[|text| - 2..]) == seconds
  }

  /** Two digit fields joined by a colon show what each field denotes. */
  lemma {:induction false} JoinShows(mm: string, ss: string)
    requires AllDigits(mm) && AllDigits(ss) && |mm| >= 2 && |ss| == 2
    ensures Shows(mm + ":" + ss, Value(mm), Value(ss))
  {
    var text := mm + ":" + ss;
    assert text[..|text| - 3] == mm;
    assert text[|text| - 2..] == ss;
  }

  /** `divmod(t, 60)` of a time of day. */
  lemma {:induction false} SplitMinutes(t: nat)
    requires t < SecondsPerDay
    ensures 60 * (t / 60) + t % 60 == t
    ensures t / 60 <= 1439 && t % 60 < 60
  {
    assert 60 * (t / 60) <= t;
  }

  /** Zero seconds (and so every negative input) shows as `00:00`. */
  lemma {:induction false} ZeroClock()
    ensures Clock(0) == "00:00"
  {
    ZeroShownAsTwoZeros();
    assert Clock(0) == TwoDigits(0) + ":" + TwoDigits(0);
  }

  /** `f"{0:02d}"` is `00`. */
  lemma {:induction false} ZeroShownAsTwoZeros()
    ensures TwoDigits(0) == "00"
  {
    assert FromNat(0) == "0";
    assert Zeros(1) == "0";
  }

  /** Reads `MM:SS` back: at least two minute digits, exactly two second
      digits below 60; anything else is rejected. */
  function ParseTime(text: string): (r: Option<nat>)
    ensures r.Some? ==> |text| >= 5 && text[|text| - 3] == ':'
  {
    if |text| < 5 || text[|text| - 3] != ':' then None
    else
      var mm := text[..|text| - 3];
      var ss := text[|text| - 2..];
      if AllDigits(mm) && AllDigits(ss) && Value(ss) < 60 then Some(60 * Value(mm) + Value(ss))
      else None
  }

  /** The displayed text always parses back to the clamped time of day. */
  lemma {:induction false} FormatTimeRoundTrip(seconds: int)
    ensures ParseTime(FormatTime(seconds)) == Some(TimeOfDay(seconds))
  {
    ClockRoundTrip(TimeOfDay(seconds));
  }

  /** Every time of day parses back from its `MM:SS` text. */
  lemma {:induction false} ClockRoundTrip(t: nat)
    requires t < SecondsPerDay
    ensures ParseTime(Clock(t)) == Some(t)
  {
    ParseReadsFields(Clock(t), t);
  }

  /** Text whose fields hold the minutes and seconds of `t` parses to `t`. */
  lemma {:induction false} ParseReadsFields(text: string, t: nat)
    requires t < SecondsPerDay
    requires Shows(text, t / 60, t % 60)
    ensures ParseTime(text) == Some(t)
  {
    SplitMinutes(t);
  }

  /** Within one day nothing is lost: the display parses back to the input,
      so distinct inputs are shown differently. */
  lemma {:induction false} FormatTimeInjectiveWithinDay(a: int, b: int)
    requires 0 <= a < SecondsPerDay && 0 <= b < SecondsPerDay
    ensures FormatTime(a) == FormatTime(b) <==> a == b
  {
    FormatTimeRoundTrip(a);
    FormatTimeRoundTrip(b);
  }

  /** Inputs a whole number of days apart are shown identically. */
  lemma {:induction false} FormatTimeWrapsDaily(seconds: nat, days: nat)
    ensures FormatTime(seconds + days * SecondsPerDay) == FormatTime(seconds)
  {
    assert (seconds + days * SecondsPerDay) % SecondsPerDay == seconds % SecondsPerDay;
  }

  /** Five minutes shows as `05:00`: the minute field is padded to two
      digits and no further. */
  lemma {:induction false} FiveMinutesShown()
    ensures FormatTime(300) == "05:00"
  {
    WholeMinutesShown(5);
    assert DigitChar(5) == '5';
  }

  /** A whole number of minutes below ten shows as `0m:00`. */
  lemma {:induction false} WholeMinutesShown(m: nat)
    requires m < 10
    ensures FormatTime(60 * m) == ['0', DigitChar(m), ':', '0', '0']
  {
    OneDigitPadded(m);
    OneDigitPadded(0);
    assert TimeOfDay(60 * m) == 60 * m;
    assert (60 * m) / 60 == m && (60 * m) % 60 == 0;
    assert Clock(60 * m) == TwoDigits(m) + ":" + TwoDigits(0);
  }

  /** `f"{n:02d}"` of a single digit is that digit behind one zero. */
  lemma {:induction false} OneDigitPadded(n: nat)
    requires n < 10
    ensures TwoDigits(n) == ['0', DigitChar(n)]
  {
    assert FromNat(n) == [DigitChar(n)];
    assert Zeros(1) == "0";
  }
}
