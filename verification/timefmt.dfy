/**
 * `formatTimeToHMS` of the browser client: a playback time rendered as
 * `MM:SS.cc`, or `HH:MM:SS.cc` once it reaches an hour. Times are integer
 * centiseconds, so every field is exact.
 */
module TimeFormat {
  import opened Wrappers
  import opened Text

  // A second is 100 centiseconds, a minute 6000 and an hour 360000; the literals are
  // written out so that the arithmetic stays linear for the solver.

  /** The `MM:SS.cc` part of a time: minutes within the hour, seconds, centiseconds. */
  function Clock(cs: nat): string
  {
    var minutes := cs % 360000 / 6000;
    var secs := cs % 6000 / 100;
    var centis := cs % 100;
    Pad2(minutes) + ":" + Pad2(secs) + "." + Pad2(centis)
  }

  /** The rendered time: hours only when there is at least one, every field padded to two digits. */
  function FormatTimeToHms(cs: nat): string
  {
    var hours := cs / 360000;
    if hours > 0 then Pad2(hours) + ":" + Clock(cs) else Clock(cs)
  }

  /** Reads a fixed-width `MM:SS.cc` field group back into centiseconds. */
  function ParseClock(s: string): Option<nat>
  {
    if |s| == 8 && s[2] == ':' && s[5] == '.'
       && AllDigits(s[0..2]) && AllDigits(s[3..5]) && AllDigits(s[6..8])
    then Some(DigitsValue(s[0..2]) * 6000 + DigitsValue(s[3..5]) * 100 + DigitsValue(s[6..8]))
    else None
  }

  /** Reads a rendered time back: `MM:SS.cc`, or a digit run of hours, a colon and `MM:SS.cc`. */
  function ParseHms(s: string): Option<nat>
  {
    if |s| == 8 then ParseClock(s)
    else if |s| > 9 && s[|s| - 9] == ':' && AllDigits(s[..|s| - 9]) then
      match ParseClock(s[|s| - 8..])
      case Some(c) => Some(DigitsValue(s[..|s| - 9]) * 360000 + c)
      case None => None
    else None
  }

  /** Stripping whole hours keeps the remainder below a minute-multiple: `cs % 6000` is unchanged. */
  lemma {:induction false} HourRemainder(cs: nat)
    ensures cs % 360000 % 6000 == cs % 6000
  {
    var h := cs / 360000;
    var r := cs % 360000;
    assert cs == 6000 * (60 * h) + r;
    var q := r % 6000;
    assert r == 6000 * (r / 6000) + q;
    assert cs == 6000 * (60 * h + r / 6000) + q;
  }

  /** Stripping whole minutes keeps `cs % 100` unchanged. */
  lemma {:induction false} MinuteRemainder(cs: nat)
    ensures cs % 6000 % 100 == cs % 100
  {
    var r := cs % 6000;
    assert cs == 100 * (60 * (cs / 6000)) + r;
    assert r == 100 * (r / 100) + r % 100;
    assert cs == 100 * (60 * (cs / 6000) + r / 100) + r % 100;
  }

  /** The four fields of a time recompose it, and minutes and seconds stay below 60. */
  lemma {:induction false} FieldsRecompose(cs: nat)
    ensures cs % 360000 / 6000 < 60
    ensures cs % 6000 / 100 < 60
    ensures cs % 360000 == cs % 360000 / 6000 * 6000 + cs % 6000 / 100 * 100 + cs % 100
    ensures cs == cs / 360000 * 360000 + cs % 360000
  {
    HourRemainder(cs);
    MinuteRemainder(cs);
  }

  /** Three fields below 100, padded and joined, make an eight-character `MM:SS.cc`. */
  lemma {:induction false} ClockText(m: nat, sec: nat, c: nat)
    requires m < 100 && sec < 100 && c < 100
    ensures var t := Pad2(m) + ":" + Pad2(sec) + "." + Pad2(c);
      && |t| == 8 && t[2] == ':' && t[5] == '.'
      && t[0..2] == Pad2(m) && t[3..5] == Pad2(sec) && t[6..8] == Pad2(c)
  {
    Pad2Properties(m);
    Pad2Properties(sec);
    Pad2Properties(c);
  }

  /** The clock part is eight characters, its fields are digits, and it reads back as the time within the hour. */
  lemma {:induction false} ClockLayout(cs: nat)
    ensures var c := Clock(cs);
      && |c| == 8 && c[2] == ':' && c[5] == '.'
      && AllDigits(c[0..2]) && DigitsValue(c[0..2]) < 60
      && AllDigits(c[3..5]) && DigitsValue(c[3..5]) < 60
      && AllDigits(c[6..8])
      && ParseClock(c) == Some(cs % 360000)
  {
    FieldsRecompose(cs);
    var minutes := cs % 360000 / 6000;
    var secs := cs % 6000 / 100;
    var centis := cs % 100;
    ClockText(minutes, secs, centis);
    Pad2Properties(minutes);
    Pad2Properties(secs);
    Pad2Properties(centis);
  }

  /** The rendered time ends in the clock part, preceded by the padded hours and a colon once there are hours. */
  lemma {:induction false} FormatSplits(cs: nat)
    ensures var r := FormatTimeToHms(cs);
      && |r| >= 8 && r[|r| - 8..] == Clock(cs)
      && (cs < 360000 ==> r == Clock(cs))
      && (cs >= 360000 ==>
            |r| >= 11 && r[|r| - 9] == ':' && r[..|r| - 9] == Pad2(cs / 360000))
  {
    var c := Clock(cs);
    ClockText(cs % 360000 / 6000, cs % 6000 / 100, cs % 100);
    assert |c| == 8;
    var h := cs / 360000;
    if cs >= 360000 {
      assert h > 0;
      Pad2Properties(h);
      var p := Pad2(h);
      var r := p + ":" + c;
      assert FormatTimeToHms(cs) == r;
      assert r[..|r| - 9] == p && r[|r| - 9] == ':' && r[|r| - 8..] == c;
    }
  }

  /**
   * Shape of the rendered text: `MM:SS.cc` (8 characters) below one hour, otherwise
   * at least two hour digits and a colon in front; minutes and seconds read back below 60.
   */
  lemma {:induction false} FormatLayout(cs: nat)
    ensures var r := FormatTimeToHms(cs);
      && |r| >= 8 && r[|r| - 6] == ':' && r[|r| - 3] == '.'
      && AllDigits(r[|r| - 8..|r| - 6]) && DigitsValue(r[|r| - 8..|r| - 6]) < 60
      && AllDigits(r[|r| - 5..|r| - 3]) && DigitsValue(r[|r| - 5..|r| - 3]) < 60
      && AllDigits(r[|r| - 2..])
      && (cs < 360000 <==> |r| == 8)
      && (cs >= 360000 ==> |r| >= 11 && r[|r| - 9] == ':' && AllDigits(r[..|r| - 9]))
  {
    ClockLayout(cs);
    FormatSplits(cs);
    var r := FormatTimeToHms(cs);
    var c := Clock(cs);
    var k := |r| - 8;
    assert r[k..] == c;
    assert r[k..k + 2] == c[0..2];
    assert r[k + 3..k + 5] == c[3..5];
    assert r[k + 6..] == c[6..8];
    assert r[k + 2] == c[2] && r[k + 5] == c[5];
    if cs >= 360000 {
      Pad2Properties(cs / 360000);
    }
  }

  /** Reading a rendered time back gives the original number of centiseconds. */
  lemma {:induction false} FormatParseRoundTrip(cs: nat)
    ensures ParseHms(FormatTimeToHms(cs)) == Some(cs)
  {
    FieldsRecompose(cs);
    ClockLayout(cs);
    FormatSplits(cs);
    var r := FormatTimeToHms(cs);
    if cs >= 360000 {
      Pad2Properties(cs / 360000);
      assert r[|r| - 8..] == Clock(cs);
    }
  }
}
