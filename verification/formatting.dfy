/** Time-code formatting of `app/lib/formatting.py`: seconds to
    `[hh:]mm:ss[.ddd][:ff]` and a time code back to seconds. Python floats
    are modelled as exact reals, so `round` and `%f` round half to even on
    the exact value. */
module Formatting {
  import opened Wrappers
  import opened Strings

  // ---------------------------------------------------------------------
  // Rounding and fixed-point rendering

  /** Python's `round(x)` for a float: the nearest integer, ties to even. */
  function RoundHalfEven(x: real): (n: int)
    ensures x - n as real <= 0.5 && n as real - x <= 0.5
    ensures (x - n as real == 0.5 || n as real - x == 0.5) ==> n % 2 == 0
  {
    var f := x.Floor;
    var d := x - f as real;
    if d < 0.5 then f
    else if d > 0.5 then f + 1
    else if f % 2 == 0 then f
    else f + 1
  }

  /** Any integer that is as close as the contract of `RoundHalfEven`
      requires is the one it returns: the rounding is fully determined. */
  lemma RoundHalfEvenUnique(x: real, m: int)
    requires x - m as real <= 0.5 && m as real - x <= 0.5
    requires (x - m as real == 0.5 || m as real - x == 0.5) ==> m % 2 == 0
    ensures RoundHalfEven(x) == m
  {
  }

  lemma RoundWhole(k: int)
    ensures RoundHalfEven(k as real) == k
  {
    RoundHalfEvenUnique(k as real, k);
  }

  function Pow10(n: nat): (p: nat)
    ensures p >= 1
  {
    if n == 0 then 1 else 10 * Pow10(n - 1)
  }

  /** The decimal rendering of `n / 10^places`: the integer part, and a '.'
      and exactly `places` fraction digits when `places` > 0. */
  function ScaledDigits(n: nat, places: nat): string {
    DigitsOver(n, Pow10(places), places)
  }

  /** `n / unit` in decimal, with `places` fraction digits after a '.'. */
  function DigitsOver(n: nat, unit: nat, places: nat): string
    requires unit >= 1
  {
    NatToString(n / unit) + if places > 0 then "." + ZeroPad(NatToString(n % unit), places) else ""
  }

  /** `x` counted in units of `10^-places`, rounded half to even. */
  function RoundedUnits(x: real, places: nat): int {
    RoundHalfEven(Shift(x, places))
  }

  /** `x * 10^places`, one factor of ten at a time. */
  function Shift(x: real, places: nat): real {
    if places == 0 then x else 10.0 * Shift(x, places - 1)
  }

  /** Shifting multiplies by the power of ten. */
  lemma {:induction false} ShiftScales(x: real, places: nat)
    ensures Shift(x, places) == x * (Pow10(places) as real)
  {
    if places > 0 {
      ShiftScales(x, places - 1);
      var p := Pow10(places - 1) as real;
      assert Pow10(places) as real == 10.0 * p;
      assert 10.0 * (x * p) == x * (10.0 * p);
    }
  }

  /** A non-negative value in units of `10^-places`, rounded half to even. */
  function Scaled(x: real, places: nat): nat
    requires x >= 0.0
  {
    var q := RoundedUnits(x, places);
    if q >= 0 then q else 0
  }

  /** Python's `"%0<width>.<places>f" % x`: the sign first, then the rounded
      digits left-padded with zeros to `width` characters in all. */
  function FormatFixed(x: real, width: nat, places: nat): (r: string)
    ensures |r| >= width
  {
    var digits := ScaledDigits(Scaled(Abs(x), places), places);
    if x >= 0.0 then ZeroPad(digits, width)
    else "-" + ZeroPad(digits, if width > 0 then width - 1 else 0)
  }

  /** A negative `x` renders as a '-' and then its magnitude, one character
      narrower. */
  lemma FormatFixedNegative(x: real, width: nat, places: nat)
    requires x < 0.0
    ensures var t := FormatFixed(x, width, places);
            |t| > 0 && t[0] == '-' && t[1..] == FormatFixed(-x, if width > 0 then width - 1 else 0, places)
  {
    var u := FormatFixed(-x, if width > 0 then width - 1 else 0, places);
    assert FormatFixed(x, width, places) == "-" + u;
    assert ("-" + u)[1..] == u;
  }

  function Abs(x: real): (r: real)
    ensures r >= 0.0 && (r == x || r == -x)
  {
    if x >= 0.0 then x else -x
  }

  // ---------------------------------------------------------------------
  // seconds_to_hms as written

  /** The final `%` formatting: `%02d` fields and the seconds field joined
      by ':', with hours only when non-zero or asked for, and the frame
      number last when there is one. */
  function HmsLayout(h: int, m: int, secField: string, frames: Option<int>, alwaysHours: bool): string {
    var hh, mm := FormatInt(h, 2), FormatInt(m, 2);
    var showHours := h != 0 || alwaysHours;
    match frames
    case None => JoinWith(if showHours then [hh, mm, secField] else [mm, secField], ":")
    case Some(f) => JoinWith(if showHours then [hh, mm, secField, FormatInt(f, 2)] else [mm, secField, FormatInt(f, 2)], ":")
  }

  /** The frame split of `seconds_to_hms`: the whole seconds and the frame
      number, carrying into the next second when the rounded frame number
      equals the frame rate. */
  function SplitFrames(seconds: real, framerate: real): (int, int) {
    var frames := RoundHalfEven(FrameOffset(seconds, framerate));
    if frames as real == framerate then (seconds.Floor + 1, 0) else (seconds.Floor, frames)
  }

  /** The fractional part of `seconds` measured in frames. */
  function FrameOffset(seconds: real, framerate: real): (x: real)
    ensures framerate > 0.0 ==> 0.0 <= x < framerate
  {
    var frac := seconds - seconds.Floor as real;
    assert framerate > 0.0 ==> (1.0 - frac) * framerate > 0.0;
    frac * framerate
  }

  /** `seconds_to_hms(seconds, always_include_hours, decimal_places,
      output_frames, framerate)` as the code is written. */
  function SecondsToHms(seconds: real, alwaysHours: bool, decimalPlaces: nat, outputFrames: bool, framerate: real): string {
    if outputFrames then FramesHms(SplitFrames(seconds, framerate), alwaysHours)
    else if decimalPlaces == 0 then WholeHms(RoundHalfEven(seconds), None, alwaysHours)
    else DecimalHms(seconds, decimalPlaces, alwaysHours)
  }

  /** With frames the decimal places are ignored: the whole seconds of the
      split are rounded (which keeps them) and written with the frame number. */
  function FramesHms(split: (int, int), alwaysHours: bool): string {
    WholeHms(RoundHalfEven(split.0 as real), Some(split.1), alwaysHours)
  }

  /** Rounded seconds split by floor division into hours, minutes and
      seconds, the seconds written `%02.0f`. */
  function WholeHms(total: int, frames: Option<int>, alwaysHours: bool): string {
    var mins := total / 60;
    HmsLayout(mins / 60, mins % 60, FormatFixed((total % 60) as real, 2, 0), frames, alwaysHours)
  }

  /** Unrounded seconds split by floor division, the remainder written
      `%0<places+2>.<places>f`. */
  function DecimalHms(secs: real, places: nat, alwaysHours: bool): string {
    DecimalLayout(DivMod60(secs), places, alwaysHours)
  }

  /** Python's `divmod(secs, 60)` on a float: the floored quotient and the
      non-negative remainder below 60 that together make up `secs`. */
  function DivMod60(secs: real): (r: (int, real))
    ensures 0.0 <= r.1 < 60.0 && secs == 60.0 * r.0 as real + r.1
  {
    var q := (secs / 60.0).Floor;
    (q, secs - 60.0 * q as real)
  }

  /** Minutes and the seconds left over, the minutes split again into hours. */
  function DecimalLayout(split: (int, real), places: nat, alwaysHours: bool): string {
    HmsLayout(split.0 / 60, split.0 % 60, FormatFixed(split.1, places + 2, places), None, alwaysHours)
  }

  // ---------------------------------------------------------------------
  // seconds_to_hms as evidently intended

  /** A time code: hours (negative only for negative input), minutes, the
      seconds in units of `10^-places`, and the frame number if any. */
  datatype Timecode = Timecode(hours: int, minutes: nat, units: nat, frames: Option<int>)

  /** The whole time code counted in its seconds units, `unit` of them to
      the minute. */
  function TotalUnits(tc: Timecode, unit: nat): int {
    (tc.hours * 60 + tc.minutes) * unit + tc.units
  }

  /** The frame split with the carry taken whenever the rounded frame number
      reaches a positive frame rate, so that a frame number is always below
      the rate. */
  function SplitFramesFixed(seconds: real, framerate: real): (r: (int, int))
    ensures framerate > 0.0 ==> 0 <= r.1 && (r.1 as real) < framerate
    ensures seconds.Floor <= r.0 <= seconds.Floor + 1
  {
    var frames := RoundHalfEven(FrameOffset(seconds, framerate));
    if frames > 0 && frames as real >= framerate then (seconds.Floor + 1, 0) else (seconds.Floor, frames)
  }

  /** `seconds` rounded to the nearest `10^-places` (ties to even) and split
      into hours, minutes below 60 and seconds below 60. */
  function ToTimecode(seconds: real, places: nat, frames: Option<int>): (tc: Timecode)
    ensures tc.minutes < 60 && tc.units < MinuteUnits(places) && tc.frames == frames
    ensures TotalUnits(tc, MinuteUnits(places)) == RoundedUnits(seconds, places)
  {
    SplitUnits(RoundedUnits(seconds, places), MinuteUnits(places), frames)
  }

  /** How many units of `10^-places` seconds make a minute. */
  function MinuteUnits(places: nat): (u: nat)
    ensures u >= 60
  {
    60 * Pow10(places)
  }

  /** A count of `unit`s split into hours, minutes and the remaining units. */
  function SplitUnits(total: int, unit: nat, frames: Option<int>): (tc: Timecode)
    requires unit >= 1
    ensures tc.minutes < 60 && tc.units < unit && tc.frames == frames
    ensures TotalUnits(tc, unit) == total
  {
    var mins := total / unit;
    assert mins / 60 * 60 + mins % 60 == mins;
    Timecode(mins / 60, mins % 60, total % unit, frames)
  }

  /** The seconds field: two integer digits, then with `places` > 0 a '.' and
      exactly `places` digits. */
  function SecondsField(units: nat, places: nat): string {
    if places == 0 then FormatInt(units, 2) else SplitDecimal(units, Pow10(places), places)
  }

  /** `units` of `1 / unit` as whole and fractional digits. */
  function SplitDecimal(units: nat, unit: nat, places: nat): string
    requires unit >= 1
  {
    DecimalField(units / unit, units % unit, places)
  }

  /** Two integer digits, a '.' and `places` fraction digits. */
  function DecimalField(whole: nat, frac: nat, places: nat): string {
    ZeroPad(NatToString(whole), 2) + "." + ZeroPad(NatToString(frac), places)
  }

  function Render(tc: Timecode, places: nat, alwaysHours: bool): string {
    HmsLayout(tc.hours, tc.minutes, SecondsField(tc.units, places), tc.frames, alwaysHours)
  }

  /** `seconds_to_hms` with its three defects repaired: the seconds field
      keeps its leading zero, rounding to the decimal places happens before
      the split into minutes (so 60 seconds is never shown), and a frame
      number that rounds up to a non-integer frame rate carries. */
  function SecondsToHmsFixed(seconds: real, alwaysHours: bool, decimalPlaces: nat, outputFrames: bool, framerate: real): string {
    if outputFrames then FramesHmsFixed(SplitFramesFixed(seconds, framerate), alwaysHours)
    else Render(ToTimecode(seconds, decimalPlaces, None), decimalPlaces, alwaysHours)
  }

  function FramesHmsFixed(split: (int, int), alwaysHours: bool): string {
    Render(ToTimecode(split.0 as real, 0, Some(split.1)), 0, alwaysHours)
  }

  // ---------------------------------------------------------------------
  // hms_to_seconds

  datatype HmsError =
    | WrongSegmentCount   // "Expected 3 or 4 segments in the time code"
    | NotAnInteger(text: string)

  function ParseField(text: string): (r: Result<int, HmsError>)
    ensures r.Ok? <==> ParseInt(text).Some?
    ensures r.Ok? ==> r.value == ParseInt(text).value
    ensures r.Err? ==> r.error == NotAnInteger(text)
  {
    match ParseInt(text)
    case None => Err(NotAnInteger(text))
    case Some(n) => Ok(n)
  }

  /** `hms_to_seconds(hms_str)`: three fields `h:m:s` or four `h:m:s:f`, each
      read by `int()` from left to right, with frames counted at 25 fps. */
  function HmsToSeconds(hms: string): (r: Result<real, HmsError>)
    ensures var n := |Split(hms, ':')|; n != 3 && n != 4 ==> r == Err(WrongSegmentCount)
  {
    var sections := Split(hms, ':');
    if |sections| != 3 && |sections| != 4 then Err(WrongSegmentCount)
    else
      var h :- ParseField(sections[0]);
      var m :- ParseField(sections[1]);
      var s :- ParseField(sections[2]);
      var f :- if |sections| == 4 then ParseField(sections[3]) else Ok(0);
      Ok((h * 3600 + m * 60 + s) as real + f as real / 25.0)
  }

  // ---------------------------------------------------------------------
  // Rendering facts

  /** A two-digit number renders as exactly its two digits. */
  lemma TwoDigits(a: nat, b: nat)
    requires a < 10 && b < 10
    ensures FormatInt(10 * a + b, 2) == [DigitChar(a), DigitChar(b)]
  {
    var n := 10 * a + b;
    if n >= 10 {
      assert NatToString(n) == NatToString(n / 10) + [DigitChar(n % 10)];
    }
  }

  /** `%0N.0f` and `%0Nd` agree on whole numbers. */
  lemma FixedWhole(k: nat, width: nat)
    ensures FormatFixed(k as real, width, 0) == FormatInt(k, width)
  {
    assert Pow10(0) == 1;
    RoundWhole(k);
    assert Scaled(k as real, 0) == k;
    assert DigitsOver(k, 1, 0) == NatToString(k);
  }

  /** `seconds_to_hms` of a whole number of seconds, without frames or
      decimals: the hours, minutes below 60 and seconds below 60 that make
      it up, the seconds written `%02d`. */
  lemma WholeClock(total: int, h: int, m: nat, s: nat, frames: Option<int>, alwaysHours: bool)
    requires m < 60 && s < 60 && total == (h * 60 + m) * 60 + s
    ensures WholeHms(total, frames, alwaysHours) == HmsLayout(h, m, FormatInt(s, 2), frames, alwaysHours)
  {
    var mins := h * 60 + m;
    ClockDivision(total, mins, s);
    ClockDivision(mins, h, m);
    FixedWhole(s, 2);
  }

  /** The same with frames: the whole seconds of the split need no rounding. */
  lemma FramesClock(total: int, h: int, m: nat, s: nat, f: int, alwaysHours: bool)
    requires m < 60 && s < 60 && total == (h * 60 + m) * 60 + s
    ensures FramesHms((total, f), alwaysHours) == HmsLayout(h, m, FormatInt(s, 2), Some(f), alwaysHours)
  {
    RoundWhole(total);
    assert FramesHms((total, f), alwaysHours) == WholeHms(total, Some(f), alwaysHours);
    WholeClock(total, h, m, s, Some(f), alwaysHours);
  }

  /** Below an hour with decimal places: the minutes, and `%0N.Pf` of what is
      left of the seconds. */
  lemma DecimalClock(t: real, m: nat, x: real, places: nat)
    requires m < 60 && 0.0 <= x < 60.0 && t == m as real * 60.0 + x
    ensures DecimalHms(t, places, false) == HmsLayout(0, m, FormatFixed(x, places + 2, places), None, false)
  {
    DivMod60Unique(t, m, x);
    ClockDivision(m, 0, m);
  }

  /** With hours and decimal places: hours, minutes, and `%0N.Pf` of what is
      left of the seconds. */
  lemma DecimalClockHours(t: real, h: int, m: nat, x: real, places: nat, alwaysHours: bool)
    requires m < 60 && 0.0 <= x < 60.0 && t == (h * 60 + m) as real * 60.0 + x
    ensures DecimalHms(t, places, alwaysHours) == HmsLayout(h, m, FormatFixed(x, places + 2, places), None, alwaysHours)
  {
    DivMod60Unique(t, h * 60 + m, x);
    ClockDivision(h * 60 + m, h, m);
  }

  /** `divmod(t, 60)` is the only split of `t` into whole minutes and a
      remainder in [0, 60). */
  lemma DivMod60Unique(t: real, q: int, r: real)
    requires 0.0 <= r < 60.0 && t == 60.0 * q as real + r
    ensures DivMod60(t) == (q, r)
  {
    var f := (t / 60.0).Floor;
    assert t / 60.0 == q as real + r / 60.0;
    assert 0.0 <= r / 60.0 < 1.0;
    assert q as real <= t / 60.0 < q as real + 1.0;
    assert f == q;
  }

  /** The four shapes of the final `%` formatting. */
  lemma LayoutShort(m: int, b: string)
    ensures HmsLayout(0, m, b, None, false) == FormatInt(m, 2) + ":" + b
  {
    JoinTwo(FormatInt(m, 2), b);
  }

  lemma LayoutLong(h: int, m: int, b: string, alwaysHours: bool)
    requires h != 0 || alwaysHours
    ensures HmsLayout(h, m, b, None, alwaysHours) == FormatInt(h, 2) + ":" + FormatInt(m, 2) + ":" + b
  {
    JoinThree(FormatInt(h, 2), FormatInt(m, 2), b);
  }

  lemma LayoutShortFrames(m: int, b: string, f: int)
    ensures HmsLayout(0, m, b, Some(f), false) == FormatInt(m, 2) + ":" + b + ":" + FormatInt(f, 2)
  {
    JoinThree(FormatInt(m, 2), b, FormatInt(f, 2));
  }

  lemma LayoutLongFrames(h: int, m: int, b: string, f: int, alwaysHours: bool)
    requires h != 0 || alwaysHours
    ensures HmsLayout(h, m, b, Some(f), alwaysHours)
            == FormatInt(h, 2) + ":" + FormatInt(m, 2) + ":" + b + ":" + FormatInt(f, 2)
  {
    JoinFour(FormatInt(h, 2), FormatInt(m, 2), b, FormatInt(f, 2));
  }

  /** `%0Nd` never writes a ':'. */
  lemma NoColon(n: int, width: nat)
    ensures ':' !in FormatInt(n, width)
  {
    var digits := ZeroPad(NatToString(if n >= 0 then n else -n), if n >= 0 || width == 0 then width else width - 1);
    PaddedDigitsValue(if n >= 0 then n else -n, if n >= 0 || width == 0 then width else width - 1);
    assert forall i :: 0 <= i < |digits| ==> digits[i] != ':';
    assert FormatInt(n, width) == digits || FormatInt(n, width) == "-" + digits;
  }

  /** `hms_to_seconds` reads back a time code written with hours and
      without frames: hours, minutes and seconds exactly. */
  lemma ParseRenderSeconds(h: int, m: nat, u: nat)
    ensures HmsToSeconds(Render(Timecode(h, m, u, None), 0, true)) == Ok((h * 3600 + m * 60 + u) as real)
  {
    var a, b, c := FormatInt(h, 2), FormatInt(m, 2), FormatInt(u, 2);
    RenderThreeFields(h, m, u);
    ParseFieldFormat(h);
    ParseFieldFormat(m);
    ParseFieldFormat(u);
    ParseThreeFields(Render(Timecode(h, m, u, None), 0, true), a, b, c, h, m, u);
  }

  /** `hms_to_seconds` reads back a time code written with hours and frames,
      counting the frames at 25 per second. */
  lemma ParseRenderFrames(h: int, m: nat, u: nat, f: int)
    ensures HmsToSeconds(Render(Timecode(h, m, u, Some(f)), 0, true))
            == Ok((h * 3600 + m * 60 + u) as real + f as real / 25.0)
  {
    var a, b, c, d := FormatInt(h, 2), FormatInt(m, 2), FormatInt(u, 2), FormatInt(f, 2);
    RenderFourFields(h, m, u, f);
    ParseFieldFormat(h);
    ParseFieldFormat(m);
    ParseFieldFormat(u);
    ParseFieldFormat(f);
    ParseFourFields(Render(Timecode(h, m, u, Some(f)), 0, true), a, b, c, d, h, m, u, f);
  }

  /** With hours shown and no frames, a time code is its three `%02d`
      fields joined by ':'. */
  lemma RenderThreeFields(h: int, m: nat, u: nat)
    ensures Render(Timecode(h, m, u, None), 0, true) == JoinWith([FormatInt(h, 2), FormatInt(m, 2), FormatInt(u, 2)], ":")
  {
    var a, b, c := FormatInt(h, 2), FormatInt(m, 2), FormatInt(u, 2);
    assert SecondsField(u, 0) == c;
  }

  /** With hours and frames shown, a time code is its four `%02d` fields
      joined by ':'. */
  lemma RenderFourFields(h: int, m: nat, u: nat, f: int)
    ensures Render(Timecode(h, m, u, Some(f)), 0, true)
            == JoinWith([FormatInt(h, 2), FormatInt(m, 2), FormatInt(u, 2), FormatInt(f, 2)], ":")
  {
    var a, b, c, d := FormatInt(h, 2), FormatInt(m, 2), FormatInt(u, 2), FormatInt(f, 2);
    assert SecondsField(u, 0) == c;
  }

  /** Three fields joined by ':' that `int()` reads as hours, minutes and
      seconds. */
  lemma ParseThreeFields(text: string, a: string, b: string, c: string, h: int, m: int, u: int)
    requires text == JoinWith([a, b, c], ":")
    requires ':' !in a && ':' !in b && ':' !in c
    requires ParseField(a) == Ok(h) && ParseField(b) == Ok(m) && ParseField(c) == Ok(u)
    ensures HmsToSeconds(text) == Ok((h * 3600 + m * 60 + u) as real)
  {
    SplitJoin([a, b, c], ':');
  }

  /** Four fields joined by ':' that `int()` reads as hours, minutes, seconds
      and frames. */
  lemma ParseFourFields(text: string, a: string, b: string, c: string, d: string, h: int, m: int, u: int, f: int)
    requires text == JoinWith([a, b, c, d], ":")
    requires ':' !in a && ':' !in b && ':' !in c && ':' !in d
    requires ParseField(a) == Ok(h) && ParseField(b) == Ok(m) && ParseField(c) == Ok(u) && ParseField(d) == Ok(f)
    ensures HmsToSeconds(text) == Ok((h * 3600 + m * 60 + u) as real + f as real / 25.0)
  {
    SplitJoin([a, b, c, d], ':');
  }

  /** `int()` reads each `%02d` field back. */
  lemma ParseFieldFormat(n: int)
    ensures ':' !in FormatInt(n, 2) && ParseField(FormatInt(n, 2)) == Ok(n)
  {
    NoColon(n, 2);
    ParseFormatInt(n, 2);
  }

  // ---------------------------------------------------------------------
  // The written and the intended seconds_to_hms

  /** With a whole positive frame rate the rounded frame number never
      exceeds the rate, so the written carry test and the intended one agree. */
  lemma SplitFramesAgree(seconds: real, k: nat)
    requires k >= 1
    ensures SplitFrames(seconds, k as real) == SplitFramesFixed(seconds, k as real)
  {
    RoundBelow(FrameOffset(seconds, k as real), k);
  }

  /** With a frame rate that is not a whole number (29.97, say) the rounded
      frame number, an integer, can never equal the rate: the written code
      never carries, and a frame number can reach the rate rounded up. */
  lemma FractionalRateNeverCarries(seconds: real, framerate: real)
    requires framerate != framerate.Floor as real
    ensures SplitFrames(seconds, framerate) == (seconds.Floor, RoundHalfEven(FrameOffset(seconds, framerate)))
  {
  }

  /** A value below a whole number `k` rounds to at most `k`. */
  lemma RoundBelow(x: real, k: int)
    requires x < k as real
    ensures RoundHalfEven(x) <= k
  {
  }

  /** Where none of the three defects can show, that is without decimal
      places, and with a whole positive frame rate when frames are shown, the
      written `seconds_to_hms` and the intended one produce the same text. */
  lemma AgreesWithFixed(seconds: real, alwaysHours: bool, decimalPlaces: nat, outputFrames: bool, k: nat)
    requires outputFrames || decimalPlaces == 0
    requires outputFrames ==> k >= 1
    ensures SecondsToHms(seconds, alwaysHours, decimalPlaces, outputFrames, k as real)
            == SecondsToHmsFixed(seconds, alwaysHours, decimalPlaces, outputFrames, k as real)
  {
    if outputFrames {
      SplitFramesAgree(seconds, k);
      var split := SplitFrames(seconds, k as real);
      TimecodeNoPlaces(split.0 as real, Some(split.1));
      WholeAgrees(RoundHalfEven(split.0 as real), Some(split.1), alwaysHours);
    } else {
      TimecodeNoPlaces(seconds, None);
      WholeAgrees(RoundHalfEven(seconds), None, alwaysHours);
    }
  }

  /** A time code is the split of the rounded count of units. */
  lemma TimecodeOf(x: real, places: nat, total: int, frames: Option<int>)
    requires RoundedUnits(x, places) == total
    ensures ToTimecode(x, places, frames) == SplitUnits(total, MinuteUnits(places), frames)
  {
  }

  /** Without decimal places a time code counts whole seconds. */
  lemma TimecodeNoPlaces(x: real, frames: Option<int>)
    ensures ToTimecode(x, 0, frames) == SplitUnits(RoundHalfEven(x), 60, frames)
  {
  }

  /** The written and the intended rendering of a whole number of seconds
      are the same text. */
  lemma WholeAgrees(total: int, frames: Option<int>, alwaysHours: bool)
    ensures WholeHms(total, frames, alwaysHours) == Render(SplitUnits(total, 60, frames), 0, alwaysHours)
  {
    FixedWhole(total % 60, 2);
  }

  /** At 25 frames per second with hours shown, `hms_to_seconds` reads back
      exactly what `seconds_to_hms` wrote for any time `t` on a frame
      boundary, second `n` and frame `k`. */
  lemma {:induction false} FramesRoundTrip(t: real, n: nat, k: nat)
    requires k < 25 && t == n as real + k as real / 25.0
    ensures HmsToSeconds(SecondsToHms(t, true, 0, true, 25.0)) == Ok(t)
  {
    FixedFramesRoundTrip(t, n, k);
    WrittenRoundTrip(t);
  }

  /** Whatever the intended rendering reads back as at 25 fps, so does the
      written one. */
  lemma WrittenRoundTrip(t: real)
    requires HmsToSeconds(SecondsToHmsFixed(t, true, 0, true, 25.0)) == Ok(t)
    ensures HmsToSeconds(SecondsToHms(t, true, 0, true, 25.0)) == Ok(t)
  {
    AgreesWithFixed(t, true, 0, true, 25);
  }

  /** The same round trip for the intended `seconds_to_hms`. */
  lemma {:induction false} FixedFramesRoundTrip(t: real, n: nat, k: nat)
    requires k < 25 && t == n as real + k as real / 25.0
    ensures HmsToSeconds(SecondsToHmsFixed(t, true, 0, true, 25.0)) == Ok(t)
  {
    var split := SplitFramesFixed(t, 25.0);
    FixedFramesAt25(t);
    FrameBoundarySplit(t, n, k);
    FramesReadBack(split, n, k);
  }

  lemma FixedFramesAt25(t: real)
    ensures SecondsToHmsFixed(t, true, 0, true, 25.0) == FramesHmsFixed(SplitFramesFixed(t, 25.0), true)
  {
  }

  /** `n` whole seconds and frame `k`, written with hours, are read back as
      `n + k / 25`. */
  lemma FramesReadBack(split: (int, int), n: nat, k: int)
    requires split == (n, k)
    ensures HmsToSeconds(FramesHmsFixed(split, true)) == Ok(n as real + k as real / 25.0)
  {
    var tc := SplitUnits(n, 60, Some(k));
    RoundWhole(n);
    TimecodeNoPlaces(n as real, Some(k));
    assert FramesHmsFixed(split, true) == Render(tc, 0, true);
    ParseRenderFrames(tc.hours, tc.minutes, tc.units, k);
    assert tc == Timecode(tc.hours, tc.minutes, tc.units, Some(k));
  }

  /** A time on a frame boundary at 25 fps splits into its whole seconds and
      its frame number. */
  lemma {:induction false} FrameBoundarySplit(t: real, n: nat, k: nat)
    requires k < 25 && t == n as real + k as real / 25.0
    ensures SplitFramesFixed(t, 25.0) == (n, k)
  {
    assert t.Floor == n;
    assert FrameOffset(t, 25.0) == k as real;
    RoundWhole(k);
  }

  // ---------------------------------------------------------------------
  // The examples `app/tests.py` expects (default frame rate 24)

  lemma JoinTwo(a: string, b: string)
    ensures JoinWith([a, b], ":") == a + ":" + b
  {
    assert [a, b][1..] == [b];
  }

  lemma JoinThree(a: string, b: string, c: string)
    ensures JoinWith([a, b, c], ":") == a + ":" + b + ":" + c
  {
    assert [a, b, c][1..] == [b, c];
    JoinTwo(b, c);
  }

  lemma JoinFour(a: string, b: string, c: string, d: string)
    ensures JoinWith([a, b, c, d], ":") == a + ":" + b + ":" + c + ":" + d
  {
    assert [a, b, c, d][1..] == [b, c, d];
    JoinThree(b, c, d);
  }

  /** `%02d` of a number below 100, spelled out. */
  lemma Pad2(n: nat)
    requires n < 100
    ensures FormatInt(n, 2) == [DigitChar(n / 10), DigitChar(n % 10)]
  {
    TwoDigits(n / 10, n % 10);
  }

  /** `%02d` of a single digit. */
  lemma PaddedDigit(m: nat, text: string)
    requires m < 10 && text == ['0', DigitChar(m)]
    ensures FormatInt(m, 2) == text
  {
    Pad2(m);
  }

  /** Floor division and remainder by a positive `d` undo `q * d + r`. */
  lemma DivMod(n: int, d: int, q: int, r: int)
    requires d > 0 && 0 <= r < d && n == q * d + r
    ensures n / d == q && n % d == r
  {
    var q', r' := n / d, n % d;
    assert (q - q') * d == r' - r;
    if q > q' {
      MulAtLeast(q - q', d);
    } else if q < q' {
      MulAtLeast(q' - q, d);
    }
  }

  lemma MulAtLeast(x: int, d: int)
    requires x >= 1 && d > 0
    ensures x * d >= d
  {
  }

  /** The intended seconds field of `whole * 10^places + frac` units. */
  lemma DecimalFieldOf(units: nat, places: nat, whole: nat, frac: nat)
    requires places > 0 && frac < Pow10(places) && units == whole * Pow10(places) + frac
    ensures SecondsField(units, places) == DecimalField(whole, frac, places)
  {
    DivMod(units, Pow10(places), whole, frac);
  }

  /** The rounded count of units of a time below an hour, as a time code. */
  lemma TimecodeBelowHour(t: real, places: nat, total: int, m: nat, u: nat)
    requires RoundedUnits(t, places) == total
    requires m < 60 && u < MinuteUnits(places) && total == m * MinuteUnits(places) + u
    ensures ToTimecode(t, places, None) == Timecode(0, m, u, None)
  {
    var unit := MinuteUnits(places);
    TimecodeOf(t, places, total, None);
    UnitsUnderAnHour(total, unit, m, u);
  }

  /** The intended seconds field with one decimal place. */
  lemma OneDecimalField(u: nat, whole: nat, frac: nat)
    requires frac < 10 && u == whole * 10 + frac
    ensures SecondsField(u, 1) == FormatInt(whole, 2) + "." + [DigitChar(frac)]
  {
    assert Pow10(1) == 10;
    DecimalFieldOf(u, 1, whole, frac);
    DecimalFieldOne(whole, frac);
  }

  /** One decimal place: the `%02d` whole part, a '.' and one digit. */
  lemma DecimalFieldOne(whole: nat, frac: nat)
    requires frac < 10
    ensures DecimalField(whole, frac, 1) == FormatInt(whole, 2) + "." + [DigitChar(frac)]
  {
  }

  /** A count of units below an hour splits into its minutes and the units
      left over. */
  lemma UnitsUnderAnHour(total: int, unit: nat, m: nat, u: nat)
    requires unit >= 1 && m < 60 && u < unit && total == m * unit + u
    ensures SplitUnits(total, unit, None) == Timecode(0, m, u, None)
  {
    DivMod(total, unit, m, u);
    ClockDivision(m, 0, m);
  }

  /** Floor division and remainder by 60 undo `q * 60 + r`. */
  lemma ClockDivision(n: int, q: int, r: nat)
    requires r < 60 && n == q * 60 + r
    ensures n / 60 == q && n % 60 == r
  {
  }

  /** Below an hour, whole seconds are written `mm:ss`. */
  lemma UnderAnHour(total: int, m: nat, s: nat, text: string)
    requires m < 60 && s < 60 && total == m * 60 + s
    requires text == FormatInt(m, 2) + ":" + FormatInt(s, 2)
    ensures WholeHms(total, None, false) == text
  {
    WholeClock(total, 0, m, s, None, false);
    LayoutShort(m, FormatInt(s, 2));
  }

  /** With hours shown, whole seconds are written `hh:mm:ss`. */
  lemma WithHours(total: int, h: nat, m: nat, s: nat, alwaysHours: bool, text: string)
    requires m < 60 && s < 60 && (alwaysHours || h > 0) && total == (h * 60 + m) * 60 + s
    requires text == FormatInt(h, 2) + ":" + FormatInt(m, 2) + ":" + FormatInt(s, 2)
    ensures WholeHms(total, None, alwaysHours) == text
  {
    WholeClock(total, h, m, s, None, alwaysHours);
    LayoutLong(h, m, FormatInt(s, 2), alwaysHours);
  }

  /** Below an hour, with decimal places, the seconds field is `%0N.Pf` of
      what is left after the whole minutes. */
  lemma DecimalUnderAnHour(t: real, m: nat, x: real, places: nat, mm: string, field: string, text: string)
    requires m < 60 && 0.0 <= x < 60.0 && t == m as real * 60.0 + x
    requires mm == FormatInt(m, 2) && field == FormatFixed(x, places + 2, places) && text == mm + ":" + field
    ensures DecimalHms(t, places, false) == text
  {
    DecimalClock(t, m, x, places);
    LayoutShort(m, field);
  }

  /** With hours shown and decimal places, the seconds field is `%0N.Pf` of
      what is left after the whole minutes, behind `hh:mm:`. */
  lemma DecimalWithHours(t: real, h: int, m: nat, x: real, places: nat, alwaysHours: bool, text: string)
    requires m < 60 && 0.0 <= x < 60.0 && (h != 0 || alwaysHours) && t == (h * 60 + m) as real * 60.0 + x
    requires text == FormatInt(h, 2) + ":" + FormatInt(m, 2) + ":" + FormatFixed(x, places + 2, places)
    ensures DecimalHms(t, places, alwaysHours) == text
  {
    DecimalClockHours(t, h, m, x, places, alwaysHours);
    LayoutLong(h, m, FormatFixed(x, places + 2, places), alwaysHours);
  }

  /** With frames and below an hour, the time is written `mm:ss:ff` from the
      frame split, whatever the decimal places. */
  lemma FramesUnderAnHour(split: (int, int), m: nat, s: nat, f: int, text: string)
    requires m < 60 && s < 60 && split == (m * 60 + s, f)
    requires text == FormatInt(m, 2) + ":" + FormatInt(s, 2) + ":" + FormatInt(f, 2)
    ensures FramesHms(split, false) == text
  {
    FramesClock(split.0, 0, m, s, f, false);
    LayoutShortFrames(m, FormatInt(s, 2), f);
  }

  /** With frames and hours shown, the time is written `hh:mm:ss:ff`. */
  lemma FramesWithHours(split: (int, int), h: nat, m: nat, s: nat, f: int, alwaysHours: bool, text: string)
    requires m < 60 && s < 60 && (alwaysHours || h > 0)
    requires split == ((h * 60 + m) * 60 + s, f)
    requires text == FormatInt(h, 2) + ":" + FormatInt(m, 2) + ":" + FormatInt(s, 2) + ":" + FormatInt(f, 2)
    ensures FramesHms(split, alwaysHours) == text
  {
    FramesClock(split.0, h, m, s, f, alwaysHours);
    LayoutLongFrames(h, m, FormatInt(s, 2), f, alwaysHours);
  }

  /** `%0N.Pf` of a non-negative value that is a whole number of `10^-P`. */
  lemma ExactFixed(x: real, width: nat, places: nat, n: nat)
    requires x >= 0.0 && Shift(x, places) == n as real
    ensures FormatFixed(x, width, places) == ZeroPad(DigitsOver(n, Pow10(places), places), width)
  {
    assert Abs(x) == x;
    ScaledExact(x, places, n);
  }

  /** A value that is a whole number of `10^-P` needs no rounding. */
  lemma ScaledExact(x: real, places: nat, n: nat)
    requires x >= 0.0 && Shift(x, places) == n as real
    ensures Scaled(x, places) == n
  {
    RoundWhole(n);
    assert RoundedUnits(x, places) == RoundHalfEven(n as real);
  }

  /** A two-digit number written by `str`. */
  lemma NatToStringTwo(n: nat)
    requires 10 <= n < 100
    ensures NatToString(n) == [DigitChar(n / 10), DigitChar(n % 10)]
  {
  }

  lemma SecondsOnlyExample(t: real)
    requires t == 75.0
    ensures SecondsToHms(t, false, 0, false, 24.0) == "01:15"
  {
    Pad2(1);
    Pad2(15);
    RoundWhole(75);
    UnderAnHour(RoundHalfEven(t), 1, 15, "01:15");
  }

  lemma HoursExample(t: real)
    requires t == 3600.0
    ensures SecondsToHms(t, false, 0, false, 24.0) == "01:00:00"
  {
    Pad2(0);
    Pad2(1);
    RoundWhole(3600);
    WithHours(RoundHalfEven(t), 1, 0, 0, false, "01:00:00");
  }

  lemma AlwaysHoursExample(t: real)
    requires t == 75.0
    ensures SecondsToHms(t, true, 0, false, 24.0) == "00:01:15"
  {
    Pad2(0);
    Pad2(1);
    Pad2(15);
    RoundWhole(75);
    WithHours(RoundHalfEven(t), 0, 1, 15, true, "00:01:15");
  }

  lemma SecondsDecimalsExample(t: real)
    requires t == 72.5
    ensures SecondsToHms(t, false, 1, false, 24.0) == "01:12.5"
  {
    assert "01:12.5" == "01" + ":" + "12.5";
    Pad2(1);
    assert Pow10(1) == 10;
    ExactFixed(12.5, 3, 1, 125);
    NatToStringTwo(12);
    DecimalUnderAnHour(t, 1, 12.5, 1, "01", "12.5", "01:12.5");
  }

  lemma SecondsDecimalsTwoExample(t: real)
    requires t == 72.5
    ensures SecondsToHms(t, false, 2, false, 24.0) == "01:12.50"
  {
    assert "01:12.50" == "01" + ":" + "12.50";
    Pad2(1);
    assert Pow10(2) == 100;
    ExactFixed(12.5, 4, 2, 1250);
    NatToStringTwo(12);
    NatToStringTwo(50);
    DecimalUnderAnHour(t, 1, 12.5, 2, "01", "12.50", "01:12.50");
  }

  lemma FramesExample(t: real)
    requires t == 72.5
    ensures SecondsToHms(t, false, 0, true, 24.0) == "01:12:12"
  {
    Pad2(1);
    Pad2(12);
    FramesUnderAnHour(SplitFrames(t, 24.0), 1, 12, 12, "01:12:12");
  }

  lemma FramesThirtyExample(t: real)
    requires t == 72.5
    ensures SecondsToHms(t, false, 0, true, 30.0) == "01:12:15"
  {
    Pad2(1);
    Pad2(12);
    Pad2(15);
    FramesUnderAnHour(SplitFrames(t, 30.0), 1, 12, 15, "01:12:15");
  }

  lemma IgnoreDecimalsExample(t: real)
    requires t == 72.5
    ensures SecondsToHms(t, false, 2, true, 24.0) == "01:12:12"
  {
    Pad2(1);
    Pad2(12);
    FramesUnderAnHour(SplitFrames(t, 24.0), 1, 12, 12, "01:12:12");
  }

  lemma HoursAndFramesExample(t: real)
    requires t == 72.5
    ensures SecondsToHms(t, true, 0, true, 30.0) == "00:01:12:15"
  {
    Pad2(0);
    Pad2(1);
    Pad2(12);
    Pad2(15);
    FramesWithHours(SplitFrames(t, 30.0), 0, 1, 12, 15, true, "00:01:12:15");
  }

  lemma FramesRoundingExample(t: real)
    requires t == 65.16
    ensures SecondsToHms(t, false, 0, true, 25.0) == "01:05:04"
  {
    assert SplitFrames(t, 25.0) == (65, 4) by {
      assert FrameOffset(t, 25.0) == 4.0;
      RoundWhole(4);
    }
    Pad2(1);
    Pad2(5);
    Pad2(4);
    FramesUnderAnHour(SplitFrames(t, 25.0), 1, 5, 4, "01:05:04");
  }

  /** 0.99 of a second is frame 23.76, which rounds to the frame rate itself
      and so carries into the next second. */
  lemma FramesRoundingTwoExample(t: real)
    requires t == 65.99
    ensures SecondsToHms(t, false, 0, true, 24.0) == "01:06:00"
  {
    assert SplitFrames(t, 24.0) == (66, 0) by {
      assert FrameOffset(t, 24.0) == 23.76;
      RoundHalfEvenUnique(23.76, 24);
    }
    Pad2(1);
    Pad2(6);
    Pad2(0);
    FramesUnderAnHour(SplitFrames(t, 24.0), 1, 6, 0, "01:06:00");
  }

  // ---------------------------------------------------------------------
  // Where the written and the intended seconds_to_hms part ways

  /** The intended rendering below an hour with decimal places: `mm:` and
      the seconds field of the rounded time code. */
  lemma FixedDecimalUnderAnHour(t: real, places: nat, m: nat, u: nat, framerate: real, mm: string, field: string, text: string)
    requires places > 0 && ToTimecode(t, places, None) == Timecode(0, m, u, None)
    requires mm == FormatInt(m, 2) && field == SecondsField(u, places) && text == mm + ":" + field
    ensures SecondsToHmsFixed(t, false, places, false, framerate) == text
  {
    LayoutShort(m, SecondsField(u, places));
  }

  /** The intended rendering below an hour with frames: `mm:ss:ff`. */
  lemma FixedFramesUnderAnHour(split: (int, int), m: nat, s: nat, f: int, text: string)
    requires m < 60 && s < 60 && split == (m * 60 + s, f)
    requires text == FormatInt(m, 2) + ":" + FormatInt(s, 2) + ":" + FormatInt(f, 2)
    ensures FramesHmsFixed(split, false) == text
  {
    var k := split.0;
    var x := k as real;
    RoundWhole(k);
    TimecodeNoPlaces(x, Some(f));
    ClockTimecode(k, m, s, Some(f));
    assert SecondsField(s, 0) == FormatInt(s, 2);
    LayoutShortFrames(m, FormatInt(s, 2), f);
  }

  /** A whole number of seconds below an hour as a time code. */
  lemma ClockTimecode(k: int, m: nat, s: nat, frames: Option<int>)
    requires m < 60 && s < 60 && k == m * 60 + s
    ensures SplitUnits(k, 60, frames) == Timecode(0, m, s, frames)
  {
    ClockDivision(k, m, s);
    ClockDivision(m, 0, m);
  }

  /** The written code formats the seconds with `%03.1f`, so 5.5 seconds
      lose their leading zero. */
  lemma LeadingZeroDropped(t: real)
    requires t == 65.5
    ensures SecondsToHms(t, false, 1, false, 24.0) == "01:5.5"
  {
    DroppedHms(t);
  }

  lemma DroppedHms(t: real)
    requires t == 65.5
    ensures DecimalHms(t, 1, false) == "01:5.5"
  {
    var m, x := 1, 5.5;
    DroppedParts(m, x, "01", "5.5", "01:5.5");
    DecimalUnderAnHour(t, m, x, 1, "01", "5.5", "01:5.5");
  }

  lemma DroppedParts(m: nat, x: real, mm: string, field: string, text: string)
    requires m == 1 && x == 5.5 && mm == "01" && field == "5.5" && text == "01:5.5"
    ensures mm == FormatInt(m, 2) && field == FormatFixed(x, 3, 1) && text == mm + ":" + field
  {
    assert text == mm + ":" + field;
    PaddedDigit(m, mm);
    DroppedField(x);
  }

  lemma LeadingZeroKept(t: real)
    requires t == 65.5
    ensures SecondsToHmsFixed(t, false, 1, false, 24.0) == "01:05.5"
  {
    KeptTimecode(t);
    KeptText(t, 1, 55);
  }

  lemma KeptTimecode(t: real)
    requires t == 65.5
    ensures ToTimecode(t, 1, None) == Timecode(0, 1, 55, None)
  {
    assert Pow10(1) == 10;
    assert MinuteUnits(1) == 600;
    assert RoundedUnits(t, 1) == 655 by {
      RoundWhole(655);
    }
    TimecodeBelowHour(t, 1, 655, 1, 55);
  }

  lemma KeptText(t: real, m: nat, u: nat)
    requires m == 1 && u == 55 && ToTimecode(t, 1, None) == Timecode(0, m, u, None)
    ensures SecondsToHmsFixed(t, false, 1, false, 24.0) == "01:05.5"
  {
    assert "01:05.5" == "01" + ":" + "05.5";
    KeptFields(m, u);
    FixedDecimalUnderAnHour(t, 1, m, u, 24.0, "01", "05.5", "01:05.5");
  }

  /** 5.5 with `%03.1f` is three characters already, so nothing is padded. */
  lemma DroppedField(x: real)
    requires x == 5.5
    ensures FormatFixed(x, 3, 1) == "5.5"
  {
    assert Pow10(1) == 10;
    ScaledExact(x, 1, 55);
    assert Abs(x) == x;
  }

  /** The written code splits off the minutes before rounding the seconds,
      so 59.96 seconds round up to a seconds field of 60. */
  lemma SixtySecondsShown(t: real)
    requires t == 59.96
    ensures SecondsToHms(t, false, 1, false, 24.0) == "00:60.0"
  {
    var m, x := 0, 59.96;
    assert "00:60.0" == "00" + ":" + "60.0";
    PaddedDigit(m, "00");
    SixtyField(x);
    DecimalUnderAnHour(t, m, x, 1, "00", "60.0", "00:60.0");
  }

  /** 59.96 to one decimal place is 60.0. */
  lemma SixtyField(x: real)
    requires x == 59.96
    ensures FormatFixed(x, 3, 1) == "60.0"
  {
    assert Pow10(1) == 10;
    assert Scaled(x, 1) == 600 by {
      RoundHalfEvenUnique(599.6, 600);
    }
    assert Abs(x) == x;
    NatToStringTwo(60);
  }

  lemma CarriedFields(m: nat, u: nat)
    requires m == 1 && u == 0
    ensures FormatInt(m, 2) == "01" && SecondsField(u, 1) == "00.0"
  {
    Pad2(m);
    TenthsField(u, 0, 0, "00.0");
  }

  lemma KeptFields(m: nat, u: nat)
    requires m == 1 && u == 55
    ensures FormatInt(m, 2) == "01" && SecondsField(u, 1) == "05.5"
  {
    Pad2(m);
    TenthsField(u, 5, 5, "05.5");
  }

  /** A seconds field to one decimal place below ten seconds, spelled out. */
  lemma TenthsField(u: nat, whole: nat, frac: nat, text: string)
    requires whole < 10 && frac < 10 && u == whole * 10 + frac
    requires text == ['0', DigitChar(whole), '.', DigitChar(frac)]
    ensures SecondsField(u, 1) == text
  {
    OneDecimalField(u, whole, frac);
    Pad2(whole);
  }

  lemma SixtySecondsCarried(t: real)
    requires t == 59.96
    ensures SecondsToHmsFixed(t, false, 1, false, 24.0) == "01:00.0"
  {
    CarriedTimecode(t);
    CarriedText(t, 1, 0);
  }

  /** 59.96 seconds are 599.6 tenths, which round to a whole minute. */
  lemma CarriedTimecode(t: real)
    requires t == 59.96
    ensures ToTimecode(t, 1, None) == Timecode(0, 1, 0, None)
  {
    assert Pow10(1) == 10;
    assert MinuteUnits(1) == 600;
    assert RoundedUnits(t, 1) == 600 by {
      RoundHalfEvenUnique(599.6, 600);
    }
    TimecodeBelowHour(t, 1, 600, 1, 0);
  }

  lemma CarriedText(t: real, m: nat, u: nat)
    requires m == 1 && u == 0 && ToTimecode(t, 1, None) == Timecode(0, m, u, None)
    ensures SecondsToHmsFixed(t, false, 1, false, 24.0) == "01:00.0"
  {
    assert "01:00.0" == "01" + ":" + "00.0";
    CarriedFields(m, u);
    FixedDecimalUnderAnHour(t, 1, m, u, 24.0, "01", "00.0", "01:00.0");
  }

  /** At 29.97 fps, 0.99 of a second is frame 29.67, which rounds to 30: not
      equal to the rate, so the written code shows frame 30 of a second that
      has only 29.97. */
  lemma FrameRateExceeded(t: real)
    requires t == 0.99
    ensures SecondsToHms(t, false, 0, true, 29.97) == "00:00:30"
  {
    assert SplitFrames(t, 29.97) == (0, 30) by {
      assert FrameOffset(t, 29.97) == 29.6703;
      RoundHalfEvenUnique(29.6703, 30);
    }
    assert "00:00:30" == FormatInt(0, 2) + ":" + FormatInt(0, 2) + ":" + FormatInt(30, 2) by {
      Pad2(0);
      Pad2(30);
    }
    FramesUnderAnHour(SplitFrames(t, 29.97), 0, 0, 30, "00:00:30");
  }

  lemma FrameRateCarried(t: real)
    requires t == 0.99
    ensures SecondsToHmsFixed(t, false, 0, true, 29.97) == "00:01:00"
  {
    assert SplitFramesFixed(t, 29.97) == (1, 0) by {
      assert FrameOffset(t, 29.97) == 29.6703;
      RoundHalfEvenUnique(29.6703, 30);
    }
    Pad2(0);
    Pad2(1);
    FixedFramesUnderAnHour(SplitFramesFixed(t, 29.97), 0, 1, 0, "00:01:00");
  }

  /** A number below `10^k` has at most `k` digits. */
  lemma {:induction false} NatToStringFits(n: nat, k: nat)
    requires k >= 1 && n < Pow10(k)
    ensures |NatToString(n)| <= k
    decreases k
  {
    if n >= 10 {
      assert k >= 2;
      NatToStringFits(n / 10, k - 1);
    }
  }

  /** The intended seconds field with decimal places has a fixed width:
      two integer digits, a '.' and exactly `places` digits, for any whole
      part below 100 and fraction below `10^places`. */
  lemma DecimalFieldWidth(whole: nat, frac: nat, places: nat)
    requires whole < 100 && frac < Pow10(places) && places >= 1
    ensures |DecimalField(whole, frac, places)| == places + 3
  {
    BelowHundred(whole);
    NatToStringFits(frac, places);
  }

  /** A number below 100 has at most two digits. */
  lemma BelowHundred(n: nat)
    requires n < 100
    ensures |NatToString(n)| <= 2
  {
    assert Pow10(2) == 100;
    NatToStringFits(n, 2);
  }

}
