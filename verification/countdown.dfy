/**
 * The two countdown timers. landing-new.js counts down to the end of the
 * month and shows "Dd Hh Mm Ss" or "EXPIRED"; landing-script.js counts down
 * 24 hours and shows a zero-padded "HH:MM:SS" whose hours are not reduced
 * modulo 24. The clock is an input: the functions take the remaining
 * milliseconds.
 */
module Countdown {
  import opened Optional
  import opened Text

  const MsPerSecond: nat := 1000
  const MsPerMinute: nat := 1000 * 60
  const MsPerHour: nat := 1000 * 60 * 60
  const MsPerDay: nat := 1000 * 60 * 60 * 24

  /** Euclidean division is unique: the quotient and remainder of `x` by `n`
      are the only pair that rebuilds `x` with a remainder below `n`. */
  lemma DivModUnique(x: int, n: int, q: int, r: int)
    requires n > 0 && 0 <= r < n && x == q * n + r
    ensures x / n == q && x % n == r
  {
    var k := q - x / n;
    assert k * n == x % n - r;
    if k > 0 {
      MulAtLeast(k, n);
    } else if k < 0 {
      MulAtLeast(-k, n);
    }
  }

  lemma MulAtLeast(k: int, n: int)
    requires k >= 1 && n > 0
    ensures k * n >= n
  {
  }

  // ---------------------------------------------------------------------------
  // landing-new.js: days, hours, minutes, seconds
  // ---------------------------------------------------------------------------

  datatype Remaining = Remaining(days: nat, hours: nat, minutes: nat, seconds: nat)

  /** What the countdown element shows. */
  datatype DaysView = Expired | Left(left: Remaining)

  /** The whole seconds a display stands for, in milliseconds. */
  function RemainingMs(r: Remaining): nat {
    r.days * MsPerDay + r.hours * MsPerHour + r.minutes * MsPerMinute + r.seconds * MsPerSecond
  }

  predicate InRange(r: Remaining) {
    r.hours < 24 && r.minutes < 60 && r.seconds < 60
  }

  /** `updateCountdown` of landing-new.js: a negative distance has expired;
      otherwise the distance is split into days, hours below 24, minutes and
      seconds below 60 that add up to it, to the whole second below. */
  function DaysCountdown(distance: int): (v: DaysView)
    ensures v.Expired? <==> distance < 0
    ensures v.Left? ==> InRange(v.left)
    ensures v.Left? ==> RemainingMs(v.left) <= distance < RemainingMs(v.left) + MsPerSecond
  {
    if distance < 0 then
      Expired
    else
      var r := Remaining(distance / MsPerDay,
                         (distance % MsPerDay) / MsPerHour,
                         (distance % MsPerHour) / MsPerMinute,
                         (distance % MsPerMinute) / MsPerSecond);
      DaysSplitAddsUp(distance);
      Left(r)
  }

  lemma DaysSplitAddsUp(x: nat)
    ensures var r := Remaining(x / MsPerDay, (x % MsPerDay) / MsPerHour,
                               (x % MsPerHour) / MsPerMinute, (x % MsPerMinute) / MsPerSecond);
            InRange(r) && RemainingMs(r) <= x < RemainingMs(r) + MsPerSecond
  {
    var d, r1 := x / MsPerDay, x % MsPerDay;
    var h, r2 := r1 / MsPerHour, r1 % MsPerHour;
    assert r1 == h * MsPerHour + r2;
    assert x == (d * 24 + h) * MsPerHour + r2;
    DivModUnique(x, MsPerHour, d * 24 + h, r2);
    var m, r3 := r2 / MsPerMinute, r2 % MsPerMinute;
    assert x == ((d * 24 + h) * 60 + m) * MsPerMinute + r3;
    DivModUnique(x, MsPerMinute, (d * 24 + h) * 60 + m, r3);
    var s, r4 := r3 / MsPerSecond, r3 % MsPerSecond;
    assert x == d * MsPerDay + h * MsPerHour + m * MsPerMinute + s * MsPerSecond + r4;
  }

  /** The split is the only one within range: any days/hours/minutes/seconds
      with hours below 24 and minutes and seconds below 60 that add up to the
      distance (to the second below) are exactly what the countdown shows. */
  lemma DaysSplitUnique(distance: int, r: Remaining)
    requires InRange(r)
    requires RemainingMs(r) <= distance < RemainingMs(r) + MsPerSecond
    ensures DaysCountdown(distance) == Left(r)
  {
    var rest := distance - RemainingMs(r);
    var e3 := r.seconds * MsPerSecond + rest;
    var e2 := r.minutes * MsPerMinute + e3;
    var e1 := r.hours * MsPerHour + e2;
    assert e3 < MsPerMinute && e2 < MsPerHour && e1 < MsPerDay;
    DivModUnique(distance, MsPerDay, r.days, e1);
    DivModUnique(e1, MsPerHour, r.hours, e2);
    DivModUnique(distance, MsPerHour, r.days * 24 + r.hours, e2);
    DivModUnique(e2, MsPerMinute, r.minutes, e3);
    DivModUnique(distance, MsPerMinute, (r.days * 24 + r.hours) * 60 + r.minutes, e3);
    DivModUnique(e3, MsPerSecond, r.seconds, rest);
  }

  /** The countdown text: `${days}d ${hours}h ${minutes}m ${seconds}s`, or "EXPIRED". */
  function RenderDays(v: DaysView): string {
    match v
    case Expired => "EXPIRED"
    case Left(r) =>
      NatToString(r.days) + ("d " + (NatToString(r.hours) + ("h "
      + (NatToString(r.minutes) + ("m " + (NatToString(r.seconds) + ("s" + [])))))))
  }

  function DaysText(distance: int): string {
    RenderDays(DaysCountdown(distance))
  }

  /** Reads a countdown text back. */
  function ParseDays(t: string): Option<DaysView> {
    if t == "EXPIRED" then Some(Expired)
    else
      match ReadField(t, "d ")
      case None => None
      case Some((d, t1)) =>
        match ReadField(t1, "h ")
        case None => None
        case Some((h, t2)) =>
          match ReadField(t2, "m ")
          case None => None
          case Some((m, t3)) =>
            match ReadField(t3, "s")
            case None => None
            case Some((s, t4)) => if t4 == [] then Some(Left(Remaining(d, h, m, s))) else None
  }

  lemma ParseDaysSteps(t: string, t1: string, t2: string, t3: string, r: Remaining)
    requires t != "EXPIRED"
    requires ReadField(t, "d ") == Some((r.days, t1))
    requires ReadField(t1, "h ") == Some((r.hours, t2))
    requires ReadField(t2, "m ") == Some((r.minutes, t3))
    requires ReadField(t3, "s") == Some((r.seconds, []))
    ensures ParseDays(t) == Some(Left(r))
  {
  }

  /** The text determines the view: reading it back gives what was rendered. */
  lemma ParseRenderDays(v: DaysView)
    ensures ParseDays(RenderDays(v)) == Some(v)
  {
    if v.Left? {
      var r := v.left;
      var t3 := NatToString(r.seconds) + ("s" + []);
      var t2 := NatToString(r.minutes) + ("m " + t3);
      var t1 := NatToString(r.hours) + ("h " + t2);
      var t := NatToString(r.days) + ("d " + t1);
      assert t == RenderDays(v);
      assert t != "EXPIRED" by { assert IsDigit(t[0]); }
      ReadFieldNat(r.days, "d ", t1);
      ReadFieldNat(r.hours, "h ", t2);
      ReadFieldNat(r.minutes, "m ", t3);
      ReadFieldNat(r.seconds, "s", []);
      ParseDaysSteps(t, t1, t2, t3, r);
    }
  }

  /** The shown view stands for the distance rounded down to whole seconds. */
  lemma DaysCountdownSecond(distance: int)
    requires distance >= 0
    ensures RemainingMs(DaysCountdown(distance).left) == (distance / MsPerSecond) * MsPerSecond
  {
    var r := DaysCountdown(distance).left;
    var k := ((r.days * 24 + r.hours) * 60 + r.minutes) * 60 + r.seconds;
    assert RemainingMs(r) == k * MsPerSecond;
    DivModUnique(distance, MsPerSecond, k, distance - RemainingMs(r));
  }

  /** Distinct views render to distinct texts. */
  lemma RenderDaysInjective(v: DaysView, w: DaysView)
    requires RenderDays(v) == RenderDays(w)
    ensures v == w
  {
    ParseRenderDays(v);
    ParseRenderDays(w);
  }

  /** Two non-negative distances show the same text exactly when they fall in
      the same whole second. */
  lemma DaysTextDeterminesSecond(d1: int, d2: int)
    requires d1 >= 0 && d2 >= 0
    ensures DaysText(d1) == DaysText(d2) <==> d1 / MsPerSecond == d2 / MsPerSecond
  {
    var v1, v2 := DaysCountdown(d1), DaysCountdown(d2);
    DaysCountdownSecond(d1);
    DaysCountdownSecond(d2);
    if DaysText(d1) == DaysText(d2) {
      RenderDaysInjective(v1, v2);
    } else if d1 / MsPerSecond == d2 / MsPerSecond {
      DaysSplitUnique(d2, v1.left);
    }
  }

  /** A zero distance shows "0d 0h 0m 0s"; a negative one shows "EXPIRED". */
  lemma DaysTextEdges(distance: int)
    ensures distance < 0 ==> DaysText(distance) == "EXPIRED"
    ensures 0 <= distance < MsPerSecond ==> DaysText(distance) == "0d 0h 0m 0s"
  {
    if 0 <= distance < MsPerSecond {
      DaysSplitUnique(distance, Remaining(0, 0, 0, 0));
    }
  }

  // ---------------------------------------------------------------------------
  // landing-script.js: HH:MM:SS
  // ---------------------------------------------------------------------------

  datatype Clock = Clock(hours: nat, minutes: nat, seconds: nat)

  function ClockMs(c: Clock): nat {
    c.hours * MsPerHour + c.minutes * MsPerMinute + c.seconds * MsPerSecond
  }

  /** The hours/minutes/seconds split of landing-script.js: minutes and seconds
      below 60 and hours unbounded (not reduced modulo 24), adding up to the
      time left to the whole second below. */
  function ClockSplit(timeLeft: nat): (c: Clock)
    ensures c.minutes < 60 && c.seconds < 60
    ensures ClockMs(c) <= timeLeft < ClockMs(c) + MsPerSecond
  {
    var c := Clock(timeLeft / MsPerHour,
                   (timeLeft % MsPerHour) / MsPerMinute,
                   (timeLeft % MsPerMinute) / MsPerSecond);
    ClockSplitAddsUp(timeLeft);
    c
  }

  lemma ClockSplitAddsUp(x: nat)
    ensures var c := Clock(x / MsPerHour, (x % MsPerHour) / MsPerMinute, (x % MsPerMinute) / MsPerSecond);
            c.minutes < 60 && c.seconds < 60 && ClockMs(c) <= x < ClockMs(c) + MsPerSecond
  {
    var h, r2 := x / MsPerHour, x % MsPerHour;
    var m, r3 := r2 / MsPerMinute, r2 % MsPerMinute;
    assert x == (h * 60 + m) * MsPerMinute + r3;
    DivModUnique(x, MsPerMinute, h * 60 + m, r3);
  }

  /** `hh:mm:ss`, each part zero-padded to at least two digits. */
  function RenderClock(c: Clock): string {
    ZeroPad(c.hours, 2) + (":" + (ZeroPad(c.minutes, 2) + (":" + ZeroPad(c.seconds, 2))))
  }

  /** `updateCountdown` of landing-script.js: the split while time is left,
      and the fixed text "00:00:00" once it has run out. */
  function ClockText(timeLeft: int): string {
    if timeLeft > 0 then RenderClock(ClockSplit(timeLeft)) else "00:00:00"
  }

  function ParseClock(t: string): Option<Clock> {
    match ReadField(t, ":")
    case None => None
    case Some((h, t1)) =>
      match ReadField(t1, ":")
      case None => None
      case Some((m, t2)) =>
        match ReadNat(t2)
        case None => None
        case Some((s, t3)) => if t3 == [] then Some(Clock(h, m, s)) else None
  }

  lemma ParseClockSteps(t: string, t1: string, t2: string, c: Clock)
    requires ReadField(t, ":") == Some((c.hours, t1))
    requires ReadField(t1, ":") == Some((c.minutes, t2))
    requires ReadNat(t2) == Some((c.seconds, []))
    ensures ParseClock(t) == Some(c)
  {
  }

  lemma ParseRenderClock(c: Clock)
    ensures ParseClock(RenderClock(c)) == Some(c)
  {
    var t2 := ZeroPad(c.seconds, 2);
    var t1 := ZeroPad(c.minutes, 2) + (":" + t2);
    ReadFieldZeroPad(c.hours, 2, ":", t1);
    ReadFieldZeroPad(c.minutes, 2, ":", t2);
    ReadZeroPadEnd(c.seconds, 2);
    ParseClockSteps(RenderClock(c), t1, t2, c);
  }

  /** `HH:MM:SS` with at least two digits of hours and exactly two of minutes
      and of seconds. */
  predicate ClockShaped(t: string) {
    |t| >= 8 && t[|t| - 6] == ':' && t[|t| - 3] == ':'
    && AllDigits(t[..|t| - 6]) && AllDigits(t[|t| - 5..|t| - 3]) && AllDigits(t[|t| - 2..])
  }

  /** With minutes and seconds below 60, each pads to exactly two digits and
      the hours to at least two. */
  lemma RenderClockShape(c: Clock)
    requires c.minutes < 60 && c.seconds < 60
    ensures ClockShaped(RenderClock(c))
  {
    var h, m, s := ZeroPad(c.hours, 2), ZeroPad(c.minutes, 2), ZeroPad(c.seconds, 2);
    assert Pow10(2) == 100;
    ZeroPadWidth(c.minutes, 2);
    ZeroPadWidth(c.seconds, 2);
    ClockPartsShaped(h, m, s);
  }

  lemma ClockPartsShaped(h: string, m: string, s: string)
    requires |h| >= 2 && |m| == 2 && |s| == 2 && AllDigits(h) && AllDigits(m) && AllDigits(s)
    ensures ClockShaped(h + (":" + (m + (":" + s))))
  {
    var t := h + (":" + (m + (":" + s)));
    assert t[..|h|] == h;
    assert t[|h| + 1..|h| + 3] == m;
    assert t[|h| + 4..] == s;
  }

  /** The shown text reads back as the split (all zeros once time is up), and
      has the `HH:MM:SS` shape. */
  lemma ClockTextShape(timeLeft: int)
    ensures ParseClock(ClockText(timeLeft))
            == Some(if timeLeft > 0 then ClockSplit(timeLeft) else Clock(0, 0, 0))
    ensures ClockShaped(ClockText(timeLeft))
  {
    if timeLeft > 0 {
      ParseRenderClock(ClockSplit(timeLeft));
      RenderClockShape(ClockSplit(timeLeft));
    } else {
      ClockZeroText();
      ParseRenderClock(Clock(0, 0, 0));
      RenderClockShape(Clock(0, 0, 0));
    }
  }

  lemma ClockZeroText()
    ensures RenderClock(Clock(0, 0, 0)) == "00:00:00"
  {
    assert NatToString(0) == "0";
    assert Repeat('0', 1) == "0";
    assert ZeroPad(0, 2) == "00";
  }

  /** Distinct clocks render to distinct texts. */
  lemma RenderClockInjective(c: Clock, c': Clock)
    requires RenderClock(c) == RenderClock(c')
    ensures c == c'
  {
    ParseRenderClock(c);
    ParseRenderClock(c');
  }

  /** The split is all zeros exactly when less than a second is left. */
  lemma ClockSplitZeroIff(timeLeft: nat)
    ensures ClockSplit(timeLeft) == Clock(0, 0, 0) <==> timeLeft < MsPerSecond
  {
    var c := ClockSplit(timeLeft);
    if timeLeft < MsPerSecond {
      assert ClockMs(c) < MsPerSecond;
    }
  }

  /** The display reads "00:00:00" exactly when less than one second is left,
      including every time at or past the end. */
  lemma ClockZeroIff(timeLeft: int)
    ensures ClockText(timeLeft) == "00:00:00" <==> timeLeft < MsPerSecond
  {
    ClockZeroText();
    if timeLeft > 0 {
      var c := ClockSplit(timeLeft);
      ClockSplitZeroIff(timeLeft);
      if RenderClock(c) == "00:00:00" {
        RenderClockInjective(c, Clock(0, 0, 0));
      }
    }
  }
}
