/**
 Clock times as the calendars print them: Python's `f"{h:02d}:00"` renders
 the hour in decimal, padded with a leading zero to at least two digits,
 followed by a colon and the minutes. Reading such a text back gives the
 time again, which is what makes different times different texts.
 */
module TimeText {
  import opened Collections

  predicate IsDigit(ch: char) {
    '0' <= ch <= '9'
  }

  function DigitChar(d: nat): (ch: char)
    requires d < 10
    ensures IsDigit(ch)
  {
    ['0', '1', '2', '3', '4', '5', '6', '7', '8', '9'][d]
  }

  function DigitValue(ch: char): (d: nat)
    requires IsDigit(ch)
    ensures d < 10
  {
    (ch as int - '0' as int) as nat
  }

  lemma DigitRoundTrip(d: nat)
    requires d < 10
    ensures DigitValue(DigitChar(d)) == d
  {
  }

  predicate AllDigits(s: string) {
    forall i :: 0 <= i < |s| ==> IsDigit(s[i])
  }

  /** `str(n)` for a natural number: its decimal digits, most significant
      first, with no leading zero. */
  function Decimal(n: nat): (s: string)
    ensures s != [] && AllDigits(s)
    ensures |s| == 1 <==> n < 10
    ensures n < 100 ==> |s| <= 2
    ensures n >= 10 ==> s[0] != '0'
    decreases n
  {
    if n < 10 then [DigitChar(n)]
    else
      assert n / 10 >= 1;
      assert n / 10 < 10 ==> DigitChar(n / 10) != '0';
      Decimal(n / 10) + [DigitChar(n % 10)]
  }

  /** The number a string of digits denotes. */
  function Value(s: string): nat
    requires AllDigits(s)
  {
    if s == [] then 0
    else Value(s[..|s| - 1]) * 10 + DigitValue(s[|s| - 1])
  }

  /** Reading a decimal string: `None` unless it is a non-empty run of
      digits. */
  function ParseDecimal(s: string): (r: Option<nat>)
    ensures r.Some? <==> s != [] && AllDigits(s)
  {
    if s != [] && AllDigits(s) then Some(Value(s)) else None
  }

  lemma {:induction false} DecimalValue(n: nat)
    ensures Value(Decimal(n)) == n
    decreases n
  {
    if n >= 10 {
      var s := Decimal(n);
      assert s[..|s| - 1] == Decimal(n / 10);
      DecimalValue(n / 10);
      DigitRoundTrip(n % 10);
    } else {
      DigitRoundTrip(n);
    }
  }

  /** A leading zero does not change the value. */
  lemma {:induction false} LeadingZero(s: string)
    requires AllDigits(s)
    ensures AllDigits("0" + s)
    ensures Value("0" + s) == Value(s)
  {
    var t := "0" + s;
    assert AllDigits(t) by {
      forall i | 0 <= i < |t|
        ensures IsDigit(t[i])
      {
        if i > 0 {
          assert t[i] == s[i - 1];
        }
      }
    }
    if s != [] {
      assert t[..|t| - 1] == "0" + s[..|s| - 1];
      LeadingZero(s[..|s| - 1]);
    }
  }

  /** `f"{n:02d}"`: at least two digits, a leading zero below ten. */
  function Pad2(n: nat): (s: string)
    ensures |s| >= 2 && AllDigits(s)
    ensures n < 100 ==> |s| == 2
    ensures n >= 10 ==> s == Decimal(n)
    ensures ParseDecimal(s) == Some(n)
  {
    DecimalValue(n);
    if n < 10 then
      LeadingZero(Decimal(n));
      "0" + Decimal(n)
    else Decimal(n)
  }

  /** A time of day as the calendars compute it. */
  datatype Clock = Clock(hour: nat, minute: nat)

  /** `f"{hour:02d}:{minute:02d}"`: the calendars print `f"{h:02d}:00"` and
      `f"{h:02d}:40"`, which is this text for minutes 0 and 40. */
  function Render(c: Clock): (t: string)
    ensures ReadClock(t) == Some(c)
  {
    ReadJoined(c.hour, c.minute);
    Pad2(c.hour) + ":" + Pad2(c.minute)
  }

  /** Two padded numbers joined by a colon read back as those numbers. */
  lemma ReadJoined(hour: nat, minute: nat)
    ensures ReadClock(Pad2(hour) + ":" + Pad2(minute)) == Some(Clock(hour, minute))
  {
    var h := Pad2(hour);
    var m := Pad2(minute);
    assert ':' !in h;
    BeforeColonOf(h, m);
    assert (h + ":" + m)[|h| + 1..] == m;
  }

  /** The text before the first colon. */
  function BeforeColon(t: string): (r: string)
    ensures |r| <= |t| && r == t[..|r|]
    ensures ':' !in r
  {
    if t == [] || t[0] == ':' then [] else [t[0]] + BeforeColon(t[1..])
  }

  /** Reads `HH:MM` back: the digits before the first colon are the hour and
      the rest, which must be digits, the minute. */
  function ReadClock(t: string): Option<Clock> {
    var h := BeforeColon(t);
    if |h| < |t| then
      match (ParseDecimal(h), ParseDecimal(t[|h| + 1..]))
      case (Some(hour), Some(minute)) => Some(Clock(hour, minute))
      case _ => None
    else None
  }

  lemma {:induction false} BeforeColonOf(a: string, b: string)
    requires ':' !in a
    ensures BeforeColon(a + ":" + b) == a
  {
    if a != [] {
      assert (a + ":" + b)[1..] == a[1..] + ":" + b;
      BeforeColonOf(a[1..], b);
    }
  }

  /** Different clocks never print as the same text. */
  lemma RenderInjective(a: Clock, b: Clock)
    requires Render(a) == Render(b)
    ensures a == b
  {
  }

  /** The padded texts of the hours and minutes the calendars use first. */
  lemma FirstPads()
    ensures Pad2(0) == "00" && Pad2(8) == "08" && Pad2(9) == "09"
    ensures Pad2(10) == "10" && Pad2(11) == "11" && Pad2(40) == "40"
  {
    assert Decimal(0) == "0" && Decimal(8) == "8" && Decimal(9) == "9";
    assert Decimal(10) == "10" by { assert Decimal(1) == "1"; }
    assert Decimal(11) == "11" by { assert Decimal(1) == "1"; }
    assert Decimal(40) == "40" by { assert Decimal(4) == "4"; }
  }

  /** The texts of the first cycle of the stacking calendar. */
  lemma FirstCycleTexts()
    ensures Render(Clock(8, 0)) == "08:00" && Render(Clock(9, 40)) == "09:40"
  {
    FirstPads();
  }

  /** The texts of the second cycle of the stacking calendar. */
  lemma SecondCycleTexts()
    ensures Render(Clock(10, 0)) == "10:00" && Render(Clock(11, 40)) == "11:40"
  {
    FirstPads();
  }
}
