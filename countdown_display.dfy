/**
 * The countdown's display derivation: total and remaining seconds, the split into
 * minutes and seconds, the two-character zero padding, and the five characters the
 * countdown shows ("MM:SS").
 */
module CountdownDisplay {
  import opened Wrappers
  import opened Cycles

  /** `totalSeconds`: the active cycle's duration in seconds; 0 with no active cycle. */
  function TotalSeconds(active: Option<Cycle>): (r: int)
    ensures active.None? ==> r == 0
    ensures active.Some? ==> r % 60 == 0 && r / 60 == active.value.minutesAmount
  {
    match active
    case None => 0
    case Some(c) => c.minutesAmount * 60
  }

  /** `currentSeconds`: the seconds still to run; 0 with no active cycle. */
  function CurrentSeconds(active: Option<Cycle>, secondsPassed: int): (r: int)
    ensures active.None? ==> r == 0
    ensures active.Some? ==> r + secondsPassed == TotalSeconds(active)
    ensures active.Some? && 0 <= secondsPassed <= TotalSeconds(active) ==>
              0 <= r <= TotalSeconds(active)
  {
    if active.Some? then TotalSeconds(active) - secondsPassed else 0
  }

  /** `Math.floor(currentSeconds / 60)`. */
  function MinutesAmount(current: int): (r: int)
    ensures r * 60 <= current < r * 60 + 60
  {
    current / 60
  }

  /** `currentSeconds % 60` with JavaScript's `%`, whose remainder carries the sign of the dividend. */
  function SecondsAmount(current: int): (r: int)
    ensures current >= 0 ==> 0 <= r < 60 && r == current - MinutesAmount(current) * 60
    ensures current < 0 ==> -60 < r <= 0
    ensures (current - r) % 60 == 0
  {
    if current >= 0 then current % 60 else -((-current) % 60)
  }

  /** For a non-negative remaining time the split is exact and the seconds lie in 0..59. */
  lemma SplitRemaining(current: int)
    requires current >= 0
    ensures MinutesAmount(current) * 60 + SecondsAmount(current) == current
    ensures 0 <= SecondsAmount(current) < 60 && MinutesAmount(current) >= 0
  {
  }

  predicate IsDigit(c: char) {
    '0' <= c <= '9'
  }

  function Digit(d: nat): (c: char)
    requires d < 10
    ensures IsDigit(c) && c as int - '0' as int == d
  {
    ('0' as int + d) as char
  }

  function DigitValue(c: char): int {
    c as int - '0' as int
  }

  /** `String(n)` for a non-negative integer: its decimal digits, most significant first. */
  function NatToString(n: nat): (s: string)
    ensures 1 <= |s| && forall i :: 0 <= i < |s| ==> IsDigit(s[i])
    ensures s[0] != '0' || n == 0
    decreases n
  {
    if n < 10 then [Digit(n)] else NatToString(n / 10) + [Digit(n % 10)]
  }

  /** `String(n)` for any integer: a leading '-' for a negative one. */
  function IntToString(n: int): (r: string)
    ensures |r| >= 1 && (r[0] == '-' <==> n < 0)
    ensures n < 0 ==> |r| >= 2 && (forall i :: 1 <= i < |r| ==> IsDigit(r[i])) && DigitsValue(r[1..]) == -n
    ensures n >= 0 ==> (forall i :: 0 <= i < |r| ==> IsDigit(r[i])) && DigitsValue(r) == n
    ensures n > 0 ==> r[0] != '0'
    ensures n < 0 ==> r[1] != '0'
  {
    if n < 0 then
      NatToStringRoundTrip(-n);
      assert ("-" + NatToString(-n))[1..] == NatToString(-n);
      "-" + NatToString(-n)
    else
      NatToStringRoundTrip(n);
      NatToString(n)
  }

  /** The number a string of decimal digits denotes. */
  function DigitsValue(s: string): int
    decreases |s|
  {
    if s == [] then 0 else DigitsValue(s[..|s| - 1]) * 10 + DigitValue(s[|s| - 1])
  }

  /** Reading back the decimal digits of n gives n. */
  lemma {:induction false} NatToStringRoundTrip(n: nat)
    ensures DigitsValue(NatToString(n)) == n
    decreases n
  {
    var s := NatToString(n);
    if n >= 10 {
      NatToStringRoundTrip(n / 10);
      assert s[..|s| - 1] == NatToString(n / 10);
    }
  }

  /** `s.padStart(targetLength, fill)`: fill prepended until the string is targetLength long. */
  function PadStart(s: string, targetLength: nat, fill: char): (r: string)
    ensures |r| == if |s| >= targetLength then |s| else targetLength
    ensures forall i :: 0 <= i < |r| ==> r[i] == if i < |r| - |s| then fill else s[i - (|r| - |s|)]
  {
    if |s| >= targetLength then s else Repeat(fill, targetLength - |s|) + s
  }

  /** `n` copies of `c`. */
  function Repeat(c: char, n: nat): (r: string)
    ensures |r| == n && forall i :: 0 <= i < n ==> r[i] == c
  {
    if n == 0 then [] else [c] + Repeat(c, n - 1)
  }

  /** `String(n).padStart(2, '0')`. */
  function TwoDigits(n: int): (r: string)
    ensures |r| >= 2
  {
    PadStart(IntToString(n), 2, '0')
  }

  /** For 0..99 the padded string is exactly the two decimal digits of n. */
  lemma TwoDigitsOfSmall(n: int)
    requires 0 <= n <= 99
    ensures TwoDigits(n) == [Digit(n / 10), Digit(n % 10)]
  {
    if n < 10 {
      assert IntToString(n) == [Digit(n)];
      assert n / 10 == 0 && n % 10 == n;
    } else {
      var high, low := n / 10, n % 10;
      assert high < 10;
      assert NatToString(high) == [Digit(high)];
      assert IntToString(n) == [Digit(high)] + [Digit(low)];
    }
  }

  /** The five characters the countdown renders: minutes[0], minutes[1], ':', seconds[0], seconds[1]. */
  function Display(current: int): (r: string)
    ensures |r| == 5 && r[2] == ':'
  {
    var minutes := TwoDigits(MinutesAmount(current));
    var seconds := TwoDigits(SecondsAmount(current));
    [minutes[0], minutes[1], ':', seconds[0], seconds[1]]
  }

  /** The seconds an "MM:SS" clock face stands for. */
  function ReadClock(s: string): int
    requires |s| == 5
  {
    (DigitValue(s[0]) * 10 + DigitValue(s[1])) * 60 + DigitValue(s[3]) * 10 + DigitValue(s[4])
  }

  /**
   * Every remaining time below 100 minutes is shown as four digits around ':' that read
   * back as that time, with the seconds part below 60.
   */
  lemma DisplayReadsBack(current: int)
    requires 0 <= current < 6000
    ensures var r := Display(current);
      && IsDigit(r[0]) && IsDigit(r[1]) && IsDigit(r[3]) && IsDigit(r[4])
      && DigitValue(r[3]) * 10 + DigitValue(r[4]) < 60
      && ReadClock(r) == current
  {
    var m, sec := MinutesAmount(current), SecondsAmount(current);
    SplitRemaining(current);
    TwoDigitsReadBack(m);
    TwoDigitsReadBack(sec);
    var r := Display(current);
    assert r[0] == TwoDigits(m)[0] && r[1] == TwoDigits(m)[1];
    assert r[3] == TwoDigits(sec)[0] && r[4] == TwoDigits(sec)[1];
    assert DigitValue(r[0]) * 10 + DigitValue(r[1]) == m;
    assert DigitValue(r[3]) * 10 + DigitValue(r[4]) == sec;
    assert ReadClock(r) == m * 60 + sec;
  }

  /** The two padded digits of 0..99 read back as the number. */
  lemma TwoDigitsReadBack(n: int)
    requires 0 <= n <= 99
    ensures var t := TwoDigits(n);
      |t| == 2 && IsDigit(t[0]) && IsDigit(t[1]) && DigitValue(t[0]) * 10 + DigitValue(t[1]) == n
  {
    TwoDigitsOfSmall(n);
    assert DigitValue(Digit(n / 10)) == n / 10;
    assert DigitValue(Digit(n % 10)) == n % 10;
  }

  /** Nothing left shows "00:00"; one second left shows "00:01". */
  lemma DisplayOfLastSeconds()
    ensures Display(0) == "00:00"
    ensures Display(1) == "00:01"
  {
  }
}
