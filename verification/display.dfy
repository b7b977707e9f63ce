/** The two values the timer publishes after every state change
    (`updateDisplay` in script.js): the countdown text `MM:SS` and the
    progress-bar width in percent. Both are pure functions of integers. */
module Display {

  import opened Optional

  /** The decimal digit character for `d`. */
  function DigitChar(d: int): (c: char)
    requires 0 <= d < 10
    ensures IsDigit(c) && DigitValue(c) == d
  {
    ('0' as int + d) as char
  }

  predicate IsDigit(c: char) {
    '0' <= c <= '9'
  }

  function DigitValue(c: char): int {
    c as int - '0' as int
  }

  predicate AllDigits(s: string) {
    forall i :: 0 <= i < |s| ==> IsDigit(s[i])
  }

  /** The decimal numeral of a natural number, most significant digit first,
      without leading zeros. */
  function Digits(n: nat): (r: string)
    ensures 1 <= |r|
    ensures (n < 10) <==> (|r| == 1)
    ensures 1 <= n ==> r[0] != '0'
    decreases n
  {
    if n < 10 then [DigitChar(n)] else Digits(n / 10) + [DigitChar(n % 10)]
  }

  lemma {:induction false} DigitsAreDigits(n: nat)
    ensures AllDigits(Digits(n))
    decreases n
  {
    if n >= 10 {
      DigitsAreDigits(n / 10);
    }
  }

  /** The number a string of decimal digits denotes. */
  function NumeralValue(s: string): int
  {
    if |s| == 0 then 0 else NumeralValue(s[..|s| - 1]) * 10 + DigitValue(s[|s| - 1])
  }

  /** Reading back the numeral of `n` gives `n`. */
  lemma {:induction false} DigitsRoundTrip(n: nat)
    ensures NumeralValue(Digits(n)) == n
    decreases n
  {
    if n >= 10 {
      DigitsRoundTrip(n / 10);
      var r := Digits(n);
      assert r[..|r| - 1] == Digits(n / 10);
    }
  }

  /** `Number.prototype.toString()` on an integer-valued number, in the
      plain-digit form it takes for magnitudes below 10^21. */
  function IntToString(n: int): string
  {
    if n < 0 then "-" + Digits(-n) else Digits(n)
  }

  /** A non-negative number prints as its digits, a negative one as a minus
      sign and the digits of its magnitude. */
  lemma IntToStringShape(n: int)
    ensures n >= 0 ==> AllDigits(IntToString(n)) && NumeralValue(IntToString(n)) == n
    ensures n < 0 ==> |IntToString(n)| >= 2 && IntToString(n)[0] == '-'
    ensures n < 0 ==> AllDigits(IntToString(n)[1..]) && NumeralValue(IntToString(n)[1..]) == -n
  {
    if n >= 0 {
      DigitsAreDigits(n);
      DigitsRoundTrip(n);
    } else {
      DigitsAreDigits(-n);
      DigitsRoundTrip(-n);
      assert IntToString(n)[1..] == Digits(-n);
    }
  }

  /** `s.padStart(2, '0')`: left-pad with zeros up to length 2; a string
      that is already long enough is returned as it is. */
  function PadStart2(s: string): (r: string)
    ensures |r| == if |s| >= 2 then |s| else 2
  {
    if |s| >= 2 then s else seq(2 - |s|, _ => '0') + s
  }

  /** Padding only puts zeros in front of the string. */
  lemma PadStart2Shape(s: string)
    ensures PadStart2(s)[|PadStart2(s)| - |s|..] == s
    ensures forall i :: 0 <= i < |PadStart2(s)| - |s| ==> PadStart2(s)[i] == '0'
  {
  }

  /** The minutes shown: `Math.floor(t / 60)`, the floor quotient. */
  function Minutes(t: int): (q: int)
    ensures q * 60 <= t < q * 60 + 60
  {
    t / 60
  }

  /** The seconds shown: JavaScript's `t % 60`, whose sign follows the
      dividend (truncating division), unlike Dafny's `%`. */
  function Seconds(t: int): (r: int)
    ensures t >= 0 ==> 0 <= r < 60
    ensures t < 0 ==> -60 < r <= 0
    ensures (t - r) % 60 == 0
  {
    if t >= 0 then t % 60 else -((-t) % 60)
  }

  /** The remainder is odd in the dividend. For non-negative time minutes and
      seconds recombine to the time; for negative time they do not, since
      the quotient floors while the remainder truncates. */
  lemma MinutesSecondsRecombine(t: int)
    ensures Seconds(-t) == -Seconds(t)
    ensures t >= 0 ==> Minutes(t) * 60 + Seconds(t) == t
    ensures Minutes(-1) * 60 + Seconds(-1) == -61
  {
  }

  /** The countdown text: zero-padded minutes, a colon, zero-padded seconds. */
  function FormatClock(t: int): string
  {
    PadStart2(IntToString(Minutes(t))) + ":" + PadStart2(IntToString(Seconds(t)))
  }

  /** Reads a five-character `MM:SS` text back into seconds; the seconds field
      must be below 60. This is the reference reading of the display. */
  function ParseClock(s: string): Option<int>
  {
    if |s| == 5 && IsDigit(s[0]) && IsDigit(s[1]) && s[2] == ':'
       && IsDigit(s[3]) && IsDigit(s[4]) && DigitValue(s[3]) < 6
    then Some((DigitValue(s[0]) * 10 + DigitValue(s[1])) * 60 + DigitValue(s[3]) * 10 + DigitValue(s[4]))
    else None
  }

  /** The two decimal places of a number below 100. */
  function TwoPlaces(n: int): (r: string)
    requires 0 <= n < 100
    ensures |r| == 2 && AllDigits(r)
  {
    [DigitChar(n / 10), DigitChar(n % 10)]
  }

  lemma DigitCharOfValue(c: char)
    requires IsDigit(c)
    ensures DigitChar(DigitValue(c)) == c
  {
  }

  /** A number below 100, padded to two places, is its two decimal digits. */
  lemma TwoDigits(n: int)
    requires 0 <= n < 100
    ensures PadStart2(IntToString(n)) == TwoPlaces(n)
  {
    if n >= 10 {
      assert Digits(n) == Digits(n / 10) + [DigitChar(n % 10)];
    }
  }

  /** Below 100 minutes the countdown text is exactly five characters,
      `MM:SS`, with the minutes `t / 60` and the seconds `t % 60`. */
  lemma ClockShape(t: int)
    requires 0 <= t < 6000
    ensures FormatClock(t) == TwoPlaces(t / 60) + ":" + TwoPlaces(t % 60)
    ensures |FormatClock(t)| == 5
  {
    TwoDigits(t / 60);
    TwoDigits(t % 60);
  }

  /** The displayed minutes and seconds recombine to the remaining time. */
  lemma ClockRoundTrip(t: int)
    requires 0 <= t < 6000
    ensures ParseClock(FormatClock(t)) == Some(t)
  {
    ClockShape(t);
    ParseTwoPlaces(t / 60, t % 60);
  }

  /** `ParseClock` reads two-place minutes and seconds back. */
  lemma ParseTwoPlaces(m: int, sec: int)
    requires 0 <= m < 100 && 0 <= sec < 60
    ensures ParseClock(TwoPlaces(m) + ":" + TwoPlaces(sec)) == Some(m * 60 + sec)
  {
    var f := TwoPlaces(m) + ":" + TwoPlaces(sec);
    assert f[0] == DigitChar(m / 10) && f[1] == DigitChar(m % 10) && f[2] == ':';
    assert f[3] == DigitChar(sec / 10) && f[4] == DigitChar(sec % 10);
  }

  /** A text `ParseClock` accepts is the two places of its minutes, a colon,
      and the two places of its seconds. */
  lemma ParsedClockFields(s: string, t: int)
    requires ParseClock(s) == Some(t)
    ensures 0 <= t < 6000
    ensures s == TwoPlaces(t / 60) + ":" + TwoPlaces(t % 60)
  {
    var d0, d1, d3, d4 := DigitValue(s[0]), DigitValue(s[1]), DigitValue(s[3]), DigitValue(s[4]);
    var m := d0 * 10 + d1;
    var sec := d3 * 10 + d4;
    assert t == m * 60 + sec && 0 <= sec < 60;
    assert t / 60 == m && t % 60 == sec;
    assert m / 10 == d0 && m % 10 == d1;
    assert sec / 10 == d3 && sec % 10 == d4;
    DigitCharOfValue(s[0]);
    DigitCharOfValue(s[1]);
    DigitCharOfValue(s[3]);
    DigitCharOfValue(s[4]);
    var f := TwoPlaces(m) + ":" + TwoPlaces(sec);
    assert f[0] == s[0] && f[1] == s[1] && f[2] == s[2] && f[3] == s[3] && f[4] == s[4];
  }

  /** Every well-formed `MM:SS` text is the display of exactly the time it
      reads as: the formatting is onto the well-formed texts. */
  lemma ParseClockCanonical(s: string, t: int)
    requires ParseClock(s) == Some(t)
    ensures 0 <= t < 6000
    ensures FormatClock(t) == s
  {
    ParsedClockFields(s, t);
    ClockShape(t);
  }

  /** From 100 minutes upward the minutes field outgrows two places. */
  lemma ClockWidensFrom100Minutes(t: int)
    requires t >= 6000
    ensures |FormatClock(t)| > 5
  {
    assert Minutes(t) >= 100;
    assert |Digits(Minutes(t))| >= 2;
  }

  /** The worked examples: 125 s, 0 s, a full work period and the last
      second of a rest period. */
  lemma ClockExample125()
    ensures FormatClock(125) == "02:05"
  {
    ClockShape(125);
    assert TwoPlaces(2) == "02" && TwoPlaces(5) == "05";
  }

  lemma ClockExampleZero()
    ensures FormatClock(0) == "00:00"
  {
    ClockShape(0);
    assert TwoPlaces(0) == "00";
  }

  lemma ClockExampleWork()
    ensures FormatClock(1500) == "25:00"
  {
    ClockShape(1500);
    assert TwoPlaces(25) == "25" && TwoPlaces(0) == "00";
  }

  lemma ClockExampleRest()
    ensures FormatClock(299) == "04:59"
  {
    ClockShape(299);
    assert TwoPlaces(4) == "04" && TwoPlaces(59) == "59";
  }

  /** Started at 00:00, the tick drives the count to -1 before completion
      clamps it; for that instant the text is `-1:-1`. */
  lemma ClockAtMinusOne()
    ensures FormatClock(-1) == "-1:-1"
  {
    assert Minutes(-1) == -1;
    assert Seconds(-1) == -1;
    assert Digits(1) == "1";
    assert IntToString(-1) == "-1";
  }

  /** Progress-bar width in percent: the elapsed share of the total time. */
  function Progress(totalTime: int, timeLeft: int): real
    requires totalTime != 0
  {
    (totalTime - timeLeft) as real / totalTime as real * 100.0
  }

  /** The width lies in [0, 100] exactly when the remaining time lies in
      [0, totalTime]. */
  lemma ProgressBounds(totalTime: int, timeLeft: int)
    requires totalTime > 0
    ensures (0.0 <= Progress(totalTime, timeLeft) <= 100.0) <==> (0 <= timeLeft <= totalTime)
  {
    var T := totalTime as real;
    var p := Progress(totalTime, timeLeft);
    assert p == (T - timeLeft as real) * (100.0 / T);
  }

  /** The bar is empty exactly at full time and full exactly at zero. */
  lemma ProgressEnds(totalTime: int, timeLeft: int)
    requires totalTime > 0
    ensures Progress(totalTime, timeLeft) == 0.0 <==> timeLeft == totalTime
    ensures Progress(totalTime, timeLeft) == 100.0 <==> timeLeft == 0
  {
    var T := totalTime as real;
    assert Progress(totalTime, timeLeft) == (T - timeLeft as real) * (100.0 / T);
  }

  /** Each second off the countdown widens the bar by `100 / totalTime`. */
  lemma ProgressStep(totalTime: int, timeLeft: int)
    requires totalTime > 0
    ensures Progress(totalTime, timeLeft - 1) == Progress(totalTime, timeLeft) + 100.0 / totalTime as real
  {
    var T := totalTime as real;
    assert Progress(totalTime, timeLeft - 1) == (T - timeLeft as real + 1.0) * (100.0 / T);
    assert Progress(totalTime, timeLeft) == (T - timeLeft as real) * (100.0 / T);
  }

  lemma ProgressExamples()
    ensures Progress(1500, 1500) == 0.0
    ensures Progress(1500, 0) == 100.0
    ensures Progress(1500, 750) == 50.0
  {
  }

}
