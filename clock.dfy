/** The text of the countdown display ("MM:SS") and of the configured mode lengths
    ("MM:00"): rendering numbers the way the page does (decimal, zero-padded to two
    digits), splitting a display on its colon, reading the pieces back as numbers,
    and the one-second step of the countdown. */
module Clock {

  predicate IsDigit(c: char) {
    '0' <= c <= '9'
  }

  predicate IsDigits(s: string) {
    forall i :: 0 <= i < |s| ==> IsDigit(s[i])
  }

  function DigitChar(d: nat): (c: char)
    requires d < 10
    ensures IsDigit(c)
  {
    ('0' as int + d) as char
  }

  function DigitValue(c: char): nat
    requires IsDigit(c)
  {
    c as int - '0' as int
  }

  /** The number a string of decimal digits stands for, leading zeros allowed; this is
      what unary plus gives for such a string (the empty string gives 0). */
  function Value(s: string): nat
    requires IsDigits(s)
  {
    if s == [] then 0 else 10 * Value(s[..|s| - 1]) + DigitValue(s[|s| - 1])
  }

  /** The text a non-negative integer is rendered as: its decimal digits, no leading zero. */
  function Decimal(n: nat): (r: string)
    ensures 1 <= |r| && IsDigits(r) && Value(r) == n
    ensures |r| == 1 <==> n < 10
    ensures n < 100 ==> |r| <= 2
    ensures r[0] == '0' ==> n == 0
  {
    if n < 10 then [DigitChar(n)]
    else
      var front := Decimal(n / 10);
      var r := front + [DigitChar(n % 10)];
      assert r[..|r| - 1] == front;
      r
  }

  /** `n < 10 ? "0" + n : n`: the padding applied to minutes and seconds. */
  function Pad2(n: nat): (r: string)
    ensures 2 <= |r| && IsDigits(r) && Value(r) == n
    ensures n < 100 ==> |r| == 2
    ensures |r| == 2 || r[0] != '0'
  {
    if n < 10 then
      var r := "0" + Decimal(n);
      assert r[..|r| - 1] == "0";
      r
    else Decimal(n)
  }

  /** The pieces of a text between its colons, as `split(":")` returns them. */
  function Split(t: string): (r: seq<string>)
    ensures |r| >= 1
  {
    if t == [] then [""]
    else if t[0] == ':' then [""] + Split(t[1..])
    else
      var rest := Split(t[1..]);
      [[t[0]] + rest[0]] + rest[1..]
  }

  /** The pieces put back together with a colon between each two. */
  function Join(pieces: seq<string>): string
    requires |pieces| >= 1
  {
    if |pieces| == 1 then pieces[0] else pieces[0] + ":" + Join(pieces[1..])
  }

  /** Joining the pieces of a split gives back the text: Split loses nothing. */
  lemma {:induction false} SplitJoin(t: string)
    ensures Join(Split(t)) == t
  {
    if t != [] {
      SplitJoin(t[1..]);
      var rest := Split(t[1..]);
      if t[0] == ':' {
        assert ([""] + rest)[1..] == rest;
      } else {
        var r := [[t[0]] + rest[0]] + rest[1..];
        assert r[1..] == rest[1..];
        if |rest| > 1 {
          assert Join(rest) == rest[0] + ":" + Join(rest[1..]);
        }
        assert t == [t[0]] + t[1..];
      }
    }
  }

  lemma {:induction false} SplitWithoutColon(s: string)
    requires ':' !in s
    ensures Split(s) == [s]
  {
    if s != [] {
      SplitWithoutColon(s[1..]);
      assert [s[0]] + s[1..] == s;
    }
  }

  /** Splitting "a:b" gives back the two pieces when neither holds a colon. */
  lemma {:induction false} SplitTwo(a: string, b: string)
    requires ':' !in a && ':' !in b
    ensures Split(a + ":" + b) == [a, b]
  {
    var t := a + ":" + b;
    if a == [] {
      assert t[1..] == b;
      SplitWithoutColon(b);
    } else {
      assert t[1..] == a[1..] + ":" + b;
      SplitTwo(a[1..], b);
      assert [a[0]] + a[1..] == a;
    }
  }

  /** The minutes of a display: everything before the colon. */
  function MinutesText(t: string): string
    requires |t| >= 3
  {
    t[..|t| - 3]
  }

  /** The seconds of a display: the two characters after the colon. */
  function SecondsText(t: string): string
    requires |t| >= 3
  {
    t[|t| - 2..]
  }

  /** A countdown display as the page can show it: minutes, a colon and two digits of
      seconds below 60; the minutes are two digits, or digits without a leading zero (the
      initial break length is "5:00"). */
  predicate IsDisplay(t: string) {
    && |t| >= 4 && t[|t| - 3] == ':'
    && IsDigits(MinutesText(t)) && (|MinutesText(t)| == 2 || t[0] != '0')
    && IsDigits(SecondsText(t)) && Value(SecondsText(t)) < 60
  }

  function Minutes(t: string): nat
    requires IsDisplay(t)
  {
    Value(MinutesText(t))
  }

  function Seconds(t: string): nat
    requires IsDisplay(t)
  {
    Value(SecondsText(t))
  }

  /** The time a display stands for, in seconds. */
  function TotalSeconds(t: string): nat
    requires IsDisplay(t)
  {
    60 * Minutes(t) + Seconds(t)
  }

  /** A display as a tick writes it: the minutes are padded to at least two digits. */
  predicate IsPadded(t: string) {
    IsDisplay(t) && |MinutesText(t)| >= 2
  }

  /** `split(":")` on a display gives its minutes and its seconds, and nothing else. */
  lemma SplitDisplay(t: string)
    requires IsDisplay(t)
    ensures Split(t) == [MinutesText(t), SecondsText(t)]
  {
    var m, s := MinutesText(t), SecondsText(t);
    assert t == m + ":" + s;
    SplitTwo(m, s);
  }

  /** Two digits that are worth 0 are the text "00". */
  lemma TwoZeroDigits(d: string)
    requires IsDigits(d) && |d| == 2 && Value(d) == 0
    ensures d == "00"
  {
  }

  /** The test a tick makes first: both pieces of the split are the text "00". */
  predicate ShowsZero(t: string) {
    var p := Split(t);
    p[0] == "00" && |p| >= 2 && p[1] == "00"
  }

  /** On a display the page can show, the textual zero test is the numeric one: a display
      whose minutes and seconds are both 0 is always padded to "00:00". */
  lemma ZeroTest(t: string)
    requires IsDisplay(t)
    ensures ShowsZero(t) <==> TotalSeconds(t) == 0
  {
    SplitDisplay(t);
    var m, s := MinutesText(t), SecondsText(t);
    if TotalSeconds(t) == 0 {
      if |m| != 2 {
        CountValue(m);
      }
      TwoZeroDigits(m);
      TwoZeroDigits(s);
    }
    if ShowsZero(t) {
      assert Value("00") == 0;
    }
  }

  /** What a tick learns from its first test: a display splits into two pieces, and
      both are "00" exactly when no time is left. */
  lemma TickTest(t: string)
    requires IsDisplay(t)
    ensures |Split(t)| == 2
    ensures Split(t)[0] == "00" && Split(t)[1] == "00" <==> ShowsZero(t)
    ensures ShowsZero(t) <==> TotalSeconds(t) == 0
  {
    SplitDisplay(t);
    ZeroTest(t);
  }

  /** `${minutes}:${seconds}`, each zero-padded. */
  function FormatClock(m: nat, s: nat): string {
    Pad2(m) + ":" + Pad2(s)
  }

  /** Reading a formatted display back gives the minutes and seconds it was made from. */
  lemma FormatRoundTrip(m: nat, s: nat)
    requires s < 60
    ensures IsPadded(FormatClock(m, s))
    ensures Minutes(FormatClock(m, s)) == m && Seconds(FormatClock(m, s)) == s
  {
    var t := FormatClock(m, s);
    assert MinutesText(t) == Pad2(m);
    assert SecondsText(t) == Pad2(s);
  }

  /** The display one second later, for a display that is not "00:00": the seconds go
      down by one, or borrow a minute and become 59. */
  function NextDisplay(t: string): (r: string)
    requires IsDisplay(t) && !ShowsZero(t)
    ensures IsPadded(r) && TotalSeconds(r) == TotalSeconds(t) - 1
  {
    ZeroTest(t);
    var m, s := Minutes(t), Seconds(t);
    if s > 0 then FormatRoundTrip(m, s - 1); FormatClock(m, s - 1)
    else FormatRoundTrip(m - 1, 59); FormatClock(m - 1, 59)
  }

  /** The arithmetic of a tick on the two pieces of a display that is not "00:00": both
      are read as numbers, one second is taken off (borrowing a minute at 0 seconds),
      and both are padded back to two digits. Its result is NextDisplay(t): the ensures
      below pin the text, as NextDisplayUnique shows. */
  method CountDown(t: string, minutesText: string, secondsText: string) returns (timeRemaining: string)
    requires IsDisplay(t) && !ShowsZero(t) && Split(t) == [minutesText, secondsText]
    ensures IsPadded(timeRemaining) && TotalSeconds(timeRemaining) == TotalSeconds(t) - 1
  {
    SplitDisplay(t);
    var minutes: int := Value(minutesText);
    var seconds: int := Value(secondsText);
    if seconds > 0 {
      seconds := seconds - 1;
    } else {
      ZeroTest(t);
      minutes := minutes - 1;
      seconds := 59;
    }
    timeRemaining := Pad2(minutes) + ":" + Pad2(seconds);
    FormatRoundTrip(minutes, seconds);
  }

  /** The contract of a tick fixes its text: a padded display one second short of a
      display that is not "00:00" is the next display. */
  lemma NextDisplayUnique(t: string, r: string)
    requires IsDisplay(t) && !ShowsZero(t)
    requires IsPadded(r) && TotalSeconds(r) == TotalSeconds(t) - 1
    ensures r == NextDisplay(t)
  {
    PaddedUnique(r, NextDisplay(t));
  }

  /** The display after k seconds of uninterrupted countdown. */
  function Ticks(t: string, k: nat): (r: string)
    requires IsDisplay(t) && k <= TotalSeconds(t)
    ensures IsDisplay(r) && TotalSeconds(r) == TotalSeconds(t) - k
  {
    if k == 0 then t
    else
      var before := Ticks(t, k - 1);
      ZeroTest(before);
      NextDisplay(before)
  }

  /** A countdown shows "00:00" after exactly as many seconds as it started with, and not
      before; the tick after that is the one that expires. */
  lemma CountdownLength(t: string, k: nat)
    requires IsDisplay(t) && k <= TotalSeconds(t)
    ensures ShowsZero(Ticks(t, k)) <==> k == TotalSeconds(t)
  {
    ZeroTest(Ticks(t, k));
  }

  /** From a freshly loaded length of n minutes, exactly 60 * n ticks reach "00:00". */
  lemma LoadedCountdown(t: string, n: nat, k: nat)
    requires IsDisplay(t) && Minutes(t) == n && Seconds(t) == 0 && k <= 60 * n
    ensures ShowsZero(Ticks(t, k)) <==> k == 60 * n
  {
    CountdownLength(t, k);
  }

  /** The length text written for a count of minutes: the count, padded to two digits
      when below 10, followed by ":00". It reads back as that many minutes and no seconds. */
  method DurationString(count: nat) returns (durationString: string)
    ensures IsPadded(durationString)
    ensures Minutes(durationString) == count && Seconds(durationString) == 0
  {
    var durationMinutes := if count < 10 then "0" + Decimal(count) else Decimal(count);
    durationString := durationMinutes + ":00";
    assert durationMinutes == Pad2(count) && "00" == Pad2(0);
    assert durationString == FormatClock(count, 0);
    FormatRoundTrip(count, 0);
  }

  function Pow10(k: nat): (r: nat)
    ensures r >= 1
  {
    if k == 0 then 1 else 10 * Pow10(k - 1)
  }

  /** The text of a minute-count box: decimal digits without a leading zero, as the
      rendering of a count of at least one. */
  predicate IsCount(d: string) {
    IsDigits(d) && 1 <= |d| && d[0] != '0'
  }

  /** A digit string without a leading zero is worth at least 10^(length - 1). */
  lemma {:induction false} CountValue(d: string)
    requires IsCount(d)
    ensures Value(d) >= Pow10(|d| - 1) && Value(d) >= 1
  {
    if |d| > 1 {
      CountValue(d[..|d| - 1]);
    }
  }

  /** A string of k digits is worth less than 10^k. */
  lemma {:induction false} ValueBelow(d: string)
    requires IsDigits(d)
    ensures Value(d) < Pow10(|d|)
  {
    if d != [] {
      ValueBelow(d[..|d| - 1]);
    }
  }

  /** Digit strings of the same length and the same value are the same text. */
  lemma {:induction false} SameValue(a: string, b: string)
    requires IsDigits(a) && IsDigits(b) && |a| == |b| && Value(a) == Value(b)
    ensures a == b
  {
    if a != [] {
      var n := |a| - 1;
      assert DigitValue(a[n]) == Value(a) % 10 == DigitValue(b[n]);
      SameValue(a[..n], b[..n]);
      assert a == a[..n] + [a[n]] && b == b[..n] + [b[n]];
    }
  }

  /** Of two digit strings, the longer one is worth more when it has no leading zero. */
  lemma {:induction false} LongerIsLarger(a: string, b: string)
    requires IsDigits(a) && IsCount(b) && |a| < |b|
    ensures Value(a) < Value(b)
  {
    ValueBelow(a);
    PowMonotone(|a|, |b| - 1);
    CountValue(b);
  }

  /** Count texts with the same value are the same text: a minute box is determined by the
      count it shows. */
  lemma CountUnique(a: string, b: string)
    requires IsCount(a) && IsCount(b) && Value(a) == Value(b)
    ensures a == b
  {
    if |a| < |b| {
      LongerIsLarger(a, b);
      assert false;
    } else if |b| < |a| {
      LongerIsLarger(b, a);
      assert false;
    } else {
      SameValue(a, b);
    }
  }

  /** Minute texts as a tick writes them (two digits, or more without a leading zero)
      with the same value are the same text. */
  lemma PaddedMinutes(a: string, b: string)
    requires IsDigits(a) && (|a| == 2 || (|a| > 2 && a[0] != '0'))
    requires IsDigits(b) && (|b| == 2 || (|b| > 2 && b[0] != '0'))
    requires Value(a) == Value(b)
    ensures a == b
  {
    if |a| < |b| {
      LongerIsLarger(a, b);
      assert false;
    } else if |b| < |a| {
      LongerIsLarger(b, a);
      assert false;
    } else {
      SameValue(a, b);
    }
  }

  lemma {:induction false} PowMonotone(i: nat, j: nat)
    requires i <= j
    ensures Pow10(i) <= Pow10(j)
  {
    if i < j {
      PowMonotone(i, j - 1);
    }
  }

  /** Minutes and seconds below 60 are determined by the time they make up. */
  lemma SameTime(m1: nat, s1: nat, m2: nat, s2: nat)
    requires s1 < 60 && s2 < 60 && 60 * m1 + s1 == 60 * m2 + s2
    ensures m1 == m2 && s1 == s2
  {
  }

  /** A padded display is determined by the time it shows: the text a tick writes is the
      only padded display of that many seconds. */
  lemma PaddedUnique(a: string, b: string)
    requires IsPadded(a) && IsPadded(b) && TotalSeconds(a) == TotalSeconds(b)
    ensures a == b
  {
    SameTime(Minutes(a), Seconds(a), Minutes(b), Seconds(b));
    SameValue(SecondsText(a), SecondsText(b));
    PaddedMinutes(MinutesText(a), MinutesText(b));
    assert a == MinutesText(a) + ":" + SecondsText(a);
    assert b == MinutesText(b) + ":" + SecondsText(b);
  }

  /** Every count from 1 up is rendered as a count text that reads back as itself. */
  lemma CountRendering(n: nat)
    requires n >= 1
    ensures IsCount(Decimal(n)) && Value(Decimal(n)) == n
  {
  }

  /** The comparison with the text "1" that guards a decrement is the comparison of the
      count with 1. */
  lemma CountIsOne(d: string)
    requires IsCount(d)
    ensures d == "1" <==> Value(d) == 1
  {
    CountValue(d);
    if Value(d) == 1 {
      assert |d| == 1;
    }
  }
}
