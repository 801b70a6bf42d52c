/** The two modes and their configured lengths. Each mode has a minute box (the text of
    `#pomodoro-min` or `#break-min`) and a length ("MM:00", `modeLengths` in the script);
    the + and - buttons of a mode rewrite both. */
module Durations {
  import opened Clock

  datatype Mode = Pomodoro | Break

  /** The mode that follows a mode at expiry: the two modes strictly alternate. */
  function Other(m: Mode): (r: Mode)
    ensures r != m
  {
    if m == Pomodoro then Break else Pomodoro
  }

  /** A mode's minute count after one click of its + or - button: one more, one less, or,
      for a decrement of a single minute, unchanged. */
  function Adjusted(n: nat, increment: bool): (r: nat)
    requires n >= 1
    ensures r >= 1
    ensures r == n <==> !increment && n == 1
    ensures increment ==> r == n + 1
    ensures !increment ==> r <= n && n - r <= 1
  {
    if increment then n + 1 else if n == 1 then n else n - 1
  }

  /** The minute count after k clicks of the - button. */
  function Decremented(n: nat, k: nat): (r: nat)
    requires n >= 1
    ensures r >= 1
  {
    if k == 0 then n else Adjusted(Decremented(n, k - 1), false)
  }

  /** k clicks of the - button take k minutes off, but never go below one minute. */
  lemma {:induction false} RepeatedDecrements(n: nat, k: nat)
    requires n >= 1
    ensures Decremented(n, k) == if k < n then n - k else 1
  {
    if k > 0 {
      RepeatedDecrements(n, k - 1);
    }
  }

  /** A mode's length and minute box agree: the box holds a count of at least one and
      the length is a display of that many minutes and no seconds. */
  ghost predicate ConfiguredIn(lengths: map<Mode, string>, boxes: map<Mode, string>, m: Mode) {
    && m in lengths && m in boxes
    && IsCount(boxes[m]) && Value(boxes[m]) >= 1
    && IsDisplay(lengths[m])
    && Minutes(lengths[m]) == Value(boxes[m])
    && Seconds(lengths[m]) == 0
  }

  /** Both modes are configured. */
  ghost predicate Configured(lengths: map<Mode, string>, boxes: map<Mode, string>) {
    ConfiguredIn(lengths, boxes, Pomodoro) && ConfiguredIn(lengths, boxes, Break)
  }

  lemma ConfiguredAt(lengths: map<Mode, string>, boxes: map<Mode, string>, m: Mode)
    requires Configured(lengths, boxes)
    ensures ConfiguredIn(lengths, boxes, m)
  {
  }

  /** The lengths and boxes the page starts with: "25:00" and "25" for work, "5:00" and
      "5" for the break. */
  lemma DefaultsConfigured()
    ensures Configured(map[Pomodoro := "25:00", Break := "5:00"], map[Pomodoro := "25", Break := "5"])
    ensures Value("25") == 25 && Value("5") == 5
  {
  }

  /** Rewriting one mode's box and length with a count text and a display of that many
      minutes keeps both modes configured and leaves the other mode as it was. */
  lemma Reconfigured(lengths: map<Mode, string>, boxes: map<Mode, string>, mode: Mode, count: nat, length: string)
    requires Configured(lengths, boxes) && count >= 1
    requires IsDisplay(length) && Minutes(length) == count && Seconds(length) == 0
    ensures Configured(lengths[mode := length], boxes[mode := Decimal(count)])
  {
    var box := Decimal(count);
    CountRendering(count);
    assert ConfiguredIn(lengths[mode := length], boxes[mode := box], mode);
    assert ConfiguredIn(lengths[mode := length], boxes[mode := box], Other(mode));
  }

  /** The work of a click on a mode's + or - button, on the lengths and the boxes. A
      decrement of a box that reads "1" changes nothing. Otherwise the box is read as a
      number, moved by one, and written back; the mode's length becomes that many minutes
      as "MM:00". The other mode is untouched. */
  method ChangeDuration(lengths: map<Mode, string>, boxes: map<Mode, string>, mode: Mode, increment: bool)
      returns (newLengths: map<Mode, string>, newBoxes: map<Mode, string>, changed: bool)
    requires Configured(lengths, boxes)
    ensures Configured(newLengths, newBoxes)
    ensures Value(newBoxes[mode]) == Adjusted(Value(boxes[mode]), increment)
    ensures changed <==> increment || boxes[mode] != "1"
    ensures changed <==> Value(newBoxes[mode]) != Value(boxes[mode])
    ensures !changed ==> newLengths == lengths && newBoxes == boxes
    ensures newLengths == lengths[mode := newLengths[mode]]
    ensures newBoxes == boxes[mode := newBoxes[mode]]
    ensures changed ==> IsPadded(newLengths[mode])
  {
    ConfiguredAt(lengths, boxes, mode);
    var currentDuration := boxes[mode];
    CountIsOne(currentDuration);
    if !increment && currentDuration == "1" {
      return lengths, boxes, false;
    }
    var count := if increment then Value(currentDuration) + 1 else Value(currentDuration) - 1;
    newBoxes := boxes[mode := Decimal(count)];
    var durationString := DurationString(count);
    newLengths := lengths[mode := durationString];
    changed := true;
    Reconfigured(lengths, boxes, mode, count, durationString);
  }
}
