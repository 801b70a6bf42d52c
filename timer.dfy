/** The Pomodoro timer: a countdown that alternates between a work interval and a break,
    driven by a one-second interval while it ticks, with start/pause and reset buttons and
    a +/- button pair per mode that changes that mode's length in whole minutes. */
module Timer {
  import opened Clock
  import opened Durations

  /** The label on the start button, which is also its class. */
  datatype ButtonState = Start | Pause

  /** The page title while the countdown runs. */
  function Title(t: string): string {
    "(" + t + ") - Pomodoro Timer"
  }

  /** The page title after a reset. */
  const ResetTitle: string := "Pomodoro Timer"

  /** The state the page's script keeps: the current mode, the configured lengths, the
      texts it shows (countdown, title, minute boxes), whether it ticks, the repeating
      one-second interval, the start button's state, and which controls are visible. */
  class PomodoroTimer {
    var currentMode: Mode
    /** The length of each mode as "MM:00"; the countdown is reloaded from it. */
    var modeLengths: map<Mode, string>
    /** The text of each mode's minute box, which the +/- buttons read and rewrite. */
    var minuteText: map<Mode, string>
    /** The countdown display ("MM:SS"). */
    var timerText: string
    var titleText: string
    var isTicking: bool
    /** Whether the repeating one-second interval that calls Tick is registered. */
    var intervalActive: bool
    var buttonState: ButtonState
    var startButtonVisible: bool
    var durationPanelVisible: bool
    /** How often the bell has been played. */
    ghost var bellPlays: nat

    ghost predicate LengthsValid()
      reads this`modeLengths, this`minuteText
    {
      Configured(modeLengths, minuteText)
    }

    /** The invariant every handler keeps: the lengths are configured, the countdown is a
        display the page can show, the interval runs exactly while the timer ticks, and
        the button reads "pause" exactly then. */
    ghost predicate Valid()
      reads this
    {
      && LengthsValid()
      && currentMode in modeLengths
      && IsDisplay(timerText)
      && intervalActive == isTicking
      && (isTicking <==> buttonState == Pause)
    }

    /** The configured length of a mode, in minutes. */
    ghost function MinuteCount(m: Mode): (n: nat)
      reads this`modeLengths, this`minuteText
      requires LengthsValid()
      ensures n >= 1
    {
      ConfiguredAt(modeLengths, minuteText, m);
      Value(minuteText[m])
    }

    /** The time on the countdown, in seconds. */
    ghost function Remaining(): nat
      reads this
      requires Valid()
    {
      TotalSeconds(timerText)
    }

    /** The page as it loads: a 25-minute work interval and a 5-minute break, not
        ticking, the work length on the countdown and every control visible. */
    constructor ()
      ensures Valid()
      ensures currentMode == Pomodoro && !isTicking && buttonState == Start
      ensures MinuteCount(Pomodoro) == 25 && MinuteCount(Break) == 5
      ensures modeLengths == map[Pomodoro := "25:00", Break := "5:00"]
      ensures minuteText == map[Pomodoro := "25", Break := "5"]
      ensures timerText == "25:00" && timerText == modeLengths[Pomodoro] && Remaining() == 1500
      ensures titleText == ResetTitle
      ensures startButtonVisible && durationPanelVisible && bellPlays == 0
    {
      currentMode := Pomodoro;
      modeLengths := map[Pomodoro := "25:00", Break := "5:00"];
      minuteText := map[Pomodoro := "25", Break := "5"];
      timerText := "25:00";
      titleText := ResetTitle;
      isTicking := false;
      intervalActive := false;
      buttonState := Start;
      startButtonVisible := true;
      durationPanelVisible := true;
      bellPlays := 0;
      new;
      DefaultsConfigured();
    }

    /** Stop ticking, show "start", and reload the countdown with the current mode's
        length. */
    method ResetTimer()
      requires LengthsValid()
      modifies this`isTicking, this`intervalActive, this`buttonState, this`timerText, this`titleText
      ensures Valid()
      ensures !isTicking && !intervalActive && buttonState == Start
      ensures timerText == modeLengths[currentMode]
      ensures Remaining() == 60 * MinuteCount(currentMode)
      ensures titleText == ResetTitle
    {
      isTicking := false;
      intervalActive := false;
      SetStartButtonState(Start);
      ConfiguredAt(modeLengths, minuteText, currentMode);
      timerText := modeLengths[currentMode];
      titleText := ResetTitle;
    }

    method SetStartButtonState(state: ButtonState)
      modifies this`buttonState
      ensures buttonState == state
    {
      buttonState := state;
    }

    method SwitchStartButtonState()
      modifies this`buttonState
      ensures buttonState == if old(buttonState) == Start then Pause else Start
    {
      if buttonState == Start {
        SetStartButtonState(Pause);
      } else {
        SetStartButtonState(Start);
      }
    }

    /** Pause (cancel the interval) when ticking; otherwise start the interval and hide
        the duration panel. Either way the ticking flag flips. */
    method StartOrPauseTimer()
      modifies this`isTicking, this`intervalActive, this`durationPanelVisible
      ensures isTicking == !old(isTicking) && intervalActive == isTicking
      ensures durationPanelVisible == (old(durationPanelVisible) && !isTicking)
    {
      if isTicking {
        intervalActive := false;
      } else {
        intervalActive := true;
        durationPanelVisible := false;
      }
      isTicking := !isTicking;
    }

    /** A click on the start/pause button: the ticking flag and the button's label flip
        together; the countdown and the mode stay as they are. */
    method OnStartPauseClick()
      requires Valid()
      modifies this`isTicking, this`intervalActive, this`durationPanelVisible, this`buttonState
      ensures Valid()
      ensures isTicking == !old(isTicking)
      ensures buttonState == (if isTicking then Pause else Start)
      ensures durationPanelVisible == (old(durationPanelVisible) && !isTicking)
    {
      StartOrPauseTimer();
      SwitchStartButtonState();
    }

    /** A click on the reset button: the current mode's length is reloaded, ticking
        stops, and the start button and the duration panel are shown again. The mode and
        the configured lengths do not change. */
    method OnResetClick()
      requires Valid()
      modifies this`isTicking, this`intervalActive, this`buttonState, this`timerText, this`titleText
      modifies this`startButtonVisible, this`durationPanelVisible
      ensures Valid()
      ensures !isTicking && buttonState == Start
      ensures timerText == modeLengths[currentMode]
      ensures Remaining() == 60 * MinuteCount(currentMode)
      ensures titleText == ResetTitle
      ensures startButtonVisible && durationPanelVisible
    {
      ResetTimer();
      startButtonVisible := true;
      durationPanelVisible := true;
    }

    /** One firing of the one-second interval. On "00:00" the bell rings, the mode
        switches, the start button is hidden and the timer is reset to the new mode's
        length without starting it. Otherwise the countdown loses one second and the title
        shows it. */
    method Tick()
      requires Valid() && intervalActive
      modifies this`isTicking, this`intervalActive, this`buttonState, this`timerText, this`titleText
      modifies this`currentMode, this`startButtonVisible, this`bellPlays
      ensures Valid()
      ensures old(Remaining()) == 0 ==>
        && currentMode == Other(old(currentMode))
        && !isTicking && !intervalActive && buttonState == Start
        && timerText == modeLengths[currentMode]
        && Remaining() == 60 * MinuteCount(currentMode)
        && titleText == ResetTitle
        && !startButtonVisible
        && bellPlays == old(bellPlays) + 1
      ensures old(Remaining()) != 0 ==>
        && IsPadded(timerText)
        && Remaining() == old(Remaining()) - 1
        && titleText == Title(timerText)
        && currentMode == old(currentMode)
        && isTicking && intervalActive && buttonState == Pause
        && startButtonVisible == old(startButtonVisible)
        && bellPlays == old(bellPlays)
    {
      TickTest(timerText);
      var pieces := Split(timerText);
      var minutesText, secondsText := pieces[0], pieces[1];
      if minutesText == "00" && secondsText == "00" {
        bellPlays := bellPlays + 1;
        intervalActive := false;
        currentMode := Other(currentMode);
        startButtonVisible := false;
        ResetTimer();
        return;
      }

      var remaining := CountDown(timerText, minutesText, secondsText);
      timerText := remaining;
      titleText := Title(remaining);
    }

    /** The interval firing once a second, with no click in between, until it is
        cancelled: the countdown runs down one second per tick, and the tick after the one
        that shows "00:00" switches the mode. */
    method RunInterval() returns (ticks: nat)
      requires Valid() && intervalActive
      modifies this`isTicking, this`intervalActive, this`buttonState, this`timerText, this`titleText
      modifies this`currentMode, this`startButtonVisible, this`bellPlays
      ensures Valid() && !isTicking
      ensures ticks == old(Remaining()) + 1
      ensures currentMode == Other(old(currentMode))
      ensures timerText == modeLengths[currentMode]
      ensures titleText == ResetTitle && !startButtonVisible
      ensures bellPlays == old(bellPlays) + 1
    {
      ghost var start := timerText;
      ticks := 0;
      while intervalActive
        invariant Valid()
        invariant intervalActive ==>
          && ticks <= TotalSeconds(start)
          && timerText == Ticks(start, ticks)
          && currentMode == old(currentMode)
          && bellPlays == old(bellPlays)
        invariant !intervalActive ==>
          && ticks == TotalSeconds(start) + 1
          && currentMode == Other(old(currentMode))
          && timerText == modeLengths[currentMode]
          && titleText == ResetTitle && !startButtonVisible
          && bellPlays == old(bellPlays) + 1
        decreases if intervalActive then Remaining() + 1 else 0
      {
        ghost var before := timerText;
        ZeroTest(before);
        Tick();
        if intervalActive {
          NextDisplayUnique(before, timerText);
        }
        ticks := ticks + 1;
      }
    }

    /** A click on a mode's + or - button. A decrement of a one-minute mode does nothing.
        Otherwise the count moves by one minute, the minute box and the mode's length
        are rewritten, and the countdown is reloaded with the new length when the edited
        mode is the current one. */
    method ChangeModeDuration(mode: Mode, increment: bool)
      requires Valid()
      modifies this`minuteText, this`modeLengths, this`timerText
      ensures Valid()
      ensures MinuteCount(mode) == Adjusted(old(MinuteCount(mode)), increment)
      ensures minuteText == old(minuteText)[mode := minuteText[mode]]
      ensures modeLengths == old(modeLengths)[mode := modeLengths[mode]]
      ensures !increment && old(minuteText[mode]) == "1" ==>
        minuteText == old(minuteText) && modeLengths == old(modeLengths) && timerText == old(timerText)
      ensures increment || old(minuteText[mode]) != "1" ==>
        && IsPadded(modeLengths[mode])
        && timerText == (if mode == currentMode then modeLengths[mode] else old(timerText))
    {
      var lengths, boxes, changed := ChangeDuration(modeLengths, minuteText, mode, increment);
      minuteText := boxes;
      modeLengths := lengths;
      if changed && currentMode == mode {
        timerText := lengths[mode];
      }
    }
  }
}
