/** The countdown panel of timer.js: the timer's state, the one-second
    tick, start/pause, reset, quick-add, the edit mode with its keyboard
    handling, and the compact-mode switch that asks the page to resize. */
module TimerEngine {
  import opened TimeText
  import opened DigitBuffer
  import opened Messages

  /** The base time the panel loads with: five minutes. */
  const DefaultSeconds: nat := 300

  /** The keys that keep their default behaviour while editing. */
  const NavigationKeys: set<string> := {"ArrowLeft", "ArrowRight", "Home", "End", "Tab"}

  /** A key that is exactly one decimal digit. */
  predicate IsDigitKey(key: string)
  {
    |key| == 1 && IsDigit(key[0])
  }

  /** The state of the control buttons as updateDisplay leaves them. */
  datatype Controls = Controls(
    startPauseHidden: bool,  // the start/pause buttons are not displayed
    resetOnly: bool,         // the reset button is shown alone, centred
    pauseLabel: bool)        // the start/pause label is the pause symbol, shown or not

  /** Every field of a panel, in declaration order, to compare two states. */
  type TimerFields = (nat, nat, nat, bool, bool, bool, bool, bool, nat, string, bool, bool)

  /** The fields reset leaves behind, given the fields before it: stopped,
      not finished, not edited, every time back at the base, the base shown,
      quick-add visible in the normal layout and kept in the compact one,
      and the play label. */
  function ResetFields(f: TimerFields): TimerFields
  {
    var base := f.0;
    (base, base, base, false, false, f.5, f.6, false, f.8, SecToHHMMSS(base), f.6 && f.10, false)
  }

  /** Reset is idempotent: resetting what a reset left behind changes no field. */
  lemma ResetIdempotent(f: TimerFields)
    ensures ResetFields(ResetFields(f)) == ResetFields(f)
  {
  }

  class Timer {
    var baseSeconds: nat  // BASE_SECONDS: what reset returns to
    var total: nat
    var remaining: nat
    var running: bool     // also: the one-second interval is armed
    var userEdited: bool
    var isEditing: bool
    var isCompact: bool
    var isFinished: bool
    var beeps: nat        // how many times the finishing tone has sounded
    var shown: string     // the text of the active time field
    var quickAddHidden: bool
    var pauseLabel: bool  // the start/pause buttons carry the pause symbol

    ghost predicate Valid()
      reads this
    {
      total == baseSeconds
      && remaining <= MaxSeconds && baseSeconds <= MaxSeconds
      && !(running && isFinished)
      && IsMask(shown)
      && (!isEditing ==> shown == SecToHHMMSS(remaining))
      && (isEditing ==> !running)
      && (!isCompact ==> quickAddHidden == (running || isFinished))
      && pauseLabel == (running || isFinished)
    }

    /** The buttons as the current fields show them. */
    function View(): Controls
      reads this
    {
      Controls(isFinished, isFinished, pauseLabel)
    }

    ghost function Fields(): TimerFields
      reads this
    {
      (baseSeconds, total, remaining, running, userEdited, isEditing, isCompact, isFinished,
       beeps, shown, quickAddHidden, pauseLabel)
    }

    /** The controls never contradict each other: a visible pause symbol
        means exactly that the timer runs; the hidden start/pause buttons of
        a finished panel still carry the pause symbol of the run that
        finished; reset stands alone exactly when finished; and in the
        normal layout quick-add is hidden whenever reset stands alone. */
    lemma ViewConsistent()
      requires Valid()
      ensures View().pauseLabel && !View().startPauseHidden <==> running
      ensures View().startPauseHidden ==> View().pauseLabel
      ensures View().resetOnly <==> isFinished
      ensures !isCompact && View().resetOnly ==> quickAddHidden
      ensures !isCompact && !quickAddHidden ==> !View().pauseLabel && !View().startPauseHidden
    {
    }

    constructor ()
      ensures Valid()
      ensures baseSeconds == DefaultSeconds && remaining == DefaultSeconds
      ensures !running && !userEdited && !isEditing && !isCompact && !isFinished
      ensures beeps == 0 && !quickAddHidden && !pauseLabel
      ensures shown == "00:05:00"
    {
      pauseLabel := false;
      baseSeconds := DefaultSeconds;
      total := DefaultSeconds;
      remaining := DefaultSeconds;
      running, userEdited, isEditing, isCompact, isFinished := false, false, false, false, false;
      beeps := 0;
      new;
      UpdateDisplay();
      SecToHHMMSSChars(DefaultSeconds);
    }

    /** updateDisplay: the time field shows `remaining`; in the normal
        layout quick-add is hidden exactly while running or finished; the
        start/pause label is rewritten only while not finished. */
    method UpdateDisplay()
      requires remaining <= MaxSeconds
      modifies this`shown, this`quickAddHidden, this`pauseLabel
      ensures shown == SecToHHMMSS(remaining) && IsMask(shown)
      ensures !isCompact ==> quickAddHidden == (running || isFinished)
      ensures isCompact ==> quickAddHidden == old(quickAddHidden)
      ensures isFinished ==> pauseLabel == old(pauseLabel)
      ensures !isFinished ==> pauseLabel == running
    {
      shown := SecToHHMMSS(remaining);
      SecToHHMMSSIsMask(remaining);
      if !isCompact {
        quickAddHidden := running || isFinished;
      }
      if !isFinished {
        pauseLabel := running;
      }
    }

    /** One firing of the one-second interval. The interval is armed
        exactly while the timer runs: start arms it, and every write of
        `running := false` clears it. */
    method Tick()
      requires Valid() && running
      modifies this
      ensures Valid()
      ensures old(remaining) > 0 ==>
        remaining == old(remaining) - 1 && running
        && isFinished == old(isFinished) && beeps == old(beeps)
      ensures old(remaining) == 0 ==>
        remaining == 0 && !running && isFinished && beeps == old(beeps) + 1
      ensures baseSeconds == old(baseSeconds) && userEdited == old(userEdited)
      ensures isEditing == old(isEditing) && isCompact == old(isCompact)
      ensures isCompact ==> quickAddHidden == old(quickAddHidden)
      ensures shown == SecToHHMMSS(remaining)
    {
      if remaining == 0 {
        running := false;
        isFinished := true;
        beeps := beeps + 1;
        UpdateDisplay();
        return;
      }
      remaining := remaining - 1;
      UpdateDisplay();
    }

    /** The interval firing `seconds` times; it fires only while it is armed,
        that is while the timer runs. A run of n seconds ends on the firing
        after the one that reaches zero. */
    method RunFor(seconds: nat)
      requires Valid()
      modifies this
      ensures Valid()
      ensures !old(running) ==> unchanged(this)
      ensures old(running) && seconds <= old(remaining) ==>
        running && !isFinished && remaining == old(remaining) - seconds && beeps == old(beeps)
      ensures old(running) && seconds > old(remaining) ==>
        !running && isFinished && remaining == 0 && beeps == old(beeps) + 1
      ensures baseSeconds == old(baseSeconds) && userEdited == old(userEdited)
      ensures isEditing == old(isEditing) && isCompact == old(isCompact)
      ensures isCompact ==> quickAddHidden == old(quickAddHidden)
    {
      var i := 0;
      while i < seconds && running
        invariant Valid()
        invariant i <= seconds
        invariant !old(running) ==> unchanged(this)
        invariant old(running) && i <= old(remaining) ==>
          running && !isFinished && remaining == old(remaining) - i && beeps == old(beeps)
        invariant old(running) && i > old(remaining) ==>
          i == old(remaining) + 1 && !running && isFinished && remaining == 0
          && beeps == old(beeps) + 1
        invariant baseSeconds == old(baseSeconds) && userEdited == old(userEdited)
        invariant isEditing == old(isEditing) && isCompact == old(isCompact)
        invariant isCompact ==> quickAddHidden == old(quickAddHidden)
      {
        Tick();
        i := i + 1;
      }
    }

    /** startPause: ignored once finished; pauses a running timer; otherwise
        starts it, first adopting the edited text as the new base when an
        edit is pending and the countdown has not moved since. Like every
        button, it acts outside edit mode: pressing it first takes the focus
        from the field being edited, which runs exitEditMode. */
    method StartPause()
      requires Valid() && !isEditing
      modifies this
      ensures Valid()
      ensures old(isFinished) ==> unchanged(this)
      ensures !old(isFinished) ==> running == !old(running)
      ensures !old(isFinished) && (old(running) || !old(userEdited) || old(remaining) != old(baseSeconds)) ==>
        userEdited == old(userEdited)
      ensures !old(isFinished) && !old(running) && old(userEdited) && old(remaining) == old(baseSeconds) ==>
        remaining == MaskSeconds(old(shown)) && baseSeconds == remaining && !userEdited
      ensures remaining == old(remaining) && baseSeconds == old(baseSeconds)
      ensures shown == SecToHHMMSS(remaining)
      ensures isEditing == old(isEditing) && isCompact == old(isCompact)
      ensures isFinished == old(isFinished) && beeps == old(beeps)
      ensures isCompact ==> quickAddHidden == old(quickAddHidden)
    {
      if isFinished {
        return;
      }
      if running {
        Pause();
      } else {
        Start();
      }
    }

    /** The pausing branch of startPause: the interval is cleared. */
    method Pause()
      requires Valid() && running
      modifies this
      ensures Valid() && !running
      ensures remaining == old(remaining) && baseSeconds == old(baseSeconds) && userEdited == old(userEdited)
      ensures isEditing == old(isEditing) && isCompact == old(isCompact)
      ensures isFinished == old(isFinished) && beeps == old(beeps)
      ensures isCompact ==> quickAddHidden == old(quickAddHidden)
      ensures shown == SecToHHMMSS(remaining)
    {
      running := false;
      UpdateDisplay();
    }

    /** The starting branch of startPause: an edit pending at the base is
        adopted first; then the interval is armed. */
    method Start()
      requires Valid() && !running && !isFinished && !isEditing
      modifies this
      ensures Valid() && running
      ensures old(userEdited) && old(remaining) == old(baseSeconds) ==>
        remaining == MaskSeconds(old(shown)) && baseSeconds == remaining && !userEdited
      ensures !(old(userEdited) && old(remaining) == old(baseSeconds)) ==> userEdited == old(userEdited)
      ensures remaining == old(remaining) && baseSeconds == old(baseSeconds)
      ensures isEditing == old(isEditing) && isCompact == old(isCompact)
      ensures isFinished == old(isFinished) && beeps == old(beeps)
      ensures isCompact ==> quickAddHidden == old(quickAddHidden)
      ensures shown == SecToHHMMSS(remaining)
    {
      if userEdited && remaining == baseSeconds {
        AdoptEdit();
      }
      running := true;
      UpdateDisplay();
    }

    /** The pending edit is read back from the field as the new base. The
        field shows `remaining`, so the reading is `remaining` itself. */
    method AdoptEdit()
      requires Valid() && !isEditing
      modifies this`baseSeconds, this`total, this`remaining, this`userEdited
      ensures Valid()
      ensures remaining == MaskSeconds(old(shown)) && baseSeconds == remaining && !userEdited
      ensures remaining == old(remaining)
    {
      var candidate := MaskSeconds(shown);
      ShowThenRead(remaining);
      baseSeconds := candidate;
      total := baseSeconds;
      remaining := baseSeconds;
      userEdited := false;
    }

    /** reset: stopped, not finished, back at the base time. */
    method Reset()
      requires Valid() && !isEditing
      modifies this
      ensures Valid()
      ensures !running && !isFinished && !userEdited
      ensures baseSeconds == old(baseSeconds) && remaining == baseSeconds
      ensures shown == SecToHHMMSS(remaining)
      ensures isEditing == old(isEditing) && isCompact == old(isCompact) && beeps == old(beeps)
      ensures isCompact ==> quickAddHidden == old(quickAddHidden)
      ensures Fields() == ResetFields(old(Fields()))
    {
      running := false;
      isFinished := false;
      total := baseSeconds;
      remaining := baseSeconds;
      userEdited := false;
      UpdateDisplay();
    }

    /** A quick-add button: adds `add` seconds unless that passes 99:59:59;
        while stopped the sum also becomes the new base. */
    method QuickAdd(add: nat)
      requires Valid() && !isEditing
      modifies this
      ensures Valid()
      ensures old(remaining) + add > MaxSeconds ==> unchanged(this)
      ensures old(remaining) + add <= MaxSeconds ==>
        remaining == old(remaining) + add && shown == SecToHHMMSS(remaining)
        && baseSeconds == (if running then old(baseSeconds) else remaining)
      ensures running == old(running) && isFinished == old(isFinished)
      ensures userEdited == old(userEdited) && isEditing == old(isEditing)
      ensures isCompact == old(isCompact) && beeps == old(beeps)
      ensures isCompact ==> quickAddHidden == old(quickAddHidden)
    {
      if remaining + add <= MaxSeconds {
        remaining := remaining + add;
        if !running {
          baseSeconds := remaining;
          total := baseSeconds;
        }
        UpdateDisplay();
      }
    }

    /** enterEditMode: pauses a running timer, then edits the field. */
    method EnterEditMode()
      requires Valid()
      modifies this
      ensures Valid()
      ensures isEditing && !running
      ensures remaining == old(remaining) && baseSeconds == old(baseSeconds)
      ensures userEdited == old(userEdited) && isFinished == old(isFinished)
      ensures isCompact == old(isCompact) && beeps == old(beeps)
      ensures shown == if old(running) then SecToHHMMSS(remaining) else old(shown)
      ensures isCompact ==> quickAddHidden == old(quickAddHidden)
    {
      if running {
        StartPause();
      }
      isEditing := true;
    }

    /** What exitEditMode leaves behind when the field read `text`: editing
        is over; a value that differs from `remaining` replaces it, marks the
        time as edited and, while stopped, becomes the base; the field then
        shows `remaining` again. */
    twostate predicate CommittedEdit(text: string)
      requires IsMask(text)
      reads this
    {
      var v := MaskSeconds(text);
      !isEditing
      && (v != old(remaining) ==>
            remaining == v && userEdited
            && baseSeconds == (if old(running) then old(baseSeconds) else v))
      && (v == old(remaining) ==>
            remaining == old(remaining) && userEdited == old(userEdited)
            && baseSeconds == old(baseSeconds))
      && running == old(running) && isFinished == old(isFinished)
      && isCompact == old(isCompact) && beeps == old(beeps)
      && (isCompact ==> quickAddHidden == old(quickAddHidden))
      && shown == SecToHHMMSS(remaining)
    }

    /** exitEditMode (the field losing focus). */
    method ExitEditMode()
      requires Valid()
      modifies this
      ensures Valid()
      ensures CommittedEdit(old(shown))
      ensures !old(isEditing) ==>
        remaining == old(remaining) && baseSeconds == old(baseSeconds) && userEdited == old(userEdited)
    {
      var newSeconds := MaskSeconds(shown);
      if !isEditing {
        ShowThenRead(remaining);
        assert newSeconds == remaining;
      }
      isEditing := false;
      if newSeconds != remaining {
        userEdited := true;
        remaining := newSeconds;
        if !running {
          baseSeconds := newSeconds;
          total := baseSeconds;
        }
      }
      UpdateDisplay();
    }

    /** The times, the run state and the buttons are as they were: no time
        is committed. */
    twostate predicate TimesKept()
      reads this
    {
      remaining == old(remaining) && baseSeconds == old(baseSeconds)
      && userEdited == old(userEdited) && running == old(running)
      && isFinished == old(isFinished) && isCompact == old(isCompact) && beeps == old(beeps)
      && quickAddHidden == old(quickAddHidden) && pauseLabel == old(pauseLabel)
    }

    /** The Escape branch of handleKeydown: the field is restored from
        `remaining`, then loses focus, which commits nothing. */
    method CancelEdit()
      requires Valid()
      modifies this
      ensures Valid()
      ensures TimesKept() && !isEditing && shown == SecToHHMMSS(remaining)
    {
      UpdateDisplay();
      ShowThenRead(remaining);
      ExitEditMode();
    }

    /** The digit branch of handleKeydown: the buffer takes digit `c` in on
        the right. */
    method TypeKey(c: char)
      requires Valid() && isEditing && IsDigit(c)
      modifies this
      ensures Valid()
      ensures shown == TypeDigit(old(shown), c)
      ensures shown == [old(shown)[1], old(shown)[3], ':', old(shown)[4], old(shown)[6], ':', old(shown)[7], c]
      ensures TimesKept() && isEditing
    {
      TypeDigitShifts(shown, c);
      shown := TypeDigit(shown, c);
    }

    /** The Backspace/Delete branch of handleKeydown: the buffer drops its
        last digit and takes a zero in on the left. */
    method EraseKey()
      requires Valid() && isEditing
      modifies this
      ensures Valid()
      ensures shown == Backspace(old(shown))
      ensures shown == ['0', old(shown)[0], ':', old(shown)[1], old(shown)[3], ':', old(shown)[4], old(shown)[6]]
      ensures TimesKept() && isEditing
    {
      BackspaceShifts(shown);
      shown := Backspace(shown);
    }

    /** handleKeydown: returns whether the key keeps its default action. */
    method Keydown(key: string) returns (keepsDefault: bool)
      requires Valid()
      modifies this
      ensures Valid()
      ensures !old(isEditing) ==> unchanged(this) && keepsDefault
      ensures old(isEditing) && key == "Enter" ==> CommittedEdit(old(shown)) && keepsDefault
      ensures old(isEditing) && key == "Escape" ==>
        TimesKept() && !isEditing && shown == SecToHHMMSS(remaining) && keepsDefault
      ensures old(isEditing) && IsDigitKey(key) ==>
        TimesKept() && isEditing && !keepsDefault
        && shown == [old(shown)[1], old(shown)[3], ':', old(shown)[4], old(shown)[6], ':', old(shown)[7], key[0]]
      ensures old(isEditing) && (key == "Backspace" || key == "Delete") ==>
        TimesKept() && isEditing && !keepsDefault
        && shown == ['0', old(shown)[0], ':', old(shown)[1], old(shown)[3], ':', old(shown)[4], old(shown)[6]]
      ensures old(isEditing) && key !in {"Enter", "Escape", "Backspace", "Delete"} && !IsDigitKey(key) ==>
        unchanged(this) && keepsDefault == (key in NavigationKeys)
    {
      if !isEditing {
        return true;
      }
      if key == "Enter" {
        ExitEditMode();
        return true;
      }
      if key == "Escape" {
        CancelEdit();
        return true;
      }
      if IsDigitKey(key) {
        TypeKey(key[0]);
        return false;
      }
      if key == "Backspace" || key == "Delete" {
        EraseKey();
        return false;
      }
      keepsDefault := key in NavigationKeys;
    }

    /** toggleCompactMode: switches layout and asks the page for the new
        container height. */
    method ToggleCompact() returns (msg: Message)
      requires Valid() && !isEditing
      modifies this
      ensures Valid()
      ensures isCompact == !old(isCompact)
      ensures msg == Resize(if isCompact then CompactHeight else NormalHeight)
      ensures shown == SecToHHMMSS(remaining)
      ensures remaining == old(remaining) && baseSeconds == old(baseSeconds)
      ensures running == old(running) && isFinished == old(isFinished)
      ensures userEdited == old(userEdited) && isEditing == old(isEditing) && beeps == old(beeps)
      ensures quickAddHidden == (running || isFinished)
    {
      isCompact := !isCompact;
      if isCompact {
        msg := Resize(CompactHeight);
      } else {
        msg := Resize(NormalHeight);
      }
      UpdateDisplay();
    }

    /** The close button: asks the page to remove the overlay. */
    method Close() returns (msg: Message)
      ensures msg == CloseOverlay
    {
      msg := CloseOverlay;
    }
  }
}
