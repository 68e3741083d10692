# Overlay countdown timer — Dafny model

This project models the core of a browser extension that lays a draggable
countdown timer over any web page. There are two halves.

- **The panel** (`timer.js`) holds the timer's state and operations:
  - the remaining and base times, and the running, finished, editing,
    edited and compact flags;
  - the one-second tick, start/pause, reset and the quick-add buttons;
  - an edit mode in which the `HH:MM:SS` field works as a six-digit
    sliding buffer;
  - a compact layout, which asks the page to resize the container.
- **The page side** (`content.js`) shows and removes a fixed-position
  container for the panel. It drags the container by a strip along its top
  edge, and obeys the panel's `close-overlay` and `resize` messages.

Modules:

- `TimeText` (`time_text.dfy`): the pure conversions between whole seconds
  and the `HH:MM:SS` text. It defines JavaScript's `String(n)`,
  `padStart`, `split(":")` and `Number` on digit strings, so that
  `secToHHMMSS` and `timeStringToSeconds` can be written out in full. It
  proves both round trips between them.
- `DigitBuffer` (`digit_buffer.dfy`): `timeStringToDigits`,
  `digitsToTimeString`, and the digit and Backspace/Delete branches of
  `handleKeydown`, as pure text transforms. Typing a digit is proved to be
  a left shift of the buffer, and Backspace a right shift.
- `Messages` (`messages.dfy`): the values the panel posts to the page.
- `TimerEngine` (`timer_engine.dfy`): class `Timer`, whose fields are the
  panel's module-level variables. Every handler is a method that updates
  them in place. The invariant `Valid` collects what every handler keeps:
  - `total == BASE_SECONDS`;
  - `remaining <= 359999`;
  - never both running and finished, and never running while editing;
  - the field always holds an `HH:MM:SS` text;
  - outside edit mode, the field shows `remaining`;
  - in the normal layout, quick-add is hidden exactly while running or
    finished;
  - the start/pause label is the pause symbol exactly while running or
    finished. A finished panel hides those buttons but never rewrites their
    label, so they keep the symbol of the run that finished.
- `OverlayHost` (`overlay_host.dfy`): class `Host`, whose fields are the
  page script's `wrapper`, `mask`, `isDown`, `startX` and `startY`. The
  container is an optional `Frame` record of integers. Ghost fields record
  the pointer-down of the current drag. The invariant states that the
  container has moved exactly as far as the pointer since that
  pointer-down.
- `Scenarios` (`scenarios.dfy`): short sequences of user actions and what
  they leave behind.

Where the extension's documented behaviour and its code disagree, the model
follows the code:

- **A run of n seconds finishes on the (n+1)-th tick, not the n-th.**
  `tick` only finishes when it finds `remaining` already at 0
  (timer.js:93-104). A five-second run is therefore at 0 and still running
  after five ticks, and finishes with one tone on the sixth. See
  `Scenarios.FiveSecondRun`.
- **Start after an edit re-reads the field.** The documented behaviour is
  that start adopts `remaining` as the base. The code instead parses the
  field's text again (timer.js:113-120). Pressing start first ends any edit,
  so that text is `secToHHMMSS(remaining)`, and by the round-trip lemma the
  result is the same. `Timer.StartPause` states both.
- **Finished and editing can hold together.** The documented behaviour is
  that finished and editing exclude each other. `enterEditMode` does not look at
  `isFinished` (timer.js:160-171), so the model allows both at once.

## Model

| member | source | states |
|---|---|---|
| `TimeText.DecimalString` | timer.js:32-35 | `String(n)` of a whole number is a non-empty run of decimal digits that starts with `0` only for 0 |
| `TimeText.DecimalValue` | timer.js:152 | `Number` of an all-digit string is a whole number below 10 to the power of its length; the empty string reads as 0 |
| `TimeText.NumberOf` | timer.js:152 | `Number(field)` is a number exactly when the field is all digits; any other field is NaN (`None`) |
| `TimeText.ZeroPad` | timer.js:32-35 | `padStart(width, "0")` gives the longer of the width and the original length |
| `TimeText.ZeroPadAt` | timer.js:143 | each padded character is a pad zero before the original text and the original character after it |
| `TimeText.Split` | timer.js:152 | `split(":")` always yields at least one field |
| `TimeText.SplitField` | timer.js:152 | a colon-free prefix before a colon is split off as one field, and splitting continues after the colon |
| `TimeText.MaskFields` | timer.js:152 | an `HH:MM:SS` text splits into exactly its three two-digit fields |
| `TimeText.TimeStringToSeconds` | timer.js:151-158 | hours, minutes and seconds are clamped to 99, 59 and 59, so any numeric result is at most 359999 |
| `TimeText.MaskSeconds` | timer.js:153-157 | an `HH:MM:SS` text read field by field, with minutes and seconds clamped to 59, is at most 359999 |
| `TimeText.MaskParse` | timer.js:151-158 | on an `HH:MM:SS` text, `timeStringToSeconds` is a number: the field-by-field reading `MaskSeconds` |
| `TimeText.TwoDigitsChars` | timer.js:32-35 | a number below 100 is shown as its tens digit followed by its units digit |
| `TimeText.SecToHHMMSSChars` | timer.js:28-36 | `secToHHMMSS(s)` is the two-digit hours, minutes and seconds of `s`, colon-separated |
| `TimeText.SecToHHMMSSIsMask` | timer.js:28-36 | for `s <= 359999` the result is an `HH:MM:SS` text whose fields read back as `s / 3600`, `(s % 3600) / 60` and `s % 60` |
| `TimeText.ShowThenRead` | timer.js:28-36 | for every `s <= 359999`, `secToHHMMSS(s)` is an `HH:MM:SS` text whose field-by-field reading is `s` |
| `TimeText.ShowThenParse` | timer.js:151-158 | for every `s <= 359999`, `timeStringToSeconds(secToHHMMSS(s)) == s` |
| `TimeText.ParseThenShow` | timer.js:151-158 | showing the parsed value of an `HH:MM:SS` text gives the text back exactly when its minutes and seconds are at most 59 |
| `TimeText.CanonicalMaskReshown` | timer.js:153-157 | a text with minutes and seconds at most 59 is unchanged by parse-then-show |
| `TimeText.ClampedMaskNotReshown` | timer.js:153-157 | a text with minutes or seconds above 59 is clamped, so it is changed by parse-then-show |
| `DigitBuffer.TimeStringToDigits` | timer.js:137-139 | removing the colons leaves no colon and never lengthens the text |
| `DigitBuffer.DigitsOfConcat` | timer.js:137-139 | removing colons distributes over concatenation |
| `DigitBuffer.MaskDigits` | timer.js:137-139 | the buffer behind an `HH:MM:SS` text is its six digits, in order |
| `DigitBuffer.LastSix` | timer.js:258 | `slice(-6)` keeps the last six characters, or all of them when there are fewer |
| `DigitBuffer.DigitsToTimeStringIsMask` | timer.js:142-148 | up to six digits, left-padded with zeros, always give an `HH:MM:SS` text |
| `DigitBuffer.SixDigitsShown` | timer.js:142-148 | six digits are shown as two, a colon, two, a colon, two |
| `DigitBuffer.MaskDigitsRoundTrip` | timer.js:137-148 | removing the colons of an `HH:MM:SS` text and putting them back gives the text |
| `DigitBuffer.DigitsMaskRoundTrip` | timer.js:137-148 | showing six digits and removing the colons gives the digits |
| `DigitBuffer.MaskWithinTypingCap` | timer.js:262-265 | each field of an `HH:MM:SS` text is at most 99, so the check while typing never rejects |
| `DigitBuffer.TypeDigitShifts` | timer.js:255-267 | typing a digit makes the buffer the last five old digits followed by the new one, as an `HH:MM:SS` text |
| `DigitBuffer.BackspaceShifts` | timer.js:270-276 | Backspace/Delete drops the last digit and brings a `0` in on the left: a right shift |
| `DigitBuffer.BackspaceToZero` | timer.js:273-274 | a buffer that would become empty becomes `"0"`, shown as `00:00:00` |
| `DigitBuffer.TypeThree` | timer.js:255-267 | three digits typed into an `HH:MM:SS` text push out its three oldest digits |
| `DigitBuffer.TypingExample` | timer.js:255-267 | typing 1, 2, 3, 0, 0, 0 into `00:00:00` shows `12:30:00`, which reads as 45000 seconds |
| `TimeText.ZeroShown` | timer.js:28-36 | 0 seconds are shown as `00:00:00` |
| `TimeText.CapShown` | timer.js:28-36 | 359999 seconds are shown as `99:59:59` |
| `DigitBuffer.ExampleShown` | timer.js:28-36 | 45000 seconds are shown as `12:30:00` |
| `DigitBuffer.ExampleValue` | timer.js:151-158 | `12:30:00` reads as 45000 seconds |
| `TimerEngine.Timer.ViewConsistent` | timer.js:47-82 | a visible pause symbol means exactly that the timer runs; a finished panel's hidden start/pause buttons still carry the pause symbol; reset stands alone exactly when finished; in the normal layout quick-add is hidden whenever reset stands alone, and visible only when stopped and startable |
| `TimerEngine.Timer.constructor` | timer.js:18-26 | a new panel is at five minutes, stopped, not edited, not editing, normal layout, showing `00:05:00` |
| `TimerEngine.Timer.UpdateDisplay` | timer.js:37-82 | the field shows `remaining`; in the normal layout quick-add is hidden exactly while running or finished, and in the compact layout it is left as it was; the start/pause label shows the run state, and is left as it was once finished |
| `TimerEngine.Timer.Tick` | timer.js:93-104 | a firing of the interval, which is armed only while running: above zero it takes exactly one second off; at zero it stops the timer, marks it finished and sounds one tone; nothing else changes, quick-add in the compact layout included |
| `TimerEngine.Timer.RunFor` | timer.js:93-104 | n firings of the interval from a running timer at r: if n <= r it is still running at r - n; if n > r it is finished at 0 with one more tone; a stopped timer is untouched |
| `TimerEngine.Timer.StartPause` | timer.js:105-125 | acting outside edit mode: a no-op once finished; otherwise flips running; starting with a pending edit at the base re-reads the field as the new base and clears the edited flag; the re-read changes no time |
| `TimerEngine.Timer.Pause` | timer.js:108-110 | pausing stops the timer and changes no time, flag or layout |
| `TimerEngine.Timer.Start` | timer.js:111-122 | starting arms the timer; a pending edit at the base is adopted and its flag cleared, any other edited flag is kept; no time changes |
| `TimerEngine.Timer.AdoptEdit` | timer.js:113-120 | the field's reading becomes base, total and remaining and clears the edited flag; outside edit mode that reading is `remaining` itself |
| `TimerEngine.Timer.Reset` | timer.js:126-134 | acting outside edit mode: stopped, not finished, not edited, remaining back at the unchanged base; every field is `ResetFields` of the fields before |
| `TimerEngine.ResetIdempotent` | timer.js:126-134 | the state a reset leaves behind is left exactly as it is by a second reset |
| `TimerEngine.Timer.QuickAdd` | timer.js:210-226 | acting outside edit mode: adds the seconds only if the sum stays within 359999, else changes nothing; while stopped the sum is also the new base |
| `TimerEngine.Timer.EnterEditMode` | timer.js:160-171 | editing starts with the timer stopped and the remaining time, base and edited flag unchanged |
| `TimerEngine.Timer.ExitEditMode` | timer.js:173-187 | the field's parsed value replaces `remaining` and sets the edited flag only when it differs, and becomes the base only while stopped; leaving edit mode without an edit changes no time |
| `TimerEngine.Timer.CancelEdit` | timer.js:247-251 | Escape restores the field from `remaining` and ends editing without changing any time or flag |
| `TimerEngine.Timer.TypeKey` | timer.js:255-267 | a digit key sets the field to the source's typed-digit text, which is the buffer shifted left with the digit entering on the right; no time changes |
| `TimerEngine.Timer.EraseKey` | timer.js:270-276 | Backspace/Delete sets the field to the source's erased text, which is the buffer shifted right with a zero entering on the left; no time changes |
| `TimerEngine.Timer.Keydown` | timer.js:239-282 | outside edit mode nothing happens; Enter commits; Escape restores the field and commits nothing; a digit shifts the buffer left; Backspace/Delete shifts it right; other keys keep their default only if they are navigation keys |
| `TimerEngine.Timer.ToggleCompact` | timer.js:189-207 | acting outside edit mode: flips the layout and posts a resize to 44 pixels (compact) or 260 (normal); no time or flag other than the layout changes |
| `TimerEngine.Timer.Close` | timer.js:290-292 | the close button posts `close-overlay` |
| `OverlayHost.NewFrame` | content.js:43-50 | a new container is 20 from the top, pinned 20 from the right, 280 wide and 260 high |
| `OverlayHost.Moved` | content.js:98-100 | a move shifts left and top by the given deltas, unpins the right edge and keeps the size |
| `OverlayHost.MovedTwice` | content.js:94-103 | two moves add up to one move by the summed deltas |
| `OverlayHost.Host.constructor` | content.js:6-9 | the page starts with no container and the pointer up |
| `OverlayHost.Host.CreateOverlay` | content.js:36-110 | a no-op when a container exists; otherwise a fresh container with its drag strip; the pointer state is untouched |
| `OverlayHost.Host.RemoveOverlay` | content.js:113-120 | a no-op when absent; otherwise container and strip are gone; the pointer state survives |
| `OverlayHost.Host.ToggleOverlay` | content.js:30-33 | a present container is removed and an absent one is created |
| `OverlayHost.Host.OnRuntimeMessage` | content.js:12-15 | only `toggle-overlay` acts, and it toggles presence |
| `OverlayHost.Host.OnWindowMessage` | content.js:18-27 | `close-overlay` removes the container; a resize sets only the height and only when a container is present and the height is not negative, since the style rejects a negative length; other data is ignored |
| `OverlayHost.Host.PointerDown` | content.js:86-92 | the pointer is down and the start point is the event's position |
| `OverlayHost.Host.PointerMove` | content.js:94-103 | with the pointer up nothing changes; with it down the container moves by the delta since the last event, unpins the right edge and the start point advances; the container's total displacement equals the pointer's since pointer-down |
| `OverlayHost.Host.PointerUp` | content.js:105-109 | the pointer is up; position and start point are untouched |
| `Scenarios.FiveSecondRun` | timer.js:93-104 | from five seconds, start then six firings: finished, stopped, at 0, one tone, only reset shown, the hidden start/pause buttons still labelled pause; start/pause then does nothing |
| `Scenarios.ResetTwice` | timer.js:126-134 | after two resets the timer is stopped, not finished, not edited and at the unchanged base; `once`, the fields as the first reset leaves them, is `ResetFields` of the starting fields, and every field after the second reset equals `once` |
| `Scenarios.TypeDigits` | timer.js:255-267 | three digit keys in edit mode shift three digits in on the right and change no time |
| `Scenarios.TypeTwelveThirty` | timer.js:173-187 | from zero, edit, type 1 2 3 0 0 0 and press Enter: 45000 seconds, the new base, marked edited |
| `Scenarios.EscapeDiscards` | timer.js:247-251 | a digit, a Backspace and then Escape commit nothing: remaining, base, edited flag and finished flag are unchanged and the field shows `remaining` |
| `Scenarios.QuickAddNearCap` | timer.js:213-216 | 100 seconds below the cap, adding an hour is refused and adding 100 reaches `99:59:59` |
| `Scenarios.CompactRoundTrip` | timer.js:189-207 | compact and back returns the page's container to 260 high, at the same place |
| `Scenarios.DragTwice` | content.js:94-109 | a drag in two moves shifts the container by the whole pointer movement; moves after pointer-up do nothing |
| `Scenarios.StaleDragAfterReopen` | content.js:113-120 | the panel's close button posts its message to the page; closing mid-drag leaves the pointer down, so a reopened container follows the next move from the last pointer position seen before the close |

## Left out

- `sw.js`, the extension's icon-click dispatcher, is not part of this model. It only forwards `toggle-overlay` and re-injects the page script when messaging fails.
- The tone (`beep`) uses the Web Audio API. It is modelled as the counter `beeps`.
- The progress ring is left out. It is floating-point arithmetic on `Math.PI`, and it divides by `total`, which can be 0.
- Rendering is left out: `style.display`, `classList`, `readOnly`, focus and caret placement. What the start/pause and reset buttons show is kept as `Timer.View`, from the `isFinished` and `pauseLabel` fields; whether quick-add is shown is the `quickAddHidden` field.
- `setInterval`/`clearInterval` are left out. The interval is armed exactly while `running`; `Timer.RunFor` stands for its firings and `Timer.Tick` for one firing.
- `postMessage` and `chrome.runtime.onMessage` are not modelled as transport. Messages are values passed to method calls. A delayed or reordered delivery is a different order of calls.
- Pointer capture, the cursor style and console logging are left out.
- The iframe, its URL, the z-index and the drag strip's own geometry are left out. Only the container's geometry is modelled.
- `offsetLeft`/`offsetTop` come from the browser's layout. They are taken to be the stored `left`/`top`. The left offset of a freshly created, right-pinned container is a parameter.
- Message data that is `null` makes the page's listener throw (content.js:21). It is treated as ignored, like any other unrecognised data.
- A resize `height` that is not a number is not modelled; heights are integers.
- `TimeText.NumberOf` covers only strings of decimal digits. JavaScript's `Number` also accepts whitespace, signs, decimals, exponents and hex; those all give `None` here. The model's field only ever holds `HH:MM:SS` texts, where that never arises. In the browser, pasted or dropped text (see below) can reach the parser: pasting a space gives `00:05:00 `, which JavaScript reads as 300 seconds and `NumberOf` would read as `None`.
- `TimeText.TimeStringToSeconds` returns `None` where JavaScript returns NaN. The model's field only ever holds an `HH:MM:SS` text, so the timer never parses such a text here.
- Text that reaches the field without a key press, by pasting from the context menu or dropping, is not modelled. `handleKeydown` never sees it. For example, pasting `abc` gives `00:05:00abc`; `exitEditMode` then commits NaN as the remaining time and the base, and `tick` never finishes, because `NaN <= 0` is false. The invariant that the field holds an `HH:MM:SS` text, and the bound on `remaining`, hold only without such input.
- `TimerEngine.Timer.QuickAdd` takes the amount as a whole number. The amounts come from the buttons' `data-add` attributes in the page markup, which is not part of this model.
- The panel's two time fields (normal and compact) are modelled as one field, `shown`, the field of the current layout. `updateDisplay` always writes both with the same text. They differ during every edit, because a key changes only the field being edited; the other field is not modelled.
- `TimerEngine.Timer.Keydown` sees only the key's name. `e.target` is taken to be the field being edited.
- Start/pause, reset, quick-add and the layout switch require that no edit is in progress. In the browser, pressing a button first takes the focus from the field, so `ExitEditMode` runs before the button acts; a press is modelled as that call followed by the button's method.
- Several functions have no contract of their own. The lemmas named here state what each computes:
  - `DigitBuffer.DigitsToTimeString`: `DigitsToTimeStringIsMask`, `SixDigitsShown` and the two round-trip lemmas.
  - `TimeText.SecToHHMMSS` (timer.js:28-36): `SecToHHMMSSChars`, `SecToHHMMSSIsMask`, `ShowThenRead` and `ShowThenParse`.
  - `TimeText.TwoDigits` (timer.js:32-35): `TwoDigitsChars`.
  - `DigitBuffer.WithinTypingCap` (timer.js:262-263): `MaskWithinTypingCap`.
  - `DigitBuffer.TypeDigit` (timer.js:255-266): `TypeDigitShifts` and `TypeThree`.
  - `DigitBuffer.Backspace` (timer.js:270-275): `BackspaceShifts` and `BackspaceToZero`.
  - `TimerEngine.Timer.View` (timer.js:57-82): `ViewConsistent`.
  - `TimerEngine.ResetFields` (timer.js:126-134): `Timer.Reset` and `ResetIdempotent`.
