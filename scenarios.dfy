/** Sequences of user actions on the panel and the page, with what they
    leave behind. */
module Scenarios {
  import opened Options
  import opened TimeText
  import opened DigitBuffer
  import opened Messages
  import opened TimerEngine
  import opened OverlayHost

  /** A five-second countdown: five firings bring it to zero, the sixth
      finishes it with one tone; after that start/pause does nothing. */
  method FiveSecondRun(t: Timer)
    requires t.Valid() && !t.running && !t.isFinished && !t.isEditing && t.remaining == 5
    modifies t
    ensures t.Valid()
    ensures t.isFinished && !t.running && t.remaining == 0
    ensures t.beeps == old(t.beeps) + 1
    ensures t.View() == Controls(true, true, true)
  {
    t.StartPause();
    t.RunFor(5);
    assert t.running && t.remaining == 0 && !t.isFinished;
    t.RunFor(1);
    t.StartPause();
  }

  /** Reset twice is reset once: `once` is every field as the first reset
      leaves it, and the second reset changes none of them. */
  method ResetTwice(t: Timer) returns (ghost once: TimerFields)
    requires t.Valid() && !t.isEditing
    modifies t
    ensures t.Valid()
    ensures !t.running && !t.isFinished && !t.userEdited
    ensures t.remaining == t.baseSeconds == old(t.baseSeconds)
    ensures once == ResetFields(old(t.Fields()))
    ensures t.Fields() == once
  {
    t.Reset();
    once := t.Fields();
    t.Reset();
    ResetIdempotent(old(t.Fields()));
  }

  /** Typing 1 2 3 0 0 0 into a field at zero and pressing Enter sets
      12:30:00, which becomes the base while stopped. */
  method TypeTwelveThirty(t: Timer)
    requires t.Valid() && !t.running && !t.isEditing && t.remaining == 0
    modifies t
    ensures t.Valid()
    ensures t.remaining == 45000 && t.baseSeconds == 45000 && t.userEdited
    ensures !t.isEditing && t.shown == "12:30:00"
  {
    ZeroShown();
    t.EnterEditMode();
    TypeDigits(t, '1', '2', '3');
    assert t.shown == "00:01:23";
    TypeDigits(t, '0', '0', '0');
    assert t.shown == "12:30:00";
    ExampleReading();
    ExampleShown();
    var k := t.Keydown("Enter");
  }

  /** Three digit keys while editing shift three digits in on the right. */
  method TypeDigits(t: Timer, a: char, b: char, c: char)
    requires t.Valid() && t.isEditing && IsDigit(a) && IsDigit(b) && IsDigit(c)
    modifies t
    ensures t.Valid() && t.isEditing
    ensures t.shown == [old(t.shown)[4], old(t.shown)[6], ':', old(t.shown)[7], a, ':', b, c]
    ensures t.remaining == old(t.remaining) && t.baseSeconds == old(t.baseSeconds)
    ensures t.userEdited == old(t.userEdited) && t.running == old(t.running)
  {
    var k := t.Keydown([a]);
    k := t.Keydown([b]);
    k := t.Keydown([c]);
  }

  /** Escape while editing throws the typed text away: nothing is
      committed and the field shows the remaining time again. */
  method EscapeDiscards(t: Timer, d: char)
    requires t.Valid() && !t.isEditing && IsDigit(d)
    modifies t
    ensures t.Valid()
    ensures t.remaining == old(t.remaining) && t.baseSeconds == old(t.baseSeconds)
    ensures t.userEdited == old(t.userEdited) && t.isFinished == old(t.isFinished)
    ensures !t.isEditing && t.shown == SecToHHMMSS(t.remaining)
  {
    t.EnterEditMode();
    var k := t.Keydown([d]);
    k := t.Keydown("Backspace");
    k := t.Keydown("Escape");
  }

  /** Quick-add near the cap: a step past 99:59:59 is refused, an exact fit
      is taken and becomes the base while stopped. */
  method QuickAddNearCap(t: Timer)
    requires t.Valid() && !t.running && !t.isEditing && t.remaining == MaxSeconds - 100
    modifies t
    ensures t.Valid()
    ensures t.remaining == MaxSeconds && t.baseSeconds == MaxSeconds
    ensures t.shown == "99:59:59"
  {
    t.QuickAdd(3600);
    assert t.remaining == MaxSeconds - 100;
    t.QuickAdd(100);
    CapShown();
  }

  /** Compact and back: the page's container goes to 44 pixels and returns
      to 260, wherever it has been dragged. */
  method CompactRoundTrip(t: Timer, h: Host)
    requires t.Valid() && h.Valid() && !t.isCompact && !t.isEditing && h.wrapper.Some?
    modifies t, h
    ensures t.Valid() && h.Valid()
    ensures !t.isCompact && t.remaining == old(t.remaining)
    ensures h.wrapper == Some(old(h.wrapper.value).(height := NormalHeight))
  {
    var m := t.ToggleCompact();
    h.OnWindowMessage(m);
    assert h.wrapper.value.height == CompactHeight;
    m := t.ToggleCompact();
    h.OnWindowMessage(m);
  }

  /** A drag in two moves displaces the container by the whole pointer
      movement and unpins it from the right edge; moves after the button is
      released do nothing. */
  method DragTwice(h: Host, x0: int, y0: int, x1: int, y1: int, x2: int, y2: int, x3: int, y3: int)
    requires h.Valid() && h.wrapper.Some?
    modifies h
    ensures h.Valid() && !h.isDown
    ensures h.wrapper == Some(Moved(old(h.wrapper.value), x2 - x0, y2 - y0))
  {
    h.PointerDown(x0, y0);
    h.PointerMove(x1, y1);
    h.PointerMove(x2, y2);
    MovedTwice(old(h.wrapper.value), x1 - x0, y1 - y0, x2 - x1, y2 - y1);
    h.PointerUp();
    h.PointerMove(x3, y3);
  }

  /** Closing the overlay in the middle of a drag leaves the button marked
      down; a container created afterwards then follows the next move from
      the last pointer position seen before the close. */
  method StaleDragAfterReopen(t: Timer, h: Host, x0: int, y0: int, left: int, x1: int, y1: int)
    requires h.Valid() && h.wrapper.Some?
    modifies h
    ensures h.Valid()
    ensures h.wrapper == Some(Moved(NewFrame(left), x1 - x0, y1 - y0))
  {
    h.PointerDown(x0, y0);
    var m := t.Close();
    h.OnWindowMessage(m);
    h.OnRuntimeMessage("toggle-overlay", left);
    h.PointerMove(x1, y1);
  }
}
