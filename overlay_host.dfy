/** The page side of the extension (content.js): it shows and hides the
    fixed-position container that holds the timer panel, drags it by a thin
    strip along its top edge, and obeys the close and resize messages that
    the panel posts. */
module OverlayHost {
  import opened Options
  import opened Messages

  /** The container's geometry in pixels. `left` and `top` are its layout
      offsets; `right` is the style's right edge: 20 while the container is
      pinned to the viewport's right edge, None ("auto") once dragged. */
  datatype Frame = Frame(left: int, top: int, right: Option<int>, width: int, height: int)

  const DefaultTop: int := 20
  const DefaultRight: int := 20
  const DefaultWidth: int := 280

  /** A freshly created container. Its left offset is whatever layout makes
      of the right-pinned style, so it is a parameter. */
  function NewFrame(initialLeft: int): (f: Frame)
    ensures f.right == Some(DefaultRight) && f.top == DefaultTop
    ensures f.width == DefaultWidth && f.height == NormalHeight
    ensures f.left == initialLeft
  {
    Frame(initialLeft, DefaultTop, Some(DefaultRight), DefaultWidth, NormalHeight)
  }

  /** The frame moved by (dx, dy), no longer pinned on the right. */
  function Moved(f: Frame, dx: int, dy: int): (g: Frame)
    ensures g.left - f.left == dx && g.top - f.top == dy
    ensures g.right == None && g.width == f.width && g.height == f.height
  {
    Frame(f.left + dx, f.top + dy, None, f.width, f.height)
  }

  /** Moving twice is moving once by the summed displacement. */
  lemma MovedTwice(f: Frame, dx1: int, dy1: int, dx2: int, dy2: int)
    ensures Moved(Moved(f, dx1, dy1), dx2, dy2) == Moved(f, dx1 + dx2, dy1 + dy2)
  {
  }

  class Host {
    var wrapper: Option<Frame>  // the container, when it is in the page
    var hasMask: bool           // the drag strip exists
    var isDown: bool
    var startX: int
    var startY: int
    // The pointer-down that began the current drag on this container.
    ghost var dragging: bool
    ghost var downX: int
    ghost var downY: int
    ghost var downLeft: int
    ghost var downTop: int

    /** The drag strip exists exactly with the container, and during a drag
        the container has moved exactly as far as the pointer. */
    ghost predicate Valid()
      reads this
    {
      (wrapper.Some? <==> hasMask)
      && (dragging ==>
            isDown && wrapper.Some?
            && wrapper.value.left - downLeft == startX - downX
            && wrapper.value.top - downTop == startY - downY)
    }

    constructor ()
      ensures Valid()
      ensures wrapper == None && !hasMask && !isDown
    {
      wrapper := None;
      hasMask := false;
      isDown := false;
      startX, startY := 0, 0;
      dragging := false;
    }

    /** createOverlay: does nothing when the container is already there. */
    method CreateOverlay(initialLeft: int)
      requires Valid()
      modifies this
      ensures Valid()
      ensures old(wrapper).Some? ==> unchanged(this)
      ensures old(wrapper).None? ==> wrapper == Some(NewFrame(initialLeft)) && hasMask
      ensures isDown == old(isDown) && startX == old(startX) && startY == old(startY)
    {
      if wrapper.Some? {
        return;
      }
      wrapper := Some(NewFrame(initialLeft));
      hasMask := true;
    }

    /** removeOverlay: does nothing when there is no container. The pointer
        state belongs to the script, not to the container, and survives. */
    method RemoveOverlay()
      requires Valid()
      modifies this
      ensures Valid()
      ensures old(wrapper).None? ==> unchanged(this)
      ensures wrapper == None && !hasMask
      ensures isDown == old(isDown) && startX == old(startX) && startY == old(startY)
    {
      if wrapper.Some? {
        wrapper := None;
        hasMask := false;
        dragging := false;
      }
    }

    /** toggleOverlay. */
    method ToggleOverlay(initialLeft: int)
      requires Valid()
      modifies this
      ensures Valid()
      ensures old(wrapper).Some? ==> wrapper == None && !hasMask
      ensures old(wrapper).None? ==> wrapper == Some(NewFrame(initialLeft)) && hasMask
      ensures isDown == old(isDown) && startX == old(startX) && startY == old(startY)
    {
      if wrapper.Some? {
        RemoveOverlay();
      } else {
        CreateOverlay(initialLeft);
      }
    }

    /** The extension's runtime message: only "toggle-overlay" acts. */
    method OnRuntimeMessage(msg: string, initialLeft: int)
      requires Valid()
      modifies this
      ensures Valid()
      ensures msg != "toggle-overlay" ==> unchanged(this)
      ensures msg == "toggle-overlay" && old(wrapper).Some? ==> wrapper == None && !hasMask
      ensures msg == "toggle-overlay" && old(wrapper).None? ==>
        wrapper == Some(NewFrame(initialLeft)) && hasMask
      ensures isDown == old(isDown) && startX == old(startX) && startY == old(startY)
    {
      if msg == "toggle-overlay" {
        ToggleOverlay(initialLeft);
      }
    }

    /** The page's window message listener. A resize writes the height as a
        CSS length; the style rejects a negative one and keeps its height. */
    method OnWindowMessage(msg: Message)
      requires Valid()
      modifies this
      ensures Valid()
      ensures msg == CloseOverlay ==> wrapper == None && !hasMask
      ensures msg.Resize? && old(wrapper).Some? && msg.height >= 0 ==>
        wrapper == Some(old(wrapper.value).(height := msg.height)) && hasMask
      ensures msg.Resize? && (old(wrapper).None? || msg.height < 0) ==> unchanged(this)
      ensures msg == Unrecognized ==> unchanged(this)
      ensures isDown == old(isDown) && startX == old(startX) && startY == old(startY)
    {
      match msg
      case CloseOverlay =>
        RemoveOverlay();
      case Resize(h) =>
        if wrapper.Some? && h >= 0 {
          wrapper := Some(wrapper.value.(height := h));
        }
      case Unrecognized =>
    }

    /** pointerdown on the drag strip. */
    method PointerDown(x: int, y: int)
      requires Valid() && wrapper.Some?
      modifies this
      ensures Valid()
      ensures isDown && startX == x && startY == y
      ensures wrapper == old(wrapper) && hasMask == old(hasMask)
      ensures dragging && downX == x && downY == y
      ensures downLeft == wrapper.value.left && downTop == wrapper.value.top
    {
      isDown := true;
      startX, startY := x, y;
      dragging := true;
      downX, downY := x, y;
      downLeft, downTop := wrapper.value.left, wrapper.value.top;
    }

    /** pointermove on the drag strip: while the button is down, the
        container follows the pointer's movement since the last event. */
    method PointerMove(x: int, y: int)
      requires Valid() && wrapper.Some?
      modifies this
      ensures Valid()
      ensures !old(isDown) ==> unchanged(this)
      ensures old(isDown) ==>
        wrapper == Some(Moved(old(wrapper.value), x - old(startX), y - old(startY)))
        && startX == x && startY == y && isDown
      ensures hasMask == old(hasMask) && dragging == old(dragging)
      ensures downX == old(downX) && downY == old(downY)
      ensures downLeft == old(downLeft) && downTop == old(downTop)
      ensures dragging ==>
        wrapper.value.left == downLeft + (x - downX) && wrapper.value.top == downTop + (y - downY)
    {
      if !isDown {
        return;
      }
      var dx := x - startX;
      var dy := y - startY;
      wrapper := Some(Moved(wrapper.value, dx, dy));
      startX, startY := x, y;
    }

    /** pointerup on the drag strip. */
    method PointerUp()
      requires Valid() && wrapper.Some?
      modifies this
      ensures Valid()
      ensures !isDown && !dragging
      ensures wrapper == old(wrapper) && hasMask == old(hasMask)
      ensures startX == old(startX) && startY == old(startY)
    {
      isDown := false;
      dragging := false;
    }
  }
}
