/** The messages the timer panel posts to the page that embeds it
    (timer.js: toggleCompactMode and the close button) and that the page's
    window listener reads (content.js). */
module Messages {
  datatype Message =
    | CloseOverlay         // the bare string "close-overlay"
    | Resize(height: int)  // the object { type: "resize", height }
    | Unrecognized         // any other data posted to the page's window

  /** Container heights, in pixels, of the normal and the compact layout. */
  const NormalHeight: int := 260
  const CompactHeight: int := 44
}
