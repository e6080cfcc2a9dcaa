/** Swipe detection: the options with their defaults, the classification of
    a finished touch into at most one swipe, and when a touch move stops
    the page from scrolling. Coordinates and times are real numbers; the
    clock readings and touch positions are parameters. */
module Gestures {
  import opened Wrappers

  /** Which of the four callbacks were given. */
  datatype Handlers = Handlers(left: bool, right: bool, up: bool, down: bool)

  /** The options object: a missing entry is `None`. */
  datatype Options = Options(threshold: Option<real>, restraint: Option<real>, allowedTime: Option<real>,
                             handlers: Handlers)

  datatype Config = Config(threshold: real, restraint: real, allowedTime: real, handlers: Handlers)

  const DefaultThreshold: real := 50.0
  const DefaultRestraint: real := 100.0
  const DefaultAllowedTime: real := 300.0

  /** `value || fallback` for a number option: a missing or zero value
      takes the fallback. */
  function OrDefault(value: Option<real>, fallback: real): (r: real)
    ensures value.None? || value == Some(0.0) ==> r == fallback
    ensures value.Some? && value.value != 0.0 ==> r == value.value
  {
    match value
    case None => fallback
    case Some(v) => if v == 0.0 then fallback else v
  }

  /** The constructor's reading of the options. */
  function MakeConfig(o: Options): (c: Config)
    ensures c.threshold == OrDefault(o.threshold, DefaultThreshold)
    ensures c.restraint == OrDefault(o.restraint, DefaultRestraint)
    ensures c.allowedTime == OrDefault(o.allowedTime, DefaultAllowedTime)
    ensures c.handlers == o.handlers
  {
    Config(OrDefault(o.threshold, DefaultThreshold), OrDefault(o.restraint, DefaultRestraint),
           OrDefault(o.allowedTime, DefaultAllowedTime), o.handlers)
  }

  function Abs(x: real): (r: real)
    ensures r >= 0.0 && (r == x || r == -x)
  {
    if x < 0.0 then -x else x
  }

  datatype Swipe = NoSwipe | SwipeLeft | SwipeRight | SwipeUp | SwipeDown

  /** The horizontal test: far enough sideways, not too far up or down. */
  predicate Horizontal(c: Config, dx: real, dy: real) {
    Abs(dx) >= c.threshold && Abs(dy) <= c.restraint
  }

  /** The vertical test, tried only when the horizontal one fails. */
  predicate Vertical(c: Config, dx: real, dy: real) {
    Abs(dy) >= c.threshold && Abs(dx) <= c.restraint
  }

  /** `handleTouchEnd`: the callback fired for a touch that moved by
      `(dx, dy)` in `elapsed` milliseconds, if any. */
  function Classify(c: Config, dx: real, dy: real, elapsed: real): (r: Swipe)
    ensures elapsed > c.allowedTime ==> r == NoSwipe
    ensures r == SwipeLeft <==> elapsed <= c.allowedTime && Horizontal(c, dx, dy) && dx < 0.0 && c.handlers.left
    ensures r == SwipeRight <==> elapsed <= c.allowedTime && Horizontal(c, dx, dy) && dx > 0.0 && c.handlers.right
    ensures r == SwipeUp <==>
      elapsed <= c.allowedTime && !Horizontal(c, dx, dy) && Vertical(c, dx, dy) && dy < 0.0 && c.handlers.up
    ensures r == SwipeDown <==>
      elapsed <= c.allowedTime && !Horizontal(c, dx, dy) && Vertical(c, dx, dy) && dy > 0.0 && c.handlers.down
  {
    if elapsed > c.allowedTime then NoSwipe
    else if Horizontal(c, dx, dy) then
      if dx < 0.0 && c.handlers.left then SwipeLeft
      else if dx > 0.0 && c.handlers.right then SwipeRight
      else NoSwipe
    else if Vertical(c, dx, dy) then
      if dy < 0.0 && c.handlers.up then SwipeUp
      else if dy > 0.0 && c.handlers.down then SwipeDown
      else NoSwipe
    else NoSwipe
  }

  /** The same detector with left and right exchanged. */
  function MirrorX(c: Config): Config {
    c.(handlers := c.handlers.(left := c.handlers.right, right := c.handlers.left))
  }

  function Mirrored(s: Swipe): Swipe {
    match s
    case SwipeLeft => SwipeRight
    case SwipeRight => SwipeLeft
    case _ => s
  }

  /** Reflecting a gesture left to right, with the handlers exchanged,
      reflects the swipe that fires. */
  lemma ClassifyMirror(c: Config, dx: real, dy: real, elapsed: real)
    ensures Classify(MirrorX(c), -dx, dy, elapsed) == Mirrored(Classify(c, dx, dy, elapsed))
  {
    assert Abs(-dx) == Abs(dx);
    assert Horizontal(MirrorX(c), -dx, dy) == Horizontal(c, dx, dy);
    assert Vertical(MirrorX(c), -dx, dy) == Vertical(c, dx, dy);
  }

  /** When a gesture passes both tests, only a horizontal swipe can fire,
      even when no horizontal handler is given. */
  lemma HorizontalWins(c: Config, dx: real, dy: real, elapsed: real)
    requires Horizontal(c, dx, dy) && Vertical(c, dx, dy)
    ensures Classify(c, dx, dy, elapsed) in {NoSwipe, SwipeLeft, SwipeRight}
  {
  }

  /** `handleTouchMove`: scrolling is prevented only when a vertical
      handler exists and the finger moved more than 10 pixels vertically. */
  function PreventsScroll(c: Config, dy: real): (r: bool)
    ensures r ==> c.handlers.up || c.handlers.down
    ensures r ==> dy > 10.0 || dy < -10.0
  {
    (c.handlers.up || c.handlers.down) && Abs(dy) > 10.0
  }

  /** The detector of a history item: threshold 100, left and right. */
  const HistoryItemSwipe: Config :=
    MakeConfig(Options(Some(100.0), None, None, Handlers(true, true, false, false)))

  /** The detector closing a dialog: threshold 80, restraint 50, down only. */
  const DialogSwipe: Config :=
    MakeConfig(Options(Some(80.0), Some(50.0), None, Handlers(false, false, false, true)))

  /** A dialog closes exactly on a downward move of at least 80 that stays
      within 50 sideways and lasts at most 300 ms. */
  lemma DialogCloses(dx: real, dy: real, elapsed: real)
    ensures Classify(DialogSwipe, dx, dy, elapsed) != NoSwipe
        <==> elapsed <= 300.0 && dy >= 80.0 && Abs(dx) <= 50.0
  {
    var c := DialogSwipe;
    assert c == Config(80.0, 50.0, 300.0, Handlers(false, false, false, true));
    if elapsed <= 300.0 && dy >= 80.0 && Abs(dx) <= 50.0 {
      assert !Horizontal(c, dx, dy);
      assert Classify(c, dx, dy, elapsed) == SwipeDown;
    }
  }

  /** A dialog, which has a downward handler, stops the page from
      scrolling exactly when the finger moved more than 10 pixels up or
      down. */
  lemma DialogPreventsScroll(dy: real)
    ensures PreventsScroll(DialogSwipe, dy) <==> dy > 10.0 || dy < -10.0
  {
    assert DialogSwipe.handlers.down;
  }

  /** A history item swipes left exactly on a move of at least 100 to the
      left within 100 vertically and 300 ms, and it never stops the page
      from scrolling. */
  lemma HistoryItemSwipesLeft(dx: real, dy: real, elapsed: real)
    ensures Classify(HistoryItemSwipe, dx, dy, elapsed) == SwipeLeft
        <==> elapsed <= 300.0 && dx <= -100.0 && Abs(dy) <= 100.0
    ensures !PreventsScroll(HistoryItemSwipe, dy)
  {
    assert HistoryItemSwipe == Config(100.0, 100.0, 300.0, Handlers(true, true, false, false));
  }
}
