/** The photo carousel's navigation state machine. Each click handler, timer
    firing, key press, preference change and effect run of the component is a
    discrete event on an immutable state. Only the number of images matters to
    the logic, so the image list is reduced to its length `n`, passed with
    every event because it is a prop the parent may change at any time. */
module Gallery {

  import opened Wrappers

  /** `currentIndex`. JavaScript yields NaN for `x % 0`, and NaN stays NaN
      under `+ 1` and `%`; the key handler can still fire with no images
      because the component's hooks stay mounted when it renders nothing. */
  datatype Index = At(i: nat) | NaN

  /** The Ken Burns transform: `scale(s) translate(x%, y%)`. */
  datatype Transform = Transform(scale: real, x: int, y: int)

  /** The transform the effect resets to before each new direction. */
  const Neutral := Transform(1.0, 0, 0)

  /** The four pan-and-zoom directions the effect picks from. */
  const Directions: seq<Transform> :=
    [Transform(1.1, 2, 2), Transform(1.1, -2, 2), Transform(1.1, 2, -2), Transform(1.1, -2, -2)]

  /** `Math.floor(Math.random() * directions.length)`: any position of
      `Directions`, chosen by the environment. */
  type Choice = k: nat | k < 4

  /** The component's state. `pendingKenBurns` is the direction held by the
      100 ms timeout the Ken Burns effect schedules, if it has not fired or
      been cleared yet. */
  datatype Gallery = Gallery(
    currentIndex: Index,
    isFullscreen: bool,
    isAnimating: bool,
    prefersReducedMotion: bool,
    kenBurns: Transform,
    pendingKenBurns: Option<Transform>)

  /** The initial `useState` values. */
  const Initial := Gallery(At(0), false, false, false, Neutral, None)

  /** JavaScript's `%`, which truncates toward zero (the sign follows the
      dividend); it agrees with Dafny's `%` on a non-negative dividend. */
  function JsRem(a: int, n: nat): (r: int)
    requires n > 0
    ensures a >= 0 ==> r == a % n
    ensures -(n as int) < r < n
  {
    if a >= 0 then a % n else -((-a) % n)
  }

  /** `(prev + 1) % images.length`: the following slide, wrapping from the
      last to the first. */
  function NextIndex(n: nat, idx: Index): (r: Index)
    ensures n == 0 || idx.NaN? ==> r.NaN?
    ensures n > 0 && idx.At? ==> r.At? && r.i < n
    ensures n > 0 && idx.At? && idx.i < n ==> r.i == (if idx.i == n - 1 then 0 else idx.i + 1)
  {
    if n == 0 || idx.NaN? then NaN else At(JsRem(idx.i + 1, n))
  }

  /** `(prev - 1 + images.length) % images.length`: the preceding slide,
      wrapping from the first to the last. */
  function PrevIndex(n: nat, idx: Index): (r: Index)
    ensures n == 0 || idx.NaN? ==> r.NaN?
    ensures n > 0 && idx.At? ==> r.At? && r.i < n
    ensures n > 0 && idx.At? && idx.i < n ==> r.i == (if idx.i == 0 then n - 1 else idx.i - 1)
  {
    if n == 0 || idx.NaN? then NaN else At(JsRem(idx.i - 1 + n, n))
  }

  /** `goToNext`: ignored while a transition runs; otherwise raises the guard
      and moves to the following slide, touching nothing else. */
  function GoToNext(n: nat, s: Gallery): (r: Gallery)
    ensures s.isAnimating ==> r == s
    ensures !s.isAnimating ==> r.isAnimating && r.currentIndex == NextIndex(n, s.currentIndex)
    ensures r.(currentIndex := s.currentIndex, isAnimating := s.isAnimating) == s
  {
    if s.isAnimating then s else s.(isAnimating := true, currentIndex := NextIndex(n, s.currentIndex))
  }

  /** `goToPrev`: the same guard, moving to the preceding slide. */
  function GoToPrev(n: nat, s: Gallery): (r: Gallery)
    ensures s.isAnimating ==> r == s
    ensures !s.isAnimating ==> r.isAnimating && r.currentIndex == PrevIndex(n, s.currentIndex)
    ensures r.(currentIndex := s.currentIndex, isAnimating := s.isAnimating) == s
  {
    if s.isAnimating then s else s.(isAnimating := true, currentIndex := PrevIndex(n, s.currentIndex))
  }

  /** The 500 ms timeout scheduled by a navigation: lowers the guard. */
  function ReleaseGuard(s: Gallery): (r: Gallery)
    ensures !r.isAnimating
    ensures r.(isAnimating := s.isAnimating) == s
  {
    s.(isAnimating := false)
  }

  /** A dot click, `setCurrentIndex(index)`: a direct jump that neither
      consults nor raises the guard. */
  function SelectDot(s: Gallery, index: nat): (r: Gallery)
    ensures r.currentIndex == At(index)
    ensures r.(currentIndex := s.currentIndex) == s
  {
    s.(currentIndex := At(index))
  }

  /** The maximize button. */
  function OpenFullscreen(s: Gallery): (r: Gallery)
    ensures r.isFullscreen
    ensures r.(isFullscreen := s.isFullscreen) == s
  {
    s.(isFullscreen := true)
  }

  /** The close button of the lightbox, and the Escape key. */
  function CloseFullscreen(s: Gallery): (r: Gallery)
    ensures !r.isFullscreen
    ensures r.(isFullscreen := s.isFullscreen) == s
  {
    s.(isFullscreen := false)
  }

  /** `handleKeyDown`, which is only attached to the window while the
      lightbox is open: arrows navigate, Escape closes, other keys do nothing. */
  function HandleKey(n: nat, s: Gallery, key: string): (r: Gallery)
    ensures !s.isFullscreen ==> r == s
    ensures s.isFullscreen && key == "ArrowLeft" ==> r == GoToPrev(n, s)
    ensures s.isFullscreen && key == "ArrowRight" ==> r == GoToNext(n, s)
    ensures s.isFullscreen && key == "Escape" ==> r == CloseFullscreen(s)
    ensures key != "ArrowLeft" && key != "ArrowRight" && key != "Escape" ==> r == s
  {
    if !s.isFullscreen then s
    else if key == "ArrowLeft" then GoToPrev(n, s)
    else if key == "ArrowRight" then GoToNext(n, s)
    else if key == "Escape" then CloseFullscreen(s)
    else s
  }

  /** The auto-advance interval exists exactly when there is more than one
      image, the lightbox is closed and reduced motion is not requested. */
  predicate AutoAdvanceActive(n: nat, s: Gallery) {
    n > 1 && !s.isFullscreen && !s.prefersReducedMotion
  }

  /** One firing of the 5000 ms interval, which calls `goToNext`; with the
      gate closed no interval exists and nothing happens. */
  function Tick(n: nat, s: Gallery): (r: Gallery)
    ensures !AutoAdvanceActive(n, s) ==> r == s
    ensures AutoAdvanceActive(n, s) ==> r == GoToNext(n, s)
  {
    if AutoAdvanceActive(n, s) then GoToNext(n, s) else s
  }

  /** The reduced-motion media query's initial read and its change events. */
  function MotionPreference(s: Gallery, matches: bool): (r: Gallery)
    ensures r.prefersReducedMotion == matches
    ensures r.(prefersReducedMotion := s.prefersReducedMotion) == s
  {
    s.(prefersReducedMotion := matches)
  }

  /** A run of the Ken Burns effect, after `currentIndex`, the reduced-motion
      flag or the image count changed. The previous run's cleanup clears its
      pending timeout first. With reduced motion or no images the effect stops
      there; otherwise it resets the transform to neutral and schedules the
      chosen direction. */
  function KenBurnsEffect(n: nat, s: Gallery, pick: Choice): (r: Gallery)
    ensures r.pendingKenBurns.None? <==> s.prefersReducedMotion || n == 0
    ensures s.prefersReducedMotion || n == 0 ==> r.kenBurns == s.kenBurns
    ensures !s.prefersReducedMotion && n > 0 ==> r.kenBurns == Neutral && r.pendingKenBurns == Some(Directions[pick])
    ensures r.(kenBurns := s.kenBurns, pendingKenBurns := s.pendingKenBurns) == s
  {
    var cleaned := s.(pendingKenBurns := None);
    if s.prefersReducedMotion || n == 0 then cleaned
    else cleaned.(kenBurns := Neutral, pendingKenBurns := Some(Directions[pick]))
  }

  /** The effect's 100 ms timeout: applies the scheduled direction. */
  function KenBurnsTimeout(s: Gallery): (r: Gallery)
    ensures r.pendingKenBurns.None?
    ensures s.pendingKenBurns.Some? ==> r.kenBurns == s.pendingKenBurns.value
    ensures s.pendingKenBurns.None? ==> r == s
    ensures r.(kenBurns := s.kenBurns, pendingKenBurns := s.pendingKenBurns) == s
  {
    match s.pendingKenBurns
    case None => s
    case Some(t) => s.(kenBurns := t, pendingKenBurns := None)
  }

  /** Everything that can happen to the carousel. */
  datatype Event =
    | NextClicked
    | PrevClicked
    | GuardReleased
    | DotClicked(index: nat)
    | FullscreenOpened
    | FullscreenClosed
    | KeyDown(key: string)
    | IntervalTick
    | PreferenceChanged(matches: bool)
    | KenBurnsRun(pick: Choice)
    | KenBurnsTimerFired

  function Step(n: nat, s: Gallery, e: Event): Gallery {
    match e
    case NextClicked => GoToNext(n, s)
    case PrevClicked => GoToPrev(n, s)
    case GuardReleased => ReleaseGuard(s)
    case DotClicked(index) => SelectDot(s, index)
    case FullscreenOpened => OpenFullscreen(s)
    case FullscreenClosed => CloseFullscreen(s)
    case KeyDown(key) => HandleKey(n, s, key)
    case IntervalTick => Tick(n, s)
    case PreferenceChanged(matches) => MotionPreference(s, matches)
    case KenBurnsRun(pick) => KenBurnsEffect(n, s, pick)
    case KenBurnsTimerFired => KenBurnsTimeout(s)
  }

  /** The events in order, with the image count fixed. */
  function Run(n: nat, s: Gallery, es: seq<Event>): Gallery
    decreases |es|
  {
    if es == [] then s else Run(n, Step(n, s, es[0]), es[1..])
  }

  /** Events the rendered component can deliver: a dot exists only for a
      position of the image list. */
  predicate Producible(n: nat, e: Event) {
    e.DotClicked? ==> e.index < n
  }
}
