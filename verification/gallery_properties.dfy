/** Properties of the carousel state machine: wrap-around, the transition
    guard, the auto-advance gate, the lightbox keys and the Ken Burns effect. */
module GalleryProperties {

  import opened Wrappers
  import opened Gallery

  /** Running two event sequences one after the other is running their
      concatenation. */
  lemma {:induction false} RunAppend(n: nat, s: Gallery, a: seq<Event>, b: seq<Event>)
    ensures Run(n, s, a + b) == Run(n, Run(n, s, a), b)
    decreases |a|
  {
    if a == [] {
      assert a + b == b;
    } else {
      assert (a + b)[0] == a[0];
      assert (a + b)[1..] == a[1..] + b;
      RunAppend(n, Step(n, s, a[0]), a[1..], b);
    }
  }

  /** `k` rounds of a next click followed by the release of its guard. */
  function Cycle(k: nat): (es: seq<Event>)
    ensures |es| == 2 * k
  {
    if k == 0 then [] else Cycle(k - 1) + [NextClicked, GuardReleased]
  }

  /** Rounds compose: `a + b` rounds are `a` rounds then `b` rounds. */
  lemma {:induction false} CycleAppend(a: nat, b: nat)
    ensures Cycle(a + b) == Cycle(a) + Cycle(b)
    decreases b
  {
    if b > 0 {
      CycleAppend(a, b - 1);
      assert Cycle(a + b) == Cycle(a + b - 1) + [NextClicked, GuardReleased];
    }
  }

  /** Two events in a row. */
  lemma RunPair(n: nat, s: Gallery, a: Event, b: Event)
    ensures Run(n, s, [a, b]) == Step(n, Step(n, s, a), b)
  {
    var s1 := Step(n, s, a);
    assert [a, b][1..] == [b];
    assert Run(n, s, [a, b]) == Run(n, s1, [b]);
    assert [b][1..] == [];
    assert Run(n, s1, [b]) == Run(n, Step(n, s1, b), []);
  }

  /** Below the last slide, each round moves exactly one slide forward and
      leaves every other field as it was. */
  lemma {:induction false} CycleClimbs(n: nat, s: Gallery, k: nat)
    requires s.currentIndex.At? && s.currentIndex.i + k < n && !s.isAnimating
    ensures Run(n, s, Cycle(k)) == s.(currentIndex := At(s.currentIndex.i + k))
  {
    if k > 0 {
      CycleClimbs(n, s, k - 1);
      RunAppend(n, s, Cycle(k - 1), [NextClicked, GuardReleased]);
      var m := Run(n, s, Cycle(k - 1));
      RunPair(n, m, NextClicked, GuardReleased);
    }
  }

  /** From slide `i`, `n - i` rounds climb to the last slide and wrap to the
      first. */
  lemma CycleWraps(n: nat, s: Gallery)
    requires n > 0 && s.currentIndex.At? && s.currentIndex.i < n && !s.isAnimating
    ensures Run(n, s, Cycle(n - s.currentIndex.i)) == s.(currentIndex := At(0))
  {
    var k := n - s.currentIndex.i - 1;
    var last := s.(currentIndex := At(n - 1));
    CycleClimbs(n, s, k);
    assert Cycle(k + 1) == Cycle(k) + [NextClicked, GuardReleased];
    RunAppend(n, s, Cycle(k), [NextClicked, GuardReleased]);
    RunPair(n, last, NextClicked, GuardReleased);
  }

  /** Cyclic closure: `n` rounds of next on `n` images come back to the very
      same state. */
  lemma CyclicClosure(n: nat, s: Gallery)
    requires n > 0 && s.currentIndex.At? && s.currentIndex.i < n && !s.isAnimating
    ensures Run(n, s, Cycle(n)) == s
  {
    var i := s.currentIndex.i;
    var first := s.(currentIndex := At(0));
    var a := Cycle(n - i);
    var b := Cycle(i);
    CycleWraps(n, s);
    assert Run(n, s, a) == first;
    CycleClimbs(n, first, i);
    assert first.(currentIndex := At(0 + i)) == s;
    assert Run(n, first, b) == s;
    CycleAppend(n - i, i);
    assert Cycle(n) == a + b;
    RunAppend(n, s, a, b);
  }

  /** Next and prev undo each other once the guard has been released. */
  lemma NextPrevInverse(n: nat, s: Gallery)
    requires n > 0 && s.currentIndex.At? && s.currentIndex.i < n && !s.isAnimating
    ensures Run(n, s, [NextClicked, GuardReleased, PrevClicked, GuardReleased]) == s
    ensures Run(n, s, [PrevClicked, GuardReleased, NextClicked, GuardReleased]) == s
  {
  }

  /** While a transition runs, the arrows, the arrow keys and the interval
      change nothing; a second click right after a first one is therefore
      ignored. */
  lemma GuardBlocksNavigation(n: nat, s: Gallery, key: string)
    requires s.isAnimating
    ensures Step(n, s, NextClicked) == s
    ensures Step(n, s, PrevClicked) == s
    ensures Step(n, s, IntervalTick) == s
    ensures key == "ArrowLeft" || key == "ArrowRight" ==> Step(n, s, KeyDown(key)) == s
  {
  }

  /** A navigation raises the guard, so repeating it before the release does
      nothing more. */
  lemma SecondClickIgnored(n: nat, s: Gallery, e: Event)
    requires e == NextClicked || e == PrevClicked
    ensures Step(n, s, e).isAnimating
    ensures Step(n, Step(n, s, e), e) == Step(n, s, e)
  {
  }

  /** A dot click jumps even in the middle of a transition, where the arrows
      are ignored, and leaves the guard as it was. */
  lemma DotClickBypassesGuard(n: nat, s: Gallery, k: nat)
    requires s.isAnimating
    ensures Step(n, s, DotClicked(k)).currentIndex == At(k)
    ensures Step(n, s, DotClicked(k)).isAnimating
    ensures Step(n, s, NextClicked).currentIndex == s.currentIndex
  {
  }

  /** With one image a navigation keeps the slide yet still raises the guard;
      the component has no "fewer than two images" check in its handlers. */
  lemma SingleImageNavigation(s: Gallery)
    requires s.currentIndex == At(0) && !s.isAnimating
    ensures Step(1, s, NextClicked) == s.(isAnimating := true)
    ensures Step(1, s, PrevClicked) == s.(isAnimating := true)
  {
  }

  /** With no images, an arrow key in a still-open lightbox makes the index
      NaN, as `x % 0` does in JavaScript. */
  lemma EmptyGalleryKeyGivesNaN(s: Gallery)
    requires s.isFullscreen && !s.isAnimating
    ensures Step(0, s, KeyDown("ArrowRight")).currentIndex == NaN
    ensures Step(0, s, KeyDown("ArrowLeft")).currentIndex == NaN
  {
  }

  /** `k` firings of the auto-advance interval. */
  function Ticks(k: nat): (es: seq<Event>)
    ensures |es| == k
  {
    if k == 0 then [] else [IntervalTick] + Ticks(k - 1)
  }

  /** With the gate closed (one image or fewer, lightbox open, or reduced
      motion) the interval never moves the carousel; with it open a firing is
      a next click. */
  lemma {:induction false} AutoAdvanceGate(n: nat, s: Gallery, k: nat)
    ensures !AutoAdvanceActive(n, s) ==> Run(n, s, Ticks(k)) == s
    ensures s.prefersReducedMotion || s.isFullscreen || n <= 1 ==> Run(n, s, Ticks(k)) == s
    ensures AutoAdvanceActive(n, s) ==> Step(n, s, IntervalTick) == Step(n, s, NextClicked)
  {
    if k > 0 {
      AutoAdvanceGate(n, s, k - 1);
      assert Ticks(k)[0] == IntervalTick && Ticks(k)[1..] == Ticks(k - 1);
    }
  }

  /** In the lightbox the arrow keys act exactly as the arrow buttons and
      Escape as the close button, which keeps the index; other keys do
      nothing. */
  lemma FullscreenKeysMatchControls(n: nat, s: Gallery, key: string)
    requires s.isFullscreen
    ensures Step(n, s, KeyDown("ArrowRight")) == Step(n, s, NextClicked)
    ensures Step(n, s, KeyDown("ArrowLeft")) == Step(n, s, PrevClicked)
    ensures Step(n, s, KeyDown("Escape")) == Step(n, s, FullscreenClosed)
    ensures !Step(n, s, KeyDown("Escape")).isFullscreen
    ensures Step(n, s, KeyDown("Escape")).currentIndex == s.currentIndex
    ensures key != "ArrowLeft" && key != "ArrowRight" && key != "Escape" ==> Step(n, s, KeyDown(key)) == s
  {
  }

  /** Outside the lightbox no key listener is attached. */
  lemma KeysIgnoredOutsideFullscreen(n: nat, s: Gallery, key: string)
    requires !s.isFullscreen
    ensures Step(n, s, KeyDown(key)) == s
  {
  }

  /** Opening the lightbox and closing it again, by button or by Escape,
      restores the state; opening alone keeps the slide. */
  lemma LightboxRoundTrip(n: nat, s: Gallery)
    requires !s.isFullscreen
    ensures Step(n, s, FullscreenOpened).currentIndex == s.currentIndex
    ensures Run(n, s, [FullscreenOpened, FullscreenClosed]) == s
    ensures Run(n, s, [FullscreenOpened, KeyDown("Escape")]) == s
  {
  }

  /** The palette is exactly the four diagonal moves at zoom 1.1, with no
      repetition. */
  lemma DirectionsAreTheFourDiagonals()
    ensures forall t :: t in Directions <==> t.scale == 1.1 && (t.x == 2 || t.x == -2) && (t.y == 2 || t.y == -2)
    ensures forall p: Choice, q: Choice :: p != q ==> Directions[p] != Directions[q]
  {
  }

  /** With motion allowed and images present, an effect run shows the neutral
      transform and its timeout then applies the chosen diagonal. */
  lemma KenBurnsResetThenPick(n: nat, s: Gallery, pick: Choice)
    requires !s.prefersReducedMotion && n > 0
    ensures Step(n, s, KenBurnsRun(pick)).kenBurns == Neutral
    ensures var t := Run(n, s, [KenBurnsRun(pick), KenBurnsTimerFired]).kenBurns;
            t == Directions[pick] && t.scale == 1.1 && (t.x == 2 || t.x == -2) && (t.y == 2 || t.y == -2)
    ensures Run(n, s, [KenBurnsRun(pick), KenBurnsTimerFired]).currentIndex == s.currentIndex
  {
    DirectionsAreTheFourDiagonals();
    RunPair(n, s, KenBurnsRun(pick), KenBurnsTimerFired);
  }

  /** Once reduced motion is requested (and no direction is pending), the
      transform never changes again until the preference is withdrawn,
      whatever else happens. */
  lemma {:induction false} ReducedMotionFreezesKenBurns(n: nat, s: Gallery, es: seq<Event>)
    requires s.prefersReducedMotion && s.pendingKenBurns.None?
    requires forall j :: 0 <= j < |es| ==> es[j] != PreferenceChanged(false)
    ensures Run(n, s, es).kenBurns == s.kenBurns
    ensures Run(n, s, es).prefersReducedMotion
    ensures Run(n, s, es).pendingKenBurns.None?
    decreases |es|
  {
    if es != [] {
      var next := Step(n, s, es[0]);
      assert next.kenBurns == s.kenBurns && next.prefersReducedMotion && next.pendingKenBurns.None?;
      assert forall j :: 0 <= j < |es[1..]| ==> es[1..][j] == es[j + 1];
      ReducedMotionFreezesKenBurns(n, next, es[1..]);
    }
  }

  /** The component starts on the first slide, unguarded, outside the
      lightbox, with a neutral transform; on a non-empty carousel it then stays
      on an existing slide under every event it can deliver. */
  lemma InitialStaysInRange(n: nat, es: seq<Event>)
    requires n > 0
    requires forall j :: 0 <= j < |es| ==> Producible(n, es[j])
    ensures Initial.currentIndex == At(0) && !Initial.isAnimating && !Initial.isFullscreen
    ensures Initial.kenBurns == Neutral && Initial.pendingKenBurns.None?
    ensures Run(n, Initial, es).currentIndex.At? && Run(n, Initial, es).currentIndex.i < n
  {
    RunKeepsIndexInRange(n, Initial, es);
  }

  /** On a non-empty carousel every event the component can deliver keeps
      the index on an existing slide. */
  lemma {:induction false} RunKeepsIndexInRange(n: nat, s: Gallery, es: seq<Event>)
    requires n > 0 && s.currentIndex.At? && s.currentIndex.i < n
    requires forall j :: 0 <= j < |es| ==> Producible(n, es[j])
    ensures Run(n, s, es).currentIndex.At? && Run(n, s, es).currentIndex.i < n
    decreases |es|
  {
    if es != [] {
      var next := Step(n, s, es[0]);
      assert Producible(n, es[0]);
      assert next.currentIndex.At? && next.currentIndex.i < n;
      assert forall j :: 0 <= j < |es[1..]| ==> es[1..][j] == es[j + 1];
      RunKeepsIndexInRange(n, next, es[1..]);
    }
  }
}
