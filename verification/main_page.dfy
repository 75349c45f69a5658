/**
 * View state of the main page (src/components/MainPage.tsx): the hero image
 * timer, the scroll hint arrow, and the switch between the featured works and
 * the full portfolio grid.  Timers and DOM events are method calls.
 */
module MainPage {
  import opened Portfolio
  import opened MediaView
  import opened HeroCycle

  /** Positions in the portfolio list of the three featured works. */
  const FeaturedIndices: seq<nat> := [0, 1, 3]

  /** The featured positions exist, are distinct and appear in list order. */
  lemma FeaturedIndicesInRange()
    ensures forall k :: 0 <= k < |FeaturedIndices| ==> FeaturedIndices[k] < |PortfolioImages|
    ensures forall k, l :: 0 <= k < l < |FeaturedIndices| ==> FeaturedIndices[k] < FeaturedIndices[l]
  {
  }

  /** The featured view: the items at positions 0, 1 and 3, rendered like grid cells. */
  function FeaturedCells(): (cells: seq<Rendered>)
    ensures |cells| == |FeaturedIndices|
    ensures forall k :: 0 <= k < |cells| ==> cells[k] == FullGrid()[FeaturedIndices[k]]
  {
    [RenderItem(PortfolioImages[0]), RenderItem(PortfolioImages[1]), RenderItem(PortfolioImages[3])]
  }

  /** Only images are featured on the main page: the video item is left out. */
  lemma FeaturedAreImages()
    ensures forall k :: 0 <= k < |FeaturedCells()| ==> FeaturedCells()[k].ImageElement?
  {
  }

  class Page {
    var currentImageIndex: nat
    var showFullPortfolio: bool
    var showInitialArrow: bool
    var hasScrolled: bool
    /** The `hasScrolled` captured by the pending 4 s timeout's callback: the
        value of the render whose effect armed it. */
    var timerSawScrolled: bool
    /** Whether a 4 s timeout is pending; `setTimeout` fires once. */
    var timerArmed: bool

    /** The index is a hero position, and a timer can only have seen a
        scroll that happened (the flag is never cleared). */
    ghost predicate Valid()
      reads this
    {
      currentImageIndex < |HeroImages| && (timerSawScrolled ==> hasScrolled)
    }

    constructor ()
      ensures Valid()
      ensures currentImageIndex == 0 && !showFullPortfolio && !showInitialArrow && !hasScrolled
      ensures timerArmed && !timerSawScrolled
    {
      currentImageIndex := 0;
      showFullPortfolio := false;
      showInitialArrow := false;
      hasScrolled := false;
      timerSawScrolled := false;
      timerArmed := true;
    }

    /** The 180 ms interval. */
    method Tick()
      requires Valid()
      modifies this`currentImageIndex
      ensures Valid()
      ensures currentImageIndex == NextIndex(old(currentImageIndex))
    {
      currentImageIndex := (currentImageIndex + 1) % |HeroImages|;
    }

    /** The arrow effect, run after a commit in which `hasScrolled` changed:
        the old timeout is cleared and a new one captures the current flag. */
    method ArmArrowTimer()
      requires Valid()
      modifies this`timerSawScrolled, this`timerArmed
      ensures Valid()
      ensures timerArmed && timerSawScrolled == hasScrolled
    {
      timerSawScrolled := hasScrolled;
      timerArmed := true;
    }

    /** The 4 s timeout firing, once per arming.  It tests the flag it
        captured, not the current one: a timeout due between a scroll and the
        effect cleanup still sets the hint.  With no timeout pending nothing
        happens. */
    method ArrowTimerFires()
      requires Valid()
      modifies this`showInitialArrow, this`timerArmed
      ensures Valid() && !timerArmed
      ensures showInitialArrow == (old(showInitialArrow) || (old(timerArmed) && !timerSawScrolled))
    {
      if timerArmed && !timerSawScrolled {
        showInitialArrow := true;
      }
      timerArmed := false;
    }

    /** The window scroll listener. */
    method OnScroll(scrollY: real)
      requires Valid()
      modifies this`hasScrolled, this`showInitialArrow
      ensures Valid()
      ensures scrollY > 10.0 ==> hasScrolled && !showInitialArrow
      ensures scrollY <= 10.0 ==> hasScrolled == old(hasScrolled) && showInitialArrow == old(showInitialArrow)
    {
      if scrollY > 10.0 {
        hasScrolled := true;
        showInitialArrow := false;
      }
    }

    /** The navbar's Portfolio entry (the smooth scroll to the top is left out). */
    method NavPortfolioClick()
      requires Valid()
      modifies this`showFullPortfolio
      ensures Valid() && showFullPortfolio
    {
      showFullPortfolio := true;
    }

    /** "Explore All Projects". */
    method ExploreClick()
      requires Valid()
      modifies this`showFullPortfolio
      ensures Valid() && showFullPortfolio
    {
      showFullPortfolio := true;
    }

    /** "Back to Home". */
    method BackClick()
      requires Valid()
      modifies this`showFullPortfolio
      ensures Valid() && !showFullPortfolio
    {
      showFullPortfolio := false;
    }

    /** The hero section (logo, arrow, images) is unmounted in the full view. */
    predicate HeroMounted()
      reads this
    {
      !showFullPortfolio
    }

    /** The arrow sits inside the hero, behind the render guard
        `showInitialArrow && !hasScrolled`. */
    function ArrowShown(): (shown: bool)
      reads this
      ensures shown <==> HeroMounted() && showInitialArrow && !hasScrolled
      ensures hasScrolled ==> !shown
    {
      HeroMounted() && showInitialArrow && !hasScrolled
    }

    /** Rendered hero images: none while unmounted, otherwise exactly the
        current one is visible. */
    function HeroShown(): (shown: seq<bool>)
      reads this
      requires Valid()
      ensures !HeroMounted() ==> shown == []
      ensures HeroMounted() ==> |shown| == |HeroImages|
      ensures HeroMounted() ==> forall j :: 0 <= j < |shown| ==> (shown[j] <==> j == currentImageIndex)
    {
      if showFullPortfolio then [] else HeroVisibility(currentImageIndex)
    }

    /** The carousel and the About section share the hero's condition. */
    function ShowcaseMounted(): (mounted: bool)
      reads this
      ensures mounted <==> HeroMounted()
    {
      !showFullPortfolio
    }

    /** The portfolio section: every item in the full view; otherwise the
        three featured works, all images, in list order. */
    function PortfolioCells(): (cells: seq<Rendered>)
      reads this
      ensures showFullPortfolio ==> |cells| == |PortfolioImages|
      ensures showFullPortfolio ==> forall i :: 0 <= i < |cells| ==> cells[i] == RenderItem(PortfolioImages[i])
      ensures !showFullPortfolio ==> |cells| == |FeaturedIndices|
      ensures !showFullPortfolio ==> forall k :: 0 <= k < |cells| ==>
        cells[k].ImageElement? && cells[k] == FullGrid()[FeaturedIndices[k]]
    {
      FeaturedAreImages();
      if showFullPortfolio then FullGrid() else FeaturedCells()
    }

    /** The section heading names the view the cells show. */
    function Heading(): (heading: string)
      reads this
      ensures heading == "Selected Works" <==> |PortfolioCells()| == |FeaturedIndices|
      ensures heading == "Portfolio" <==> |PortfolioCells()| == |PortfolioImages|
    {
      if showFullPortfolio then "Portfolio" else "Selected Works"
    }
  }

  /** A timeout due before the effect cleanup fires after the scroll: the
      hint flag ends up set with `hasScrolled` also set, and only the render
      guard keeps the arrow hidden. */
  method StaleTimerAfterScroll(p: Page)
    requires p.Valid() && !p.hasScrolled && p.timerArmed
    modifies p
    ensures p.Valid() && p.hasScrolled && p.showInitialArrow
    ensures !p.ArrowShown()
  {
    p.OnScroll(20.0);
    p.ArrowTimerFires();
  }

  /** Four seconds after the page mounts, with no scroll yet, the arrow
      appears below the logo. */
  method ArrowAppearsAfterDelay() returns (p: Page)
    ensures fresh(p) && p.Valid()
    ensures p.ArrowShown()
  {
    p := new Page();
    p.ArrowTimerFires();
  }

  /** The timeout fires once: a second firing without re-arming changes
      nothing. */
  method TimerFiresOnce(p: Page)
    requires p.Valid()
    modifies p
    ensures p.Valid() && !p.timerArmed
    ensures p.showInitialArrow == (old(p.showInitialArrow) || (old(p.timerArmed) && !p.timerSawScrolled))
  {
    p.ArrowTimerFires();
    ghost var afterFirst := p.showInitialArrow;
    p.ArrowTimerFires();
    assert p.showInitialArrow == afterFirst;
  }

  /** Once the effect has re-armed the timeout after the scroll, its firing
      leaves the hint off. */
  method TimerAfterRearm(p: Page)
    requires p.Valid()
    modifies p
    ensures p.Valid() && p.hasScrolled && !p.showInitialArrow && !p.ArrowShown()
  {
    p.OnScroll(20.0);
    p.ArmArrowTimer();
    p.ArrowTimerFires();
  }

  /** Explore then Back returns to the featured view with the hero mounted. */
  method ExploreAndBack(p: Page)
    requires p.Valid() && !p.showFullPortfolio
    modifies p
    ensures p.Valid() && p.HeroMounted()
    ensures p.PortfolioCells() == old(p.PortfolioCells())
  {
    p.ExploreClick();
    assert !p.HeroMounted() && p.PortfolioCells() == FullGrid();
    p.BackClick();
  }
}
