/**
 * View state of the A/B variant "A" page (src/app/ab/a/page.tsx).  It shares
 * the hero timer with the main page, but keeps the hero mounted and only
 * hides it in the full view, and features a single work.
 */
module ABTestA {
  import opened Portfolio
  import opened MediaView
  import opened HeroCycle

  /** The one featured work: always rendered as an image, whatever its kind. */
  function FeaturedCells(): (cells: seq<Rendered>)
    ensures |cells| == 1 && cells[0].ImageElement?
    ensures cells[0] == FullGrid()[0]
  {
    [ImageElement(SrcOrPlaceholder(PortfolioImages[0].src), PortfolioImages[0].alt)]
  }

  /** The hero section's classes in the featured view. */
  const HeroBaseClasses: string := "relative h-[400vh] w-full"

  class Page {
    var currentImageIndex: nat
    var showFullPortfolio: bool

    ghost predicate Valid()
      reads this
    {
      currentImageIndex < |HeroImages|
    }

    constructor ()
      ensures Valid() && currentImageIndex == 0 && !showFullPortfolio
    {
      currentImageIndex := 0;
      showFullPortfolio := false;
    }

    method Tick()
      requires Valid()
      modifies this`currentImageIndex
      ensures Valid()
      ensures currentImageIndex == NextIndex(old(currentImageIndex))
    {
      currentImageIndex := (currentImageIndex + 1) % |HeroImages|;
    }

    method NavPortfolioClick()
      requires Valid()
      modifies this`showFullPortfolio
      ensures Valid() && showFullPortfolio
    {
      showFullPortfolio := true;
    }

    method ExploreClick()
      requires Valid()
      modifies this`showFullPortfolio
      ensures Valid() && showFullPortfolio
    {
      showFullPortfolio := true;
    }

    method BackClick()
      requires Valid()
      modifies this`showFullPortfolio
      ensures Valid() && !showFullPortfolio
    {
      showFullPortfolio := false;
    }

    /** The hero section is always mounted; its class gains "hidden" in the full view. */
    function HeroClasses(): (classes: string)
      reads this
      ensures |classes| >= |HeroBaseClasses| && classes[..|HeroBaseClasses|] == HeroBaseClasses
      ensures showFullPortfolio <==> classes[|HeroBaseClasses|..] == " hidden"
      ensures !showFullPortfolio <==> classes == HeroBaseClasses
    {
      if showFullPortfolio then HeroBaseClasses + " hidden" else HeroBaseClasses
    }

    /** The hero keeps cycling even while hidden: its images are always rendered. */
    function HeroShown(): (shown: seq<bool>)
      reads this
      requires Valid()
      ensures |shown| == |HeroImages|
      ensures forall j :: 0 <= j < |shown| ==> (shown[j] <==> j == currentImageIndex)
    {
      HeroVisibility(currentImageIndex)
    }

    /** The carousel and the About section are mounted exactly while the hero is visible. */
    function ShowcaseMounted(): (mounted: bool)
      reads this
      ensures mounted <==> HeroClasses() == HeroBaseClasses
    {
      !showFullPortfolio
    }

    /** The portfolio section: every item in the full view; otherwise the
        single featured work, as an image. */
    function PortfolioCells(): (cells: seq<Rendered>)
      reads this
      ensures showFullPortfolio ==> |cells| == |PortfolioImages|
      ensures showFullPortfolio ==> forall i :: 0 <= i < |cells| ==> cells[i] == RenderItem(PortfolioImages[i])
      ensures !showFullPortfolio ==> |cells| == 1 && cells[0].ImageElement? && cells[0] == FullGrid()[0]
    {
      if showFullPortfolio then FullGrid() else FeaturedCells()
    }

    /** The section heading names the view the cells show. */
    function Heading(): (heading: string)
      reads this
      ensures heading == "Selected Works" <==> |PortfolioCells()| == 1
      ensures heading == "Portfolio" <==> |PortfolioCells()| == |PortfolioImages|
    {
      if showFullPortfolio then "Portfolio" else "Selected Works"
    }
  }

  /** Explore then Back restores the featured view; the hero was never unmounted. */
  method ExploreAndBack(p: Page)
    requires p.Valid() && !p.showFullPortfolio
    modifies p
    ensures p.Valid() && p.PortfolioCells() == old(p.PortfolioCells())
    ensures p.HeroShown() == old(p.HeroShown())
  {
    p.ExploreClick();
    p.BackClick();
  }
}
