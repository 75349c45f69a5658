/**
 * The navigation bar (src/components/layout/navbar.tsx): scroll-derived
 * `isScrolled`/`isVisible` state, the mobile menu flag, the per-variant class
 * selection and the About scroll target.
 */
module Navbar {
  import opened Options

  /** The `variant` prop.  The type allows four names; any other string that
      reaches the component at run time takes the fallback branch, so
      `Unknown` carries a name other than those four (see ParseVariant). */
  datatype Variant = Default | Sticky | Smart | Minimal | Unknown(name: string)

  /** The variant the prop string selects in the class switch. */
  function ParseVariant(name: string): (v: Variant)
    ensures v.Unknown? <==> name != "default" && name != "sticky" && name != "smart" && name != "minimal"
    ensures v.Unknown? ==> v.name == name
    ensures name == "default" ==> v == Default
    ensures name == "sticky" ==> v == Sticky
    ensures name == "smart" ==> v == Smart
    ensures name == "minimal" ==> v == Minimal
  {
    if name == "default" then Default
    else if name == "sticky" then Sticky
    else if name == "smart" then Smart
    else if name == "minimal" then Minimal
    else Unknown(name)
  }

  const ScrolledThreshold: real := 50.0
  const HideThreshold: real := 100.0

  /** Smart variant: hidden exactly when moving down and past 100 px. */
  predicate SmartVisible(scrollY: real, lastScrollY: real) {
    !(scrollY > lastScrollY && scrollY > HideThreshold)
  }

  class Bar {
    const variant: Variant
    var isOpen: bool
    var isScrolled: bool
    var isVisible: bool
    var lastScrollY: real

    /** Only the smart variant ever touches `isVisible` and `lastScrollY`. */
    ghost predicate Valid()
      reads this
    {
      !variant.Smart? ==> isVisible && lastScrollY == 0.0
    }

    constructor (variant: Variant)
      ensures Valid() && this.variant == variant
      ensures !isOpen && !isScrolled && isVisible && lastScrollY == 0.0
    {
      this.variant := variant;
      isOpen := false;
      isScrolled := false;
      isVisible := true;
      lastScrollY := 0.0;
    }

    /** `handleScroll`, with `window.scrollY` passed in. */
    method OnScroll(scrollY: real)
      requires Valid()
      modifies this`isScrolled, this`isVisible, this`lastScrollY
      ensures Valid()
      ensures isScrolled == (scrollY > ScrolledThreshold)
      ensures variant.Smart? ==> isVisible == SmartVisible(scrollY, old(lastScrollY)) && lastScrollY == scrollY
      ensures !variant.Smart? ==> isVisible && lastScrollY == old(lastScrollY)
    {
      if variant == Default {
        isScrolled := scrollY > ScrolledThreshold;
      } else {
        isScrolled := scrollY > ScrolledThreshold;
      }
      if variant == Smart {
        if scrollY > lastScrollY && scrollY > HideThreshold {
          isVisible := false;
        } else {
          isVisible := true;
        }
        lastScrollY := scrollY;
      }
    }

    /** The hamburger button. */
    method ToggleMenu()
      requires Valid()
      modifies this`isOpen
      ensures Valid() && isOpen == !old(isOpen)
    {
      isOpen := !isOpen;
    }

    /** The logo link and the mobile menu's Portfolio, About, Contact and Instagram entries. */
    method CloseMenu()
      requires Valid()
      modifies this`isOpen
      ensures Valid() && !isOpen
    {
      isOpen := false;
    }

    /** A click on the open mobile menu: it closes only when the click hit the
        menu's background itself rather than one of its links. */
    method MenuClick(targetIsBackground: bool)
      requires Valid()
      modifies this`isOpen
      ensures Valid()
      ensures isOpen == (old(isOpen) && !targetIsBackground)
    {
      if targetIsBackground {
        isOpen := false;
      }
    }

    /** `navClasses`, built by appending the variant's classes to the base. */
    method NavClasses() returns (classes: string)
      ensures classes == BaseClasses + VariantClasses(variant, isScrolled || isOpen, isVisible)
    {
      classes := BaseClasses;
      var active := isScrolled || isOpen;
      if variant.Default? {
        classes := classes + DefaultClasses(active);
      } else if variant.Sticky? {
        classes := classes + StickyClasses(active);
      } else if variant.Smart? {
        classes := classes + (SmartPosition(isVisible) + " " + Background(active));
      } else if variant.Minimal? {
        classes := classes + MinimalClasses;
      } else {
        classes := classes + StickyClasses(active);
      }
    }
  }

  const BaseClasses: string := "fixed left-0 right-0 z-50 transition-all duration-500 "
  const DefaultShown: string := "bg-white/90 shadow-sm backdrop-blur-sm translate-y-0 opacity-100"
  const DefaultHidden: string := "bg-transparent -translate-y-full opacity-0 pointer-events-none"
  const Solid: string := "bg-white/90 shadow-sm backdrop-blur-sm py-0"
  const Transparent: string := "bg-transparent py-4"
  const SmartShown: string := "top-0 translate-y-0"
  const SmartHidden: string := "-top-20 -translate-y-full"
  const MinimalClasses: string := "top-0 h-14 bg-white/95 backdrop-blur-md shadow-sm flex items-center"

  function DefaultClasses(active: bool): string {
    "top-0 " + (if active then DefaultShown else DefaultHidden)
  }

  function Background(active: bool): string {
    if active then Solid else Transparent
  }

  function StickyClasses(active: bool): string {
    "top-0 " + Background(active)
  }

  function SmartPosition(visible: bool): string {
    if visible then SmartShown else SmartHidden
  }

  /** The variant branch of navClasses; `active` is `isScrolled || isOpen`. */
  function VariantClasses(variant: Variant, active: bool, visible: bool): string {
    match variant
    case Default => DefaultClasses(active)
    case Sticky => StickyClasses(active)
    case Smart => SmartPosition(visible) + " " + Background(active)
    case Minimal => MinimalClasses
    case Unknown(_) => StickyClasses(active)
  }

  /** Default variant: the bar is shown exactly when scrolled or the menu is open. */
  lemma DefaultHiddenUnlessActive(active: bool, visible: bool)
    ensures VariantClasses(Default, active, visible) == "top-0 " + DefaultShown <==> active
    ensures VariantClasses(Default, active, visible) == "top-0 " + DefaultHidden <==> !active
  {
    assert |DefaultShown| != |DefaultHidden|;
    assert ("top-0 " + DefaultShown)[6..] == DefaultShown;
    assert ("top-0 " + DefaultHidden)[6..] == DefaultHidden;
  }

  /** A prop string other than the four names gets the sticky classes. */
  lemma UnknownFallsBackToSticky(name: string, active: bool, visible: bool)
    requires name != "default" && name != "sticky" && name != "smart" && name != "minimal"
    ensures VariantClasses(ParseVariant(name), active, visible) == VariantClasses(Sticky, active, visible)
  {
  }

  /** Only the smart variant depends on `isVisible`; minimal depends on nothing. */
  lemma VisibilityMattersOnlyWhenSmart(variant: Variant, active: bool)
    ensures !variant.Smart? ==> VariantClasses(variant, active, true) == VariantClasses(variant, active, false)
    ensures variant.Smart? ==> VariantClasses(variant, active, true) != VariantClasses(variant, active, false)
    ensures variant.Minimal? ==> VariantClasses(variant, active, true) == VariantClasses(variant, !active, true)
  {
    if variant.Smart? {
      assert VariantClasses(variant, active, true)[0] != VariantClasses(variant, active, false)[0];
    }
  }

  const CompactInner: string := "h-12 md:h-14"
  const TallInner: string := "h-16 md:h-20"

  /** `innerContainerClasses`: compact for minimal, sticky and smart, tall otherwise. */
  function InnerContainerClasses(variant: Variant): (classes: string)
    ensures classes == CompactInner <==> variant.Minimal? || variant.Sticky? || variant.Smart?
    ensures classes == TallInner <==> variant.Default? || variant.Unknown?
  {
    if variant == Minimal || variant == Sticky || variant == Smart then CompactInner else TallInner
  }

  /** A section's bounding rectangle, relative to the viewport.  A section
      hidden with `display: none` reports a zero rectangle. */
  datatype Rect = Rect(top: real, height: real)

  /** The About entry: `section` is what the query
      `section.relative.h-[400vh]` returns, the FIRST such section in document
      order (see AboutQuery).  Whenever the hero section is in the page, it
      is the hero, which precedes the horizontal carousel.  The target scrolls
      so that the bottom of that section meets the bottom of the viewport:
      after the scroll, the section's top in the viewport is its document
      position minus the target.  None when no such section is in the page
      (nothing is scrolled). */
  function AboutScrollTarget(scrollY: real, section: Option<Rect>, innerHeight: real): (target: Option<real>)
    ensures section.None? <==> target.None?
    ensures target.Some? ==>
      (scrollY + section.value.top) - target.value + section.value.height == innerHeight
  {
    match section
    case None => None
    case Some(rect) => Some(scrollY + rect.top + rect.height - innerHeight)
  }

  /** The sections of a page in document order, as far as the About query is
      concerned.  The hero and the horizontal carousel both carry the classes
      `relative h-[400vh]`; no other section does. */
  datatype PageSection = HeroSection(rect: Rect) | CarouselSection(rect: Rect) | OtherSection(rect: Rect)

  predicate IsTall(s: PageSection)
  {
    s.HeroSection? || s.CarouselSection?
  }

  /** The position of the first section `querySelector` matches. */
  function FirstTallIndex(doc: seq<PageSection>): (k: Option<nat>)
    ensures k.None? <==> forall i :: 0 <= i < |doc| ==> !IsTall(doc[i])
    ensures k.Some? ==> k.value < |doc| && IsTall(doc[k.value])
    ensures k.Some? ==> forall j :: 0 <= j < k.value ==> !IsTall(doc[j])
  {
    if |doc| == 0 then None
    else if IsTall(doc[0]) then Some(0)
    else
      match FirstTallIndex(doc[1..])
      case None => None
      case Some(k) => assert forall j :: 1 <= j < k + 1 ==> doc[j] == doc[1..][j - 1]; Some(k + 1)
  }

  /** `document.querySelector('section.relative.h-[400vh]')` followed by
      `getBoundingClientRect()`, as the About handlers write it. */
  function AboutQuery(doc: seq<PageSection>): (section: Option<Rect>)
    ensures section.None? <==> forall i :: 0 <= i < |doc| ==> !IsTall(doc[i])
  {
    match FirstTallIndex(doc)
    case None => None
    case Some(k) => Some(doc[k].rect)
  }

  /** A hero that precedes every other tall section is what the query
      returns, whatever follows it. */
  lemma AboutQueryFindsHero(doc: seq<PageSection>, h: nat)
    requires h < |doc| && doc[h].HeroSection?
    requires forall j :: 0 <= j < h ==> !IsTall(doc[j])
    ensures AboutQuery(doc) == Some(doc[h].rect)
  {
    assert IsTall(doc[h]);
  }

  /** The corrected query: the horizontal carousel's own section, the one
      the handlers' comment ("the end of horizontal carousel where About is")
      names. */
  function CarouselQuery(doc: seq<PageSection>): (section: Option<Rect>)
    ensures section.None? <==> forall i :: 0 <= i < |doc| ==> !doc[i].CarouselSection?
    ensures section.Some? ==> exists i :: 0 <= i < |doc| && doc[i] == CarouselSection(section.value)
  {
    if |doc| == 0 then None
    else if doc[0].CarouselSection? then Some(doc[0].rect)
    else
      var rest := CarouselQuery(doc[1..]);
      assert forall i :: 1 <= i < |doc| ==> doc[i] == doc[1..][i - 1];
      rest
  }

  /** The About target as intended: the bottom of the carousel section meets
      the bottom of the viewport, whatever sections precede it. */
  function IntendedAboutScrollTarget(scrollY: real, doc: seq<PageSection>, innerHeight: real): (target: Option<real>)
    ensures target.None? <==> forall i :: 0 <= i < |doc| ==> !doc[i].CarouselSection?
    ensures target.Some? ==>
      exists i :: 0 <= i < |doc| && doc[i].CarouselSection? &&
        (scrollY + doc[i].rect.top) - target.value + doc[i].rect.height == innerHeight
  {
    AboutScrollTarget(scrollY, CarouselQuery(doc), innerHeight)
  }

  /** The page at the top, 1000 px viewport: the hero spans 0..4000 and the
      carousel 4000..8000 of the document.  The About target as written is
      3000, which shows the last screen of the hero and leaves the carousel's
      top at the viewport's bottom; the intended target is 7000, the last
      screen of the carousel. */
  lemma AboutStopsAtHeroNotCarousel()
    ensures AboutScrollTarget(0.0, AboutQuery([HeroSection(Rect(0.0, 4000.0)), CarouselSection(Rect(4000.0, 4000.0))]), 1000.0)
         == Some(3000.0)
    ensures IntendedAboutScrollTarget(0.0, [HeroSection(Rect(0.0, 4000.0)), CarouselSection(Rect(4000.0, 4000.0))], 1000.0)
         == Some(7000.0)
  {
    var doc := [HeroSection(Rect(0.0, 4000.0)), CarouselSection(Rect(4000.0, 4000.0))];
    AboutQueryFindsHero(doc, 0);
    assert doc[1..] == [CarouselSection(Rect(4000.0, 4000.0))];
  }

  /** The target depends on the section's position in the document, not on
      where the page currently is. */
  lemma AboutTargetIndependentOfScroll(y1: real, top1: real, y2: real, top2: real, height: real, innerHeight: real)
    requires y1 + top1 == y2 + top2
    ensures AboutScrollTarget(y1, Some(Rect(top1, height)), innerHeight)
         == AboutScrollTarget(y2, Some(Rect(top2, height)), innerHeight)
  {
  }
}
