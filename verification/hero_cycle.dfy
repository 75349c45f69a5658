/**
 * The hero image stack shared by the main page and its A/B variant
 * (src/components/MainPage.tsx, src/app/ab/a/page.tsx): a timer advances the
 * index through seven images, exactly one of which is shown, with a caption
 * chosen by the index modulo four.
 */
module HeroCycle {
  import opened MediaView

  const HeroImages: seq<string> := [
    "/images/portfolio/cover-vogue.jpg",
    "/images/portfolio/chromatic-study.jpg",
    "/images/portfolio/editorial-outdoor.jpg",
    "/images/portfolio/lovewant-georgia.jpg",
    "/images/portfolio/net-a-porter.jpg",
    "/images/carousel/dior-editorial.jpg",
    "/images/carousel/vogue-arabia.jpeg"
  ]

  const CaptionWords: seq<string> := ["Mood", "Form", "Light", "Soul"]

  /** The interval callback: `(prev + 1) % HERO_IMAGES.length`. */
  function NextIndex(index: nat): (r: nat)
    ensures r < |HeroImages|
    ensures index + 1 < |HeroImages| ==> r == index + 1
    ensures index + 1 == |HeroImages| ==> r == 0
  {
    (index + 1) % |HeroImages|
  }

  /** The index after `n` ticks. */
  function AfterTicks(index: nat, n: nat): nat {
    if n == 0 then index else NextIndex(AfterTicks(index, n - 1))
  }

  /** n ticks advance the index by n modulo seven. */
  lemma {:induction false} AfterTicksIsModular(index: nat, n: nat)
    requires index < |HeroImages|
    ensures AfterTicks(index, n) == (index + n) % |HeroImages|
  {
    if n > 0 {
      AfterTicksIsModular(index, n - 1);
      var k := (index + n - 1) % 7;
      assert (k + 1) % 7 == (index + n) % 7;
    }
  }

  /** Seven ticks bring every index back to itself; from 0 back to 0. */
  lemma SevenTicksReturn(index: nat)
    requires index < |HeroImages|
    ensures AfterTicks(index, |HeroImages|) == index
  {
    AfterTicksIsModular(index, |HeroImages|);
  }

  /** Which hero images are visible: `index === currentImageIndex`. */
  function HeroVisibility(current: nat): (shown: seq<bool>)
    ensures |shown| == |HeroImages|
    ensures forall j :: 0 <= j < |shown| ==> (shown[j] <==> j == current)
  {
    seq(|HeroImages|, j => j == current)
  }

  function CountShown(shown: seq<bool>): nat {
    if shown == [] then 0 else (if shown[0] then 1 else 0) + CountShown(shown[1..])
  }

  lemma {:induction false} NoneShown(shown: seq<bool>)
    requires forall j :: 0 <= j < |shown| ==> !shown[j]
    ensures CountShown(shown) == 0
  {
    if shown != [] {
      NoneShown(shown[1..]);
    }
  }

  lemma {:induction false} OneShown(shown: seq<bool>, p: nat)
    requires p < |shown|
    requires forall j :: 0 <= j < |shown| ==> (shown[j] <==> j == p)
    ensures CountShown(shown) == 1
  {
    if p == 0 {
      NoneShown(shown[1..]);
    } else {
      OneShown(shown[1..], p - 1);
    }
  }

  /** For every reachable index exactly one hero image is shown: the current one. */
  lemma ExactlyOneHeroImageShown(current: nat)
    requires current < |HeroImages|
    ensures CountShown(HeroVisibility(current)) == 1
    ensures HeroVisibility(current)[current]
  {
    OneShown(HeroVisibility(current), current);
  }

  /** The four `currentImageIndex % 4 === k && "..."` expressions: each renders
      its word or nothing. */
  function RenderedCaptions(current: nat): seq<string> {
    (if current % 4 == 0 then ["Mood"] else [])
    + (if current % 4 == 1 then ["Form"] else [])
    + (if current % 4 == 2 then ["Light"] else [])
    + (if current % 4 == 3 then ["Soul"] else [])
  }

  /** Exactly one caption is rendered, the word for the index modulo four. */
  lemma OneCaptionRendered(current: nat)
    ensures RenderedCaptions(current) == [CaptionWords[current % 4]]
  {
  }

  /** The hero sources after the placeholder fallback: none of the hero images
      is empty, so each is used as written. */
  lemma HeroSourcesNeedNoPlaceholder()
    ensures forall j :: 0 <= j < |HeroImages| ==> SrcOrPlaceholder(HeroImages[j]) == HeroImages[j]
  {
  }
}
