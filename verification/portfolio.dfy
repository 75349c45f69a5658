/**
 * The static portfolio data (src/data/portfolio.ts): eight media items and the
 * category list.  Both are constant literals; the lemmas state the invariants
 * the pages rely on.
 */
module Portfolio {

  datatype MediaKind = Image | Video

  datatype PortfolioItem = PortfolioItem(
    id: nat,
    src: string,
    alt: string,
    title: string,
    category: string,
    description: string,
    kind: MediaKind)

  const PortfolioImages: seq<PortfolioItem> := [
    PortfolioItem(1, "/images/portfolio/cover-vogue.jpg",
      "Vogue Türkiye cover shoot with dramatic eye makeup", "Vogue Türkiye Cover", "Editorial",
      "A cover shoot for Vogue Türkiye, focusing on bold, graphic liner and flawless skin.", Image),
    PortfolioItem(2, "/images/portfolio/chromatic-study.jpg",
      "Model with chromatic and glossy makeup", "Chromatic Study", "Avant-Garde",
      "An experimental look exploring the interplay of light, color, and texture on the skin.", Image),
    PortfolioItem(3, "/videos/portfolio-video-2.mp4",
      "Model with dynamic makeup", "Dynamic Beauty", "Motion",
      "A captivating motion piece showcasing dynamic makeup artistry.", Video),
    PortfolioItem(4, "/images/portfolio/lovewant-georgia.jpg",
      "Olivia Palermo with a soft glam makeup look", "Ethereal Glow", "Celebrity",
      "A collaboration featuring soft, luminous makeup that enhances natural beauty.", Image),
    PortfolioItem(5, "/images/portfolio/submission-beauty.jpg",
      "Creative makeup with abstract shapes on model's face", "Abstract Forms", "Creative",
      "Pushing the boundaries of beauty with geometric patterns and bold artistic expression.", Image),
    PortfolioItem(6, "/images/portfolio/editorial-outdoor.jpg",
      "Close-up beauty shot of a model with glossy skin", "Glass Skin", "Beauty",
      "Achieving the perfect dewy, translucent finish for an editorial beauty shoot.", Image),
    PortfolioItem(7, "/images/portfolio/scarlet-kiss.jpg",
      "Close-up of bold red lips", "Scarlet Kiss", "Beauty",
      "Classic beauty with a focus on the perfect red lip and minimal makeup.", Image),
    PortfolioItem(8, "/images/portfolio/net-a-porter.jpg",
      "Elegant editorial makeup for Net-A-Porter", "Net-A-Porter Editorial", "Editorial",
      "Sophisticated editorial work for Net-A-Porter featuring refined, high-fashion makeup.", Image)
  ]

  const Categories: seq<string> :=
    ["All", "Editorial", "Beauty", "Avant-Garde", "Motion", "Celebrity", "Creative"]

  predicate EndsWith(s: string, suffix: string) {
    |suffix| <= |s| && s[|s| - |suffix|..] == suffix
  }

  /** Eight items, numbered 1 to 8 in list order. */
  lemma IdsAreListPositions()
    ensures |PortfolioImages| == 8
    ensures forall i :: 0 <= i < |PortfolioImages| ==> PortfolioImages[i].id == i + 1
  {
  }

  /** Hence ids are strictly ascending and unique, so they are usable as React keys. */
  lemma IdsAscendingAndUnique()
    ensures forall i, j :: 0 <= i < j < |PortfolioImages| ==> PortfolioImages[i].id < PortfolioImages[j].id
  {
    IdsAreListPositions();
  }

  /** Every item's category is one of the listed categories, and never "All". */
  lemma CategoriesCoverItems()
    ensures forall i :: 0 <= i < |PortfolioImages| ==>
      PortfolioImages[i].category in Categories[1..]
  {
  }

  /** The category list starts with "All" and has no repeated entry. */
  lemma CategoriesStartWithAllAndAreDistinct()
    ensures Categories[0] == "All"
    ensures forall i, j :: 0 <= i < j < |Categories| ==> Categories[i] != Categories[j]
  {
  }

  /** Exactly one item, id 3, is a video, and its source is an .mp4 file. */
  lemma SingleVideoIsMp4()
    ensures forall i :: 0 <= i < |PortfolioImages| ==>
      (PortfolioImages[i].kind == Video <==> PortfolioImages[i].id == 3)
    ensures PortfolioImages[2].id == 3 && EndsWith(PortfolioImages[2].src, ".mp4")
  {
  }

  /** No item has an empty source, so no item falls back to the placeholder. */
  lemma SourcesNonEmpty()
    ensures forall i :: 0 <= i < |PortfolioImages| ==> PortfolioImages[i].src != ""
  {
  }
}
