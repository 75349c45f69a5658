/**
 * Fallbacks shared by the pages and the showreel carousel: JavaScript's
 * `a || b` on strings, the placeholder image, and how a portfolio item is
 * rendered in the grids (src/components/MainPage.tsx, src/app/ab/a/page.tsx).
 */
module MediaView {
  import opened Options
  import opened Portfolio

  const Placeholder: string := "/placeholder.svg"

  /** `s || fallback` for an optional string: undefined and "" are both falsy. */
  function FirstNonEmpty(s: Option<string>, fallback: string): (r: string)
    ensures s.Some? && s.value != "" ==> r == s.value
    ensures s.None? || s.value == "" ==> r == fallback
  {
    if s.Some? && s.value != "" then s.value else fallback
  }

  /** `src || "/placeholder.svg"`: the source used for an <Image>. */
  function SrcOrPlaceholder(src: string): (r: string)
    ensures r != ""
    ensures src != "" ==> r == src
    ensures src == "" ==> r == Placeholder
  {
    FirstNonEmpty(Some(src), Placeholder)
  }

  datatype Rendered =
    | VideoElement(src: string, title: string)
    | ImageElement(src: string, alt: string)

  /** A grid cell: a <video> for video items, otherwise an <Image> whose
      source falls back to the placeholder. */
  function RenderItem(item: PortfolioItem): (r: Rendered)
    ensures r.VideoElement? <==> item.kind == Video
    ensures r.VideoElement? ==> r.src == item.src && r.title == item.alt
    ensures r.ImageElement? ==> r.src != "" && r.alt == item.alt
    ensures r.ImageElement? && item.src != "" ==> r.src == item.src
    ensures r.ImageElement? && item.src == "" ==> r.src == Placeholder
  {
    if item.kind == Video then VideoElement(item.src, item.alt)
    else ImageElement(SrcOrPlaceholder(item.src), item.alt)
  }

  /** The full grid: one cell per portfolio item, in list order, unfiltered. */
  function FullGrid(): (cells: seq<Rendered>)
    ensures |cells| == |PortfolioImages|
    ensures forall i :: 0 <= i < |cells| ==> cells[i] == RenderItem(PortfolioImages[i])
  {
    seq(|PortfolioImages|, i requires 0 <= i < |PortfolioImages| => RenderItem(PortfolioImages[i]))
  }

  /** With the static data, the full grid has exactly one video cell, the third. */
  lemma FullGridHasOneVideo()
    ensures forall i :: 0 <= i < |FullGrid()| ==> (FullGrid()[i].VideoElement? <==> i == 2)
  {
    Portfolio.SingleVideoIsMp4();
  }
}
