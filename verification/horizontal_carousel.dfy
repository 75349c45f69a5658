/**
 * The horizontally scrolling showreel
 * (src/components/animations/horizontal-scroll-carousel.tsx): one card per
 * media item with a zero-padded position label, category and title
 * fallbacks, and a video element that plays only while near the viewport.
 */
module HorizontalCarousel {
  import opened Options
  import opened Portfolio
  import opened MediaView

  /** A `media` entry; `type`, `title` and `category` are optional. */
  datatype MediaProps = MediaProps(
    src: string, alt: string, kind: Option<MediaKind>, title: Option<string>, category: Option<string>)

  predicate IsDigit(c: char) { '0' <= c <= '9' }

  function DigitChar(d: nat): (c: char)
    requires d < 10
    ensures IsDigit(c) && DigitValue(c) == d
  {
    (('0' as int) + d) as char
  }

  /** `String(n)` for a natural number: its decimal digits, most significant first. */
  function DecimalString(n: nat): (s: string)
    ensures |s| >= 1
    ensures forall i :: 0 <= i < |s| ==> IsDigit(s[i])
    ensures n > 0 ==> s[0] != '0'
    ensures n < 10 <==> |s| == 1
  {
    if n < 10 then [DigitChar(n)] else DecimalString(n / 10) + [DigitChar(n % 10)]
  }

  /** The value of a string of decimal digits: the reference reading of a label. */
  function DecimalValue(s: string): nat
    requires forall i :: 0 <= i < |s| ==> IsDigit(s[i])
  {
    if s == [] then 0
    else 10 * DecimalValue(s[..|s| - 1]) + DigitValue(s[|s| - 1])
  }

  function DigitValue(c: char): nat
    requires IsDigit(c)
  {
    (c as int) - ('0' as int)
  }

  /** Reading back the decimal digits of n gives n. */
  lemma {:induction false} DecimalRoundTrip(n: nat)
    ensures DecimalValue(DecimalString(n)) == n
  {
    var s := DecimalString(n);
    if n < 10 {
      assert s[..0] == [];
    } else {
      DecimalRoundTrip(n / 10);
      assert s[..|s| - 1] == DecimalString(n / 10);
    }
  }

  /** Leading zeros do not change the value. */
  lemma {:induction false} LeadingZeros(z: string, s: string)
    requires forall i :: 0 <= i < |z| ==> z[i] == '0'
    requires forall i :: 0 <= i < |s| ==> IsDigit(s[i])
    ensures forall i :: 0 <= i < |z + s| ==> IsDigit((z + s)[i])
    ensures DecimalValue(z + s) == DecimalValue(s)
    decreases |s|
  {
    if s == [] {
      assert z + s == z;
      AllZeros(z);
    } else {
      var t := s[..|s| - 1];
      LeadingZeros(z, t);
      assert (z + s)[..|z + s| - 1] == z + t;
    }
  }

  lemma {:induction false} AllZeros(z: string)
    requires forall i :: 0 <= i < |z| ==> z[i] == '0'
    ensures DecimalValue(z) == 0
  {
    if z != [] {
      AllZeros(z[..|z| - 1]);
    }
  }

  /** `s.padStart(len, c)` with a one-character pad: left-pad up to `len`,
      leaving longer strings alone. */
  function PadStart(s: string, len: nat, c: char): (r: string)
    ensures |r| == if |s| >= len then |s| else len
    ensures r[|r| - |s|..] == s
    ensures forall i :: 0 <= i < |r| - |s| ==> r[i] == c
  {
    if |s| >= len then s else seq(len - |s|, _ => c) + s
  }

  /** The card's position label: `String(index + 1).padStart(2, "0")`. */
  function CardLabel(index: nat): (text: string)
    ensures |text| >= 2
    ensures forall i :: 0 <= i < |text| ==> IsDigit(text[i])
    ensures DecimalValue(text) == index + 1
    ensures index + 1 < 10 ==> |text| == 2 && text[0] == '0'
    ensures index + 1 >= 10 ==> text == DecimalString(index + 1)
  {
    var digits := DecimalString(index + 1);
    var padded := PadStart(digits, 2, '0');
    DecimalRoundTrip(index + 1);
    LeadingZeros(padded[..|padded| - |digits|], digits);
    assert padded == padded[..|padded| - |digits|] + digits;
    padded
  }

  /** Distinct positions get distinct labels. */
  lemma CardLabelsDistinct(i: nat, j: nat)
    requires i != j
    ensures CardLabel(i) != CardLabel(j)
  {
  }

  /** The first card reads "01": a single digit is padded. */
  lemma FirstCardLabel()
    ensures CardLabel(0) == "01"
  {
    var t := CardLabel(0);
    assert t[..1] == [t[0]] && t[..1][..0] == [];
    assert DecimalValue(t) == 10 * DigitValue(t[0]) + DigitValue(t[1]);
  }

  /** The tenth card reads "10": two digits are left alone. */
  lemma TenthCardLabel()
    ensures CardLabel(9) == "10"
  {
    assert DecimalString(10) == DecimalString(1) + [DigitChar(0)];
  }

  /** The category shown on hover: `item.category || "Editorial"`. */
  function CategoryText(item: MediaProps): (t: string)
    ensures t != ""
    ensures item.category.Some? && item.category.value != "" ==> t == item.category.value
    ensures item.category.None? || item.category.value == "" ==> t == "Editorial"
  {
    FirstNonEmpty(item.category, "Editorial")
  }

  /** The caption line under a card: `item.title || item.alt`. */
  function TitleText(item: MediaProps): (t: string)
    ensures item.title.Some? && item.title.value != "" ==> t == item.title.value
    ensures item.title.None? || item.title.value == "" ==> t == item.alt
  {
    FirstNonEmpty(item.title, item.alt)
  }

  /** What a card shows: the media element and its two annotation lines. */
  datatype Card = Card(element: Rendered, annotation: string, title: string)

  const Dash: string := " — "

  /** The card for `media[index]`: a <video> with the raw src only when the type
      is "video"; otherwise an <Image> whose src falls back to the placeholder. */
  function CardFor(index: nat, item: MediaProps): (card: Card)
    ensures card.element.VideoElement? <==> item.kind == Some(Video)
    ensures card.element.VideoElement? ==> card.element.src == item.src && card.element.title == item.alt
    ensures card.element.ImageElement? ==> card.element.src != "" && card.element.alt == item.alt
    ensures card.element.ImageElement? && item.src != "" ==> card.element.src == item.src
    ensures card.element.ImageElement? && item.src == "" ==> card.element.src == Placeholder
    ensures card.annotation == CardLabel(index) + Dash + CategoryText(item)
    ensures card.title == TitleText(item)
  {
    var element :=
      if item.kind == Some(Video) then VideoElement(item.src, item.alt)
      else ImageElement(SrcOrPlaceholder(item.src), item.alt);
    Card(element, CardLabel(index) + Dash + CategoryText(item), TitleText(item))
  }

  /** `media.map(...)`: one card per item, in input order. */
  function Cards(media: seq<MediaProps>): (cards: seq<Card>)
    ensures |cards| == |media|
    ensures forall i :: 0 <= i < |media| ==> cards[i] == CardFor(i, media[i])
  {
    seq(|media|, i requires 0 <= i < |media| => CardFor(i, media[i]))
  }

  /** Every card's label reads back as its one-based position, so the labels
      of a carousel are pairwise distinct. */
  lemma CardsNumberedInOrder(media: seq<MediaProps>)
    ensures forall i :: 0 <= i < |media| ==>
      Cards(media)[i].annotation[..|CardLabel(i)|] == CardLabel(i) && DecimalValue(CardLabel(i)) == i + 1
  {
  }

  /** A video card: the <video> element behind `VideoItem`. */
  class VideoItem {
    var playing: bool

    /** Rendered with preload="none": nothing plays before the first effect. */
    constructor ()
      ensures !playing
    {
      playing := false;
    }

    /** The effect run when the in-view flag (200 px margin) changes.
        `hasElement` is whether the ref is attached; `playResolves` is whether
        the browser accepts `play()` — a rejection is caught and ignored, so
        the element then simply stays paused. */
    method OnInViewChange(hasElement: bool, isInView: bool, playResolves: bool)
      modifies this
      ensures !hasElement ==> playing == old(playing)
      ensures hasElement && !isInView ==> !playing
      ensures hasElement && isInView ==> playing == (old(playing) || playResolves)
    {
      if hasElement {
        if isInView {
          if playResolves {
            playing := true;
          }
        } else {
          playing := false;
        }
      }
    }
  }
}
