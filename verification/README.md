# Mattie White portfolio site — a Dafny model of its logic

The site is a Next.js marketing page for a make-up artist's portfolio, plus
three Node scripts that re-encode the images under `public/`. Most of it is
markup and animation settings. This project models the parts that carry
logic and proves what they guarantee:

- **Wheel carousel** (`WheelCarousel`). Three image columns loop forever. Each
  wheel event moves columns 1 and 3 one way and column 2 the other, and
  `wrapValue` wraps each offset back into its loop range. The model has:
  - the two `wrapValue` loops, proved equal to a closed form;
  - the activity gate and the escape rule that hand the wheel back to the page;
  - height measurement;
  - the fact that `wrapValue` never terminates on an empty range. This is why
    a wheel event may only be consumed after the columns are measured.
- **Navbar** (`Navbar`). The scroll-derived flags, the mobile-menu flag, the
  class chosen for each variant, and the About scroll target (which, as
  written, lands on the hero rather than the carousel; see Findings).
- **Pages** (`HeroCycle`, `MediaView`, `MainPage`, `ABTestA`):
  - the 7-image hero timer and its mod-4 caption;
  - the scroll hint arrow;
  - the switch between featured works and the full grid;
  - the placeholder fallback.
- **Showreel carousel** (`HorizontalCarousel`). The zero-padded card labels,
  the category and title fallbacks, the card list, and video play/pause.
- **Portfolio data** (`Portfolio`). The constant item and category lists and
  their invariants.
- **Image scripts**:
  - `ScriptPaths`: `path.relative`/`path.join` on segment lists, and the
    public ↔ backup mapping with its round trip;
  - `ImageScan`: the two directory scans;
  - `ImageResize`: the width cap;
  - `QualitySearch`: the quality step-down loop;
  - `ImageStore`: the three scripts acting on a map from path to picture,
    and their `main` totals.

Timers, DOM events and browser measurements are explicit method calls or
parameters (`Tick`, `OnScroll(y)`, `Wheel(deltaY)`, `UpdateHeights(…)`). The
`sharp` encoder is a function parameter that gives the output size. The file
system is a value: directory trees (`Entry`) for the scans, and a
`map<Path, Picture>` in the `Disk` class for reads and writes.

Pixel values, wheel deltas and scroll positions are Dafny `real`s.
`Math.round` is round-half-up, written out as `(x + 0.5).Floor`.

## Model

| member | source | states |
|---|---|---|
| WheelCarousel.Column | src/components/ui/executive-impact-carousel.tsx:30-32 | column k holds the five images at positions 5k … 5k+4 |
| WheelCarousel.ColumnsPartitionImages | src/components/ui/executive-impact-carousel.tsx:8-32 | the three column slices, concatenated, are exactly IMAGES |
| WheelCarousel.Quadruple | src/components/ui/executive-impact-carousel.tsx:35-37 | the loop is 4·\|s\| long, and element i is s[i mod \|s\|] |
| WheelCarousel.LoopPositionShowsColumnImage | src/components/ui/executive-impact-carousel.tsx:35-37 | position i of column k's loop shows IMAGES[5k + i mod 5] |
| WheelCarousel.WrapValue | src/components/ui/executive-impact-carousel.tsx:88-93 | with min < max, the two loops stop at a value in [min, max), and that value is the closed-form wrap |
| WheelCarousel.WrapIsWrapOf | src/components/ui/executive-impact-carousel.tsx:88-93 | the closed-form wrap lies in [min, max) and differs from v by a whole number of ranges |
| WheelCarousel.WrapUnique | src/components/ui/executive-impact-carousel.tsx:88-93 | any value in [min, max) congruent to v modulo the range is the wrap, so the result is unique |
| WheelCarousel.WrapIdentity | src/components/ui/executive-impact-carousel.tsx:90-91 | a value already in [min, max) is returned unchanged |
| WheelCarousel.ZeroRangeNeverSettles | src/components/ui/executive-impact-carousel.tsx:89-91 | with min = max every loop step leaves the value unchanged, so the loop that was entered never exits |
| WheelCarousel.InactiveNeverConsumes | src/components/ui/executive-impact-carousel.tsx:96 | when not active, no wheel event is consumed |
| WheelCarousel.DownwardWheelAlwaysConsumedWhenActive | src/components/ui/executive-impact-carousel.tsx:105-108 | the escape applies only to upward deltas, so an active carousel consumes every downward one |
| WheelCarousel.Carousel.constructor | src/components/ui/executive-impact-carousel.tsx:43-53 | not hovered, offsets and heights 0, not yet measured |
| WheelCarousel.Carousel.MouseEnter | src/components/ui/executive-impact-carousel.tsx:175 | hovering makes the carousel active |
| WheelCarousel.Carousel.MouseLeave | src/components/ui/executive-impact-carousel.tsx:176 | after leaving, it is active exactly when at scroll end |
| WheelCarousel.Carousel.SetAtScrollEnd | src/components/ui/executive-impact-carousel.tsx:43 | the isAtScrollEnd prop is updated, and the invariant is kept |
| WheelCarousel.Carousel.UpdateHeights | src/components/ui/executive-impact-carousel.tsx:60-75 | each mounted column's height becomes scrollHeight/4 (others keep theirs), each offset is reset to −height, and the invariant is kept |
| WheelCarousel.Carousel.Wheel | src/components/ui/executive-impact-carousel.tsx:95-123 | prevented ⇔ active and not escaping; otherwise nothing moves; when prevented, cols 1 and 3 become wrap(old − 0.8·deltaY) and col 2 wrap(old + 0.8·deltaY) in [−2h, 0); offsets stay in range |
| WheelCarousel.SmallStepNeedsNoWrap | src/components/ui/executive-impact-carousel.tsx:119-123 | a step that stays in range moves the columns by exactly −delta and +delta |
| Navbar.Bar.constructor | src/components/layout/navbar.tsx:14-18 | the menu is closed, not scrolled, visible, lastScrollY = 0 |
| Navbar.Bar.OnScroll | src/components/layout/navbar.tsx:21-40 | isScrolled ⇔ y > 50 for every variant; smart: hidden ⇔ y > last ∧ y > 100, and last := y; other variants: visible, last untouched |
| Navbar.Bar.ToggleMenu | src/components/layout/navbar.tsx:130 | isOpen is negated |
| Navbar.Bar.CloseMenu | src/components/layout/navbar.tsx:77 | isOpen becomes false |
| Navbar.Bar.MenuClick | src/components/layout/navbar.tsx:145-150 | a click on the open menu closes it only if it hit the background itself |
| Navbar.Bar.NavClasses | src/components/layout/navbar.tsx:50-64 | the `+=`-built class string is the base plus the variant branch chosen by isScrolled ∨ isOpen and isVisible |
| Navbar.DefaultHiddenUnlessActive | src/components/layout/navbar.tsx:53-54 | default variant: shown classes ⇔ scrolled or open; hidden classes ⇔ neither |
| Navbar.ParseVariant | src/components/layout/navbar.tsx:53-64 | each of the four names selects its own branch, and exactly the other strings fall to the fallback, keeping their name |
| Navbar.UnknownFallsBackToSticky | src/components/layout/navbar.tsx:61-64 | a prop string other than the four names gets exactly the sticky classes |
| Navbar.VisibilityMattersOnlyWhenSmart | src/components/layout/navbar.tsx:53-64 | only the smart variant's classes depend on isVisible; minimal ignores the scroll state |
| Navbar.InnerContainerClasses | src/components/layout/navbar.tsx:67-69 | "h-12 md:h-14" exactly for minimal/sticky/smart, "h-16 md:h-20" otherwise |
| Navbar.AboutScrollTarget | src/components/layout/navbar.tsx:100-105 | no matched section means no scroll; otherwise, after scrolling to the target, the matched section's bottom in the viewport (document top − target + height) is at innerHeight, the viewport's bottom |
| Navbar.FirstTallIndex | src/components/layout/navbar.tsx:100 | the query's match: none ⇔ no `relative h-[400vh]` section; otherwise a tall section with no tall section before it in document order |
| Navbar.AboutQuery | src/components/layout/navbar.tsx:100-102 | the rectangle the handler measures is absent ⇔ no tall section is in the page |
| Navbar.AboutQueryFindsHero | src/components/MainPage.tsx:176-178 | a hero preceded by no tall section is what the About query returns, whatever tall sections (the carousel) follow it |
| Navbar.CarouselQuery | src/components/animations/horizontal-scroll-carousel.tsx:56 | corrected query: none ⇔ no carousel section; otherwise the rectangle of a carousel section of the page |
| Navbar.IntendedAboutScrollTarget | src/components/layout/navbar.tsx:99-105 | corrected target: none ⇔ no carousel section; otherwise the carousel section's bottom meets the viewport's bottom |
| Navbar.AboutStopsAtHeroNotCarousel | src/components/layout/navbar.tsx:99-105 | on a page with the hero at 0..4000 and the carousel at 4000..8000 (1000 px viewport), About scrolls to 3000 as written and to 7000 as intended |
| Navbar.AboutTargetIndependentOfScroll | src/components/layout/navbar.tsx:103 | the target depends only on the section's document position, not on the current scroll |
| HeroCycle.NextIndex | src/components/MainPage.tsx:134-139 | the next index is below 7, is index + 1 inside the range, and 0 after the last image |
| HeroCycle.AfterTicksIsModular | src/components/MainPage.tsx:136 | n ticks from index give (index + n) mod 7 |
| HeroCycle.SevenTicksReturn | src/components/MainPage.tsx:134-139 | seven ticks return to the same index |
| HeroCycle.HeroVisibility | src/components/MainPage.tsx:243-250 | image j is shown ⇔ j = currentImageIndex |
| HeroCycle.ExactlyOneHeroImageShown | src/components/MainPage.tsx:243-250 | for every reachable index exactly one hero image is shown, and it is the current one |
| HeroCycle.OneCaptionRendered | src/components/MainPage.tsx:258-261 | the four conditional captions render exactly one word, Mood/Form/Light/Soul for index mod 4 |
| HeroCycle.HeroSourcesNeedNoPlaceholder | src/components/MainPage.tsx:243-246 | no hero source is empty, so the placeholder fallback never applies |
| MediaView.FirstNonEmpty | src/components/animations/horizontal-scroll-carousel.tsx:86-88 | `s \|\| fallback`: a non-empty s is kept, and undefined or "" gives the fallback |
| MediaView.SrcOrPlaceholder | src/components/MainPage.tsx:493 | never empty; src itself when non-empty, and "/placeholder.svg" when src is "" |
| MediaView.RenderItem | src/components/MainPage.tsx:481-497 | a video element ⇔ the item is a video, with the raw src and alt as title; otherwise an image with the item's alt whose src is the item's when non-empty and "/placeholder.svg" when empty |
| MediaView.FullGrid | src/components/MainPage.tsx:466-504 | one cell per portfolio item, in list order, unfiltered |
| MediaView.FullGridHasOneVideo | src/data/portfolio.ts:31-38 | the full grid's only video cell is the third |
| MainPage.FeaturedIndicesInRange | src/components/MainPage.tsx:321-410 | featured positions 0, 1, 3 exist and are strictly increasing |
| MainPage.FeaturedCells | src/components/MainPage.tsx:321-415 | the featured view is the grid cells at positions 0, 1 and 3 |
| MainPage.FeaturedAreImages | src/components/MainPage.tsx:321-412 | all featured cells are images (the video item is not featured) |
| MainPage.Page.constructor | src/components/MainPage.tsx:128-131 | index 0, featured view, no arrow, not scrolled, and the first timeout pending, armed with hasScrolled false |
| MainPage.Page.Tick | src/components/MainPage.tsx:134-139 | the index advances by NextIndex, and stays below 7 |
| MainPage.Page.ArrowTimerFires | src/components/MainPage.tsx:143-147 | a pending timeout fires once: the hint is switched on exactly when a timeout was pending and the hasScrolled it captured was false, whatever the current flag; otherwise it is unchanged; afterwards none is pending |
| MainPage.Page.ArmArrowTimer | src/components/MainPage.tsx:142-149 | the effect re-run after hasScrolled changes arms a pending timeout that captures the current hasScrolled |
| MainPage.Page.OnScroll | src/components/MainPage.tsx:152-158 | past 10 px: hasScrolled set and arrow cleared; otherwise nothing changes; once scrolled the arrow stays off |
| MainPage.Page.NavPortfolioClick | src/components/MainPage.tsx:166-171 | switches to the full portfolio |
| MainPage.Page.ExploreClick | src/components/MainPage.tsx:435-437 | switches to the full portfolio |
| MainPage.Page.BackClick | src/components/MainPage.tsx:513 | switches back to the featured view |
| MainPage.Page.ArrowShown | src/components/MainPage.tsx:204 | the arrow renders ⇔ the hero is mounted, the hint flag is set and the page has not scrolled; so never once scrolled, whatever the hint flag |
| MainPage.StaleTimerAfterScroll | src/components/MainPage.tsx:142-158 | a timeout that fires between a scroll and the effect cleanup leaves the hint flag set together with hasScrolled; the arrow stays hidden |
| MainPage.ArrowAppearsAfterDelay | src/components/MainPage.tsx:142-147 | on a fresh page, the first timeout firing with no scroll makes the arrow appear |
| MainPage.TimerFiresOnce | src/components/MainPage.tsx:143-148 | a second firing without re-arming leaves the hint as the first left it |
| MainPage.TimerAfterRearm | src/components/MainPage.tsx:142-158 | once the timeout is re-armed after the scroll, its firing leaves the hint off |
| MainPage.Page.HeroShown | src/components/MainPage.tsx:175-253 | no hero images in the full view; otherwise exactly the current one is visible |
| MainPage.Page.PortfolioCells | src/components/MainPage.tsx:307-504 | full view: one cell per portfolio item, in list order; featured view: three cells, all images, grid cells 0, 1 and 3 in that order |
| MainPage.Page.ShowcaseMounted | src/components/MainPage.tsx:529 | the carousel and About section are mounted ⇔ the hero is mounted |
| MainPage.Page.Heading | src/components/MainPage.tsx:276-302 | the heading is "Selected Works" ⇔ the three featured cells are shown, and "Portfolio" ⇔ all eight are |
| MainPage.ExploreAndBack | src/components/MainPage.tsx:435-513 | Explore then Back restores the hero and the featured cells |
| ABTestA.FeaturedCells | src/app/ab/a/page.tsx:134-149 | a single featured cell: item 0 as an image, equal to grid cell 0 |
| ABTestA.Page.constructor | src/app/ab/a/page.tsx:51-52 | index 0, featured view |
| ABTestA.Page.Tick | src/app/ab/a/page.tsx:54-59 | the index advances by NextIndex, and stays below 7 |
| ABTestA.Page.NavPortfolioClick | src/app/ab/a/page.tsx:63-66 | switches to the full portfolio |
| ABTestA.Page.ExploreClick | src/app/ab/a/page.tsx:152 | switches to the full portfolio |
| ABTestA.Page.BackClick | src/app/ab/a/page.tsx:191 | switches back to the featured view |
| ABTestA.Page.HeroClasses | src/app/ab/a/page.tsx:69 | the hero stays mounted and always keeps its base classes; " hidden" is appended ⇔ in the full view |
| ABTestA.Page.HeroShown | src/app/ab/a/page.tsx:87-92 | the hero stays mounted, with exactly the current image visible |
| ABTestA.Page.PortfolioCells | src/app/ab/a/page.tsx:131-177 | full view: one cell per portfolio item, in list order; featured view: a single image cell equal to grid cell 0 |
| ABTestA.Page.ShowcaseMounted | src/app/ab/a/page.tsx:203 | the carousel and About section are mounted ⇔ the hero carries no " hidden" |
| ABTestA.Page.Heading | src/app/ab/a/page.tsx:120-123 | the heading is "Selected Works" ⇔ the one featured cell is shown, and "Portfolio" ⇔ all eight are |
| ABTestA.ExploreAndBack | src/app/ab/a/page.tsx:152-191 | Explore then Back restores the featured view; the hero images never changed |
| HorizontalCarousel.DecimalString | src/components/animations/horizontal-scroll-carousel.tsx:86 | `String(n)`: non-empty digits, no leading zero for n > 0, one digit ⇔ n < 10 |
| HorizontalCarousel.DecimalRoundTrip | src/components/animations/horizontal-scroll-carousel.tsx:86 | reading back String(n) gives n |
| HorizontalCarousel.PadStart | src/components/animations/horizontal-scroll-carousel.tsx:86 | length max(len, \|s\|), ends with s, and padded only with the fill character |
| HorizontalCarousel.CardLabel | src/components/animations/horizontal-scroll-carousel.tsx:86 | digits reading back as index + 1; below 10 exactly two characters with a leading "0"; from 10 on exactly String(index + 1) |
| HorizontalCarousel.CardLabelsDistinct | src/components/animations/horizontal-scroll-carousel.tsx:86 | distinct positions get distinct labels |
| HorizontalCarousel.FirstCardLabel | src/components/animations/horizontal-scroll-carousel.tsx:86 | index 0 gives "01" |
| HorizontalCarousel.TenthCardLabel | src/components/animations/horizontal-scroll-carousel.tsx:86 | index 9 gives "10" |
| HorizontalCarousel.CategoryText | src/components/animations/horizontal-scroll-carousel.tsx:86 | a non-empty category is shown as is; a missing or empty one shows "Editorial" |
| HorizontalCarousel.TitleText | src/components/animations/horizontal-scroll-carousel.tsx:88 | the title if non-empty, otherwise alt |
| HorizontalCarousel.CardFor | src/components/animations/horizontal-scroll-carousel.tsx:62-89 | a video ⇔ type is "video" (raw src, alt as title); otherwise an image whose src is the item's when non-empty and "/placeholder.svg" when empty; annotation = label + " — " + category; title line = TitleText |
| HorizontalCarousel.Cards | src/components/animations/horizontal-scroll-carousel.tsx:62-91 | one card per media item, in input order |
| HorizontalCarousel.CardsNumberedInOrder | src/components/animations/horizontal-scroll-carousel.tsx:62-86 | card i's annotation starts with its label, which reads back as i + 1 |
| HorizontalCarousel.VideoItem.constructor | src/components/animations/horizontal-scroll-carousel.tsx:34-41 | a new video is not playing |
| HorizontalCarousel.VideoItem.OnInViewChange | src/components/animations/horizontal-scroll-carousel.tsx:21-31 | no element: unchanged; out of view: paused; in view: playing unless play() was rejected, and a rejection raises nothing |
| Portfolio.IdsAreListPositions | src/data/portfolio.ts:11-84 | eight items, item i has id i + 1 |
| Portfolio.IdsAscendingAndUnique | src/data/portfolio.ts:11-84 | ids strictly ascend, hence are unique |
| Portfolio.CategoriesCoverItems | src/data/portfolio.ts:11-86 | every item's category is in `categories`, and is not "All" |
| Portfolio.CategoriesStartWithAllAndAreDistinct | src/data/portfolio.ts:86 | `categories` starts with "All" and has no duplicates |
| Portfolio.SingleVideoIsMp4 | src/data/portfolio.ts:31-38 | an item is a video ⇔ its id is 3, and that item's src ends in ".mp4" |
| Portfolio.SourcesNonEmpty | src/data/portfolio.ts:11-84 | no item has an empty src |
| ScriptPaths.JoinRelative | scripts/compress-images.mjs:35-36 | `path.join(from, path.relative(from, to)) == to` for plain paths |
| ScriptPaths.RelativeToAncestor | scripts/compress-images.mjs:35 | relative to an ancestor directory, a path is its remaining segments |
| ScriptPaths.JoinPlain | scripts/compress-images.mjs:15 | joining plain paths (a directory and a readdir name) concatenates them |
| ScriptPaths.BackupPathOfPublicFile | scripts/compress-images.mjs:35-36 | public/rest is backed up to public/_originals_backup/rest, a different path |
| ScriptPaths.RestorePathOfBackupFile | scripts/restore-high-quality.mjs:29-30 | public/_originals_backup/rest is restored to public/rest |
| ScriptPaths.BackupRestoreRoundTrip | scripts/restore-high-quality.mjs:29-30 | restore ∘ backup is the identity on public files, and backup ∘ restore is the identity on backup files |
| ImageScan.SelectedIsWantedImages | scripts/compress-aggressive.mjs:11-31 | the compression scan returns exactly the JPEG/PNG files over 500 KiB whose directory path has no "_originals_backup", in visiting order |
| ImageScan.NothingWantedBelowMarker | scripts/compress-images.mjs:18-22 | below a backup directory nothing is selected |
| ImageScan.KeepWanted | scripts/compress-images.mjs:18-28 | keeps exactly the files over 500 KiB outside a backup directory |
| ImageScan.GetImageFiles | scripts/compress-images.mjs:11-32 | the recursive scan appends exactly the selected files, in order, to the accumulator |
| ImageScan.GetBackupFiles | scripts/restore-high-quality.mjs:10-25 | the recursive scan appends the path of every JPEG/PNG, with no size threshold or skipped directory |
| ImageResize.RoundHalfUp | scripts/compress-images.mjs:52 | `Math.round`: within half a unit, with halves rounding up |
| ImageResize.Cap | scripts/compress-images.mjs:51-54 | no-op when width ≤ max; otherwise width = max; never wider than the input |
| ImageResize.CapKeepsAspectRatio | scripts/compress-aggressive.mjs:43-46 | a capped height is within ½ px of height·max/width, and never taller than before |
| ImageResize.CapIdempotent | scripts/restore-high-quality.mjs:42-45 | capping an already capped image changes nothing |
| ImageResize.CapsNarrowTogether | scripts/compress-aggressive.mjs:43-46 | the 1600 px cap after the 2400 px cap has the width of the 1600 px cap alone |
| QualitySearch.SettleIsFirstUnderTarget | scripts/compress-aggressive.mjs:49-63 | the chosen quality is in {80,…,60}; it meets 400 KiB unless it is 60; every higher quality tried missed |
| QualitySearch.FirstTryThatFits | scripts/compress-aggressive.mjs:58-62 | if quality 80 already fits, it is kept |
| QualitySearch.ChooseQuality | scripts/compress-aggressive.mjs:49-63 | the do-while stops at the settled quality, the buffer written is the one encoded at that quality, and at most 5 encodings happen |
| ImageStore.StandardOutput | scripts/compress-images.mjs:51-60 | the standard re-encode has the 2400-capped dimensions |
| ImageStore.AggressiveOutput | scripts/compress-aggressive.mjs:42-67 | the 1600 px cap; an output still over 400 KiB is the quality-60 encoding |
| ImageStore.StandardStep | scripts/compress-images.mjs:34-72 | fails ⇔ the file is missing or unreadable; the backup receives the original whenever the file exists; on success the file holds the standard output and its size is reported; only the file and its backup change |
| ImageStore.AggressiveStep | scripts/compress-aggressive.mjs:33-75 | fails ⇔ the file is missing or unreadable, writing nothing; on success only the file changes, to the aggressive output |
| ImageStore.RestoreStep | scripts/restore-high-quality.mjs:27-62 | fails ⇔ the backup is missing or unreadable, writing nothing; otherwise only the matching public path changes, to the standard output, whose size is reported |
| ImageStore.BackupsApart | scripts/compress-images.mjs:35-36 | two different public files outside the backup tree are not each other's backups, and their backups differ |
| ImageStore.RestoreTargetsDistinct | scripts/restore-high-quality.mjs:29-30 | distinct backups restore to distinct public paths |
| ImageStore.BackupOfPublicFile | scripts/compress-images.mjs:35-36 | a public file's backup path is in the backup tree, differs from it, and restores to it |
| ImageStore.RestoreOfBackupFile | scripts/restore-high-quality.mjs:29-30 | a backup file restores into the public tree |
| ImageStore.Disk.CompressStandard | scripts/compress-images.mjs:34-72 | missing: fails with no change; otherwise the original is first copied to its backup; unreadable: fails with only that copy; readable: overwritten with the capped q90 JPEG, original size reported; the whole effect is StandardStep |
| ImageStore.Disk.CompressAggressive | scripts/compress-aggressive.mjs:33-75 | missing or unreadable: fails with no change; otherwise overwritten with the 1600-capped encoding at the searched quality, which is the quality reported; the whole effect is AggressiveStep |
| ImageStore.Disk.RestoreAndCompress | scripts/restore-high-quality.mjs:27-62 | missing or unreadable backup: nothing written; otherwise the 2400/q90 re-encode is written to the public path and its size returned; the whole effect is RestoreStep |
| ImageStore.CompressThenRestore | scripts/restore-high-quality.mjs:27-62 | restoring right after compress-images reproduces compress-images' output and keeps the original in the backup |
| ImageStore.CompressTwice | scripts/compress-images.mjs:39-42 | a second compress-images run overwrites the backup with the first run's output |
| ImageStore.TotalsCountSuccessesOnly | scripts/compress-images.mjs:89-97 | the totals equal the totals of the successful outcomes alone |
| ImageStore.TotalsShrinkWhenEachDoes | scripts/compress-images.mjs:86-101 | if no file grew, the compressed total is at most the original total |
| ImageStore.CompressAllStandard | scripts/compress-images.mjs:74-103 | outcomes and store afterwards are StandardRun: every image through compressImage in scan order, each on the store the previous left; successes report the scanned size; totals are the sums over successes |
| ImageStore.CompressAllAggressive | scripts/compress-aggressive.mjs:77-100 | outcomes and store afterwards are AggressiveRun, the in-order fold of the aggressive step; successes report the scanned size; totals are the sums over successes |
| ImageStore.RestoreAll | scripts/restore-high-quality.mjs:64-83 | results and store afterwards are RestoreRun, the in-order fold of restoreAndCompress; the total is the sum of the written sizes |
| ImageStore.StandardRunCompressesAll | scripts/compress-images.mjs:74-103 | over distinct readable images outside the backup tree, every outcome is a success with the standard output, every file holds it, and every backup holds the original |
| ImageStore.StandardRunFrame | scripts/compress-images.mjs:74-103 | a compress-images run changes no file other than the images and their backups |
| ImageStore.StandardStepOnReadable | scripts/compress-images.mjs:34-72 | on a present, readable file the step succeeds, writes the standard output and backs up the original |
| ImageStore.AggressiveRunCompressesAll | scripts/compress-aggressive.mjs:77-100 | over distinct readable images, every outcome is a success and every file holds its aggressive output |
| ImageStore.AggressiveRunFrame | scripts/compress-aggressive.mjs:77-100 | a compress-aggressive run changes no file other than the images |
| ImageStore.RestoreRunRestoresAll | scripts/restore-high-quality.mjs:64-83 | over distinct readable backups, none the restore target of another, every result is the written size and every target holds the standard output of its backup |
| ImageStore.RestoreRunFrame | scripts/restore-high-quality.mjs:64-83 | a restore run changes no file other than the restore targets, so backups that are no target are kept |

## Left out

- framer-motion scroll interpolation (`useScroll`/`useTransform`: the hero and
  logo motion, the showreel's 1% → −87% slide). It lives in a library outside
  this code, and its outputs are CSS lengths.
- gsap tweens of the carousel columns. Only the offsets passed to them are
  modelled.
- DOM and timer plumbing: listener registration, `setInterval`/`setTimeout`
  scheduling, `scrollIntoView`/`scrollTo`, `useInView`, `scrollHeight`
  measurement. Each is an explicit method call or parameter.
- The smooth scroll to the top after the navbar Portfolio click, and the
  scroll to `#portfolio`. They are scroll side effects only.
- `sharp` metadata and encoding. The encoder is a function parameter. A file
  whose metadata cannot be read is `dims: None`. `mkdirSync` is not modelled,
  since a map has no directories.
- Console output, `toFixed` formatting and savings percentages.
- IEEE-754 rounding of `deltaY * 0.8`, `scrollHeight / 4` and
  `height / width * MAX` (reals are used instead).
- WheelCarousel.Carousel.Wheel: requires measured (positive) heights whenever
  the event would be consumed. The source then loops forever, which
  `ZeroRangeNeverSettles` shows.
- ImageStore.Disk.CompressStandard: requires a path below `public/` with plain
  segments. That is what the scan passes it. Arbitrary paths with `..` are
  not modelled.
- ImageScan.GetImageFiles and ImageScan.GetBackupFiles: `readdirSync` and
  `statSync` are called without a `try`, so an entry that cannot be read (a
  dangling link) or a missing backup directory throws out of the scan and
  `main().catch` ends the run before any file is processed. The entry tree
  has no unreadable entries, so that abort is not modelled.
- ImageScan.HasImageExtension: the case-insensitive test folds ASCII letters
  only. For the letters of jpg/jpeg/png this agrees with JavaScript's
  non-Unicode `/i`.
- ImageScan.ContainsMarker: `fullPath.includes('_originals_backup')` is
  checked segment by segment. The marker contains no '/', so an occurrence
  always lies within one segment.
- The footer, scroll-reveal, next.config, the page-level media arrays for the
  showreel, and Tailwind strings other than the navbar's variant branches.
  They are static markup or configuration.
- Category filtering. No filter exists: the full grid is unfiltered and
  `categories` is unused.

## Findings

| source | as written | input that shows it | evidently intended | confidence | as-written member | corrected member |
|---|---|---|---|---|---|---|
| src/components/layout/navbar.tsx:99-105 | About (here and in the mobile menu, lines 168-173) measures the first `section.relative.h-[400vh]` in document order, which is the hero (MainPage.tsx:176-178, ab/a/page.tsx:69) since the carousel comes later; on the A/B page's full view the hidden hero still matches with a zero rectangle | page at the top, viewport 1000, hero 0..4000, carousel 4000..8000: target 3000, the carousel's top at the viewport's bottom | scroll to the end of the horizontal carousel, where About is, as the handler's comment says: target 7000 | medium, not executed | Navbar.AboutStopsAtHeroNotCarousel | Navbar.IntendedAboutScrollTarget |
