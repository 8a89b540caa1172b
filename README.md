# urltopdf — a verified model of the capture-and-assembly core

`website_to_pdf.py` turns a website into one document: it crawls the pages of
the seed URL's host, takes a full-page screenshot of each page, builds a second
document of each page's accordion widgets (with collapsed ones forced open) and
screenshots that too, then lays the screenshots out one per page, each page the
size of its image, skipping blank screenshots. This project models that core in
Dafny and proves what each stage promises.

- `wrappers.dfy` — `Option` and `Result`.
- `strings.dfy` — Python's `p in s` on strings, the order `sorted` uses on
  strings, `sorted` of a set, and the decimal rendering of an index inside an
  f-string.
- `seqs.dfy` — the positions of a sequence that pass a test, in order.
- `crawl.dfy` — `get_all_internal_links`. The web is a value: the `href`s of
  each page that loads, `urljoin` and `urlparse(...).netloc`. The crawl is the
  source's `while` loop over a stack and a visited set, proved against an
  invariant. The result is sorted, holds exactly the loadable pages reachable
  from the seed by same-host links, and lies in the seed's host.
- `accordion.dfy` — `extract_accordion_html`. The parsed page is its elements
  in document order. The model keeps the code's two different tests:
  - the "is there anything?" test matches a marker as a substring of a class
    value;
  - the matching loop needs a class value equal to a marker.

  So a page whose only marker-like class is `accordion-header` still yields a
  document, one with a heading and no blocks (`HeaderOnlyPage`). The loop's
  style clearing is proved against `Cleared`, and the document is the source's
  f-string, character for character.
- `image_pdf.dfy` — `px_to_mm`, `is_image_blank` and `generate_image_pdf`. The
  FPDF object is a class whose page list the loop grows. The outcome is either
  the first path `Image.open` rejects, or one page per non-blank image, in
  order, each the image's size at 96 dpi.
- `pipeline.dfy` — `main`. The screenshot paths come in URL order. Each URL's
  main screenshot is followed by its accordion screenshot exactly when the
  extraction returned a document. No two paths coincide.

## Model

| member | source | states |
|---|---|---|
| Strings.SubstringAt | website_to_pdf.py:71 | the substring test `c in x` holds exactly when `c` occurs at some offset of `x` |
| Strings.LessIsFirstDifference | website_to_pdf.py:53 | string order is lexicographic: `a < b` iff `a` is a proper prefix of `b` or they first differ at a smaller character of `a` |
| Strings.LessIrreflexive | website_to_pdf.py:53 | no string is below itself |
| Strings.LessTransitive | website_to_pdf.py:53 | the string order is transitive |
| Strings.LessTotal | website_to_pdf.py:53 | any two distinct strings are ordered one way or the other |
| Strings.Insert | website_to_pdf.py:53 | inserting a new string into a strictly ascending list keeps it ascending, adds exactly that string and grows it by one |
| Strings.SortedList | website_to_pdf.py:53 | `sorted(visited)` is strictly ascending and holds exactly the set's elements, once each |
| Strings.Dec | website_to_pdf.py:136 | `f"{i}"` is a non-empty string of decimal digits |
| Strings.ParseDecOfDec | website_to_pdf.py:136 | reading the decimal rendering of `i` back gives `i` |
| Strings.DecInjective | website_to_pdf.py:136 | distinct indices render differently |
| Seqs.Where | website_to_pdf.py:76-82 | the selected positions are in range, pass the test, ascend strictly, and include every position that passes |
| Crawl.PushedIsUnvisitedLinks | website_to_pdf.py:47-50 | a URL is appended for a page exactly when it is one of that page's same-host links and not yet visited |
| Crawl.LinksInDomain | website_to_pdf.py:48-49 | every link that is followed has the seed's network location |
| Crawl.ExtendLinkPath | website_to_pdf.py:47-50 | following a link of a loaded page at the end of a chain from the seed extends the chain |
| Crawl.ClosedHoldsPath | website_to_pdf.py:38-52 | a set holding the loadable seed and every loadable link of its pages holds every loadable page on a chain from the seed |
| Crawl.ReachableInDomain | website_to_pdf.py:36-50 | every reachable page has the seed's network location |
| Crawl.PushLinks | website_to_pdf.py:47-50 | the inner loop appends exactly the unvisited same-host joined links, in `href` order, stopping at the first `urljoin` that raises |
| Crawl.CrawlInvInit | website_to_pdf.py:34-35 | the initial state (empty visited set, stack holding the seed) satisfies the crawl invariant |
| Crawl.CrawlInvSkip | website_to_pdf.py:39-41 | popping an already visited URL keeps the invariant |
| Crawl.CrawlInvFail | website_to_pdf.py:42-52 | a URL whose fetch fails is logged but not visited, and the invariant holds |
| Crawl.CrawlInvLoad | website_to_pdf.py:42-50 | visiting a loaded page and stacking its links keeps the invariant |
| Crawl.CrawlInvDone | website_to_pdf.py:38-53 | when the stack is empty, the visited set is exactly the reachable pages, all in the seed's host |
| Crawl.StepKeepsInv | website_to_pdf.py:38-52 | each iteration of the crawl keeps the invariant |
| Crawl.StepProgress | website_to_pdf.py:38-52 | each iteration either visits a new loadable page or shortens the stack, so the crawl ends |
| Crawl.VisitNext | website_to_pdf.py:39-52 | the loop body pops the last URL, skips it if visited, logs the fetch, and on success visits it and stacks its links |
| Crawl.GetAllInternalLinks | website_to_pdf.py:33-53 | the result is strictly sorted and holds exactly the reachable loadable pages, which are exactly the successfully fetched URLs; the first fetch is the seed; every fetch is in the seed's host; only failing URLs are fetched twice |
| Accordion.ClearAndCollect | website_to_pdf.py:76-82 | each element is left as `Cleared` makes it (empty style for a matched element whose style hides it) and `matched` is the matched positions in document order |
| Accordion.ExtractAccordionHtml | website_to_pdf.py:65-99 | `None` exactly when no class value mentions a marker; otherwise the document of the inner HTML of the matched elements, read after clearing, which is never the empty string; the page is cleared only when a document is produced |
| Accordion.ClearedKeepsClasses | website_to_pdf.py:78-81 | clearing keeps every element's classes, so the matched positions and the filter result are unchanged |
| Accordion.ClearedShowsMatched | website_to_pdf.py:79-81 | after clearing, no matched element's style holds `display:none` or `max-height:0` |
| Accordion.ClearedIdempotent | website_to_pdf.py:79-81 | clearing an element a second time changes nothing |
| Accordion.AccordionMentionsMarker | website_to_pdf.py:70-78 | an element with a class equal to a marker passes the substring filter |
| Accordion.MatchedImpliesFound | website_to_pdf.py:70-82 | a page with a matched element always yields a document |
| Accordion.HeaderOnlyPage | website_to_pdf.py:70-82 | a page whose only class is `accordion-header` passes the filter yet matches no element, so its document has no blocks |
| Accordion.VisibleAccordionCounts | website_to_pdf.py:76-82 | a visible element with a marker class yields a document and is among the matched elements |
| ImagePdf.PxToMm | website_to_pdf.py:12-13 | a length of `px` pixels at `dpi` is the millimetre length `mm` with `mm * dpi == px * 25.4` |
| ImagePdf.MmToPxRoundTrip | website_to_pdf.py:12-13 | converting millimetres back to pixels gives the original length |
| ImagePdf.PxToMmOneInch | website_to_pdf.py:12-13 | `dpi` pixels are 25.4 mm |
| ImagePdf.PxToMmMonotone | website_to_pdf.py:12-13 | at a positive dpi the conversion is strictly increasing |
| ImagePdf.PxToMmKeepsAspect | website_to_pdf.py:12-13 | the conversion keeps the ratio of width to height |
| ImagePdf.Pdf.constructor | website_to_pdf.py:107 | a new document has no pages |
| ImagePdf.Pdf.AddPage | website_to_pdf.py:118 | adds one empty page of the given size after the existing ones |
| ImagePdf.Pdf.DrawImage | website_to_pdf.py:119 | adds the placement to the last page and leaves the other pages alone |
| ImagePdf.FirstUnreadable | website_to_pdf.py:108-109 | the position found is a path that does not open with every earlier one opening; none is found exactly when every path opens |
| ImagePdf.GenerateImagePdf | website_to_pdf.py:106-120 | the loop's result is `Outcome`: the first unopenable path, or the pages of the non-blank images in order |
| ImagePdf.OutcomeFails | website_to_pdf.py:108-109 | the run fails exactly when some path does not open, and it reports the first such path |
| ImagePdf.LayoutCount | website_to_pdf.py:110-112 | the document has as many pages as images, less the blank ones |
| ImagePdf.LayoutPages | website_to_pdf.py:108-119 | a page is in the document exactly when it is the page of some non-blank image |
| ImagePdf.LayoutAppend | website_to_pdf.py:108-119 | the pages of two runs of images are the pages of the first run followed by those of the second |
| ImagePdf.BlankAddsNoPage | website_to_pdf.py:110-112 | removing a blank image anywhere leaves the document unchanged |
| ImagePdf.PageFitsImage | website_to_pdf.py:113-119 | each page has its image's aspect ratio, and the image covers it exactly from the corner |
| ImagePdf.BlankThreshold | website_to_pdf.py:101-103 | an image is blank exactly when its grey-level deviation is below 5; a deviation of exactly 5 is not blank |
| Pipeline.ShotPathInjective | website_to_pdf.py:136-148 | two screenshots with the same file path are the same screenshot (same index and kind) |
| Pipeline.BuildImagePaths | website_to_pdf.py:131-153 | `image_paths` is, for each URL in order, its main screenshot and then its accordion screenshot when its page has a document |
| Pipeline.ShotsForLength | website_to_pdf.py:133-153 | there is one screenshot per URL plus one per page with accordion content |
| Pipeline.ShotsForMainShots | website_to_pdf.py:133-138 | every URL has its main screenshot, and no other index has one |
| Pipeline.ShotsForAccordionShots | website_to_pdf.py:140-153 | a URL has an accordion screenshot exactly when its page has accordion content |
| Pipeline.ShotsForOrdered | website_to_pdf.py:133-153 | screenshots come in URL order, main before accordion, with no repeats |
| Pipeline.ImagePathsDistinct | website_to_pdf.py:136-153 | the screenshot paths of one run are pairwise distinct, so no screenshot overwrites another |
| Pipeline.Run | website_to_pdf.py:128-157 | the URLs are sorted and exactly the reachable pages; the paths follow the URL order with accordion shots as above; the document is the image-PDF outcome of those paths |

## Left out

- The browser is not modelled: Selenium, the waits, window resizing and the screenshots themselves (`screenshot_page`, website_to_pdf.py:56-62, and website_to_pdf.py:146-152). A screenshot is represented by the file path it is saved at, and the image stored there is the `load` parameter.
- Parsing and serialising HTML (`BeautifulSoup`, `decode_contents`) are parameters: the page's elements in document order and a `decode` function. The element tree is flattened, so nesting is visible only through `decode`.
- `urljoin` and `urlparse(...).netloc` are parameters of the web value.
- Fetches are deterministic: a URL either always loads with the same links or always fails. A URL that fails can still be fetched again if another page stacks it again; the model states this, the code has no retry rule. Reachability is over a finite set of loadable pages.
- Accordion.ExtractAccordionHtml: bs4 also applies the `class_` filter to the space-joined class string; the model tests class values one by one. The two agree when class values contain no spaces, which bs4 guarantees for split class lists.
- Accordion.ExtractAccordionHtml: `driver.get` inside the extraction is not modelled; the page it sees is the parameter `dom(url)`.
- `is_image_blank`: the grey-level standard deviation (`ImageStat` on the `"L"` conversion) is an input of the image, not computed from pixels.
- ImagePdf.PxToMm: lengths are exact reals; floating-point rounding is not modelled.
- ImagePdf.GenerateImagePdf: the second read of each file by `pdf.image` is assumed to succeed like the first. `pdf.output` is not modelled: the result is the page list, not the written file, so whatever FPDF does with an empty document is outside the model.
- OCR (`apply_ocr`, website_to_pdf.py:123-125), the printed messages, `os.makedirs`, writing `accordion_{i}.html` and reading the base URL with `input().strip()` are I/O. `Pipeline.Run` takes the stripped URL as a parameter.
- Pipeline.Run: `main` has no exception handler, so a failing capture or extraction raises out of the whole run. The model has no failure for those steps. The accordion step is never "skipped on failure" as a per-item recovery policy would have it; the code has no such rule.
- A blank result at a standard deviation equal to the threshold: the comparison in the code is strict (`< threshold`), so a deviation of exactly 5 is not blank. `ImagePdf.BlankThreshold` states the code's behaviour.
- Termination of the crawl on a host that generates unboundedly many distinct URLs is outside the model, since the web's set of loadable pages is finite.
