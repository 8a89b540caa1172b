/**
 * The driver `main` (website_to_pdf.py:128-159): crawl from the base URL, take
 * one full-page screenshot per URL and, when the page has accordion content,
 * a second screenshot of the extracted document, then turn the screenshots
 * into an image-only document in that order.
 *
 * The browser is not modelled: the screenshot of a URL or of a document is the
 * file at the path `main` gives it, and the images those files hold are the
 * `load` parameter of the image-PDF stage. `dom(url)` is the parsed page
 * `extract_accordion_html` sees for `url`.
 */
module Pipeline {
  import opened Wrappers
  import opened Strings
  import opened Crawl
  import opened Accordion
  import opened ImagePdf

  // ---------------------------------------------------------------------------
  // Screenshot file names
  // ---------------------------------------------------------------------------

  /** `BASE_DIR` and `SCREENSHOTS_DIR` (website_to_pdf.py:16-17). */
  const BaseDir: string := "/Users/namratasrinivasa/Desktop/comply-work/urltopdf"
  const ScreenshotsDir: string := BaseDir + "/screenshots"

  /** The parts of `page_{i}_main.png` and `page_{i}_accordion.png` (website_to_pdf.py:136, 148). */
  const ShotPrefix: string := ScreenshotsDir + "/page_"
  const MainSuffix: string := "_main.png"
  const AccordionSuffix: string := "_accordion.png"

  /** A screenshot `main` takes: of the `index`-th URL itself, or of its accordion document. */
  datatype Shot = MainShot(index: nat) | AccordionShot(index: nat)

  function Suffix(s: Shot): string {
    match s
    case MainShot(_) => MainSuffix
    case AccordionShot(_) => AccordionSuffix
  }

  /** `os.path.join(SCREENSHOTS_DIR, f"page_{i}_main.png")` and its accordion counterpart. */
  function ShotPath(s: Shot): string {
    ShotPrefix + (Dec(s.index) + Suffix(s))
  }

  function ShotPaths(shots: seq<Shot>): (paths: seq<string>)
    ensures |paths| == |shots|
    ensures forall j :: 0 <= j < |shots| ==> paths[j] == ShotPath(shots[j])
  {
    seq(|shots|, j requires 0 <= j < |shots| => ShotPath(shots[j]))
  }

  /** No two screenshots share a file: the paths name their screenshots. */
  lemma ShotPathInjective(s: Shot, t: Shot)
    requires ShotPath(s) == ShotPath(t)
    ensures s == t
  {
    CancelPrefix(ShotPrefix, Dec(s.index) + Suffix(s), Dec(t.index) + Suffix(t));
    DigitsSplit(Dec(s.index), Suffix(s), Dec(t.index), Suffix(t));
    DecInjective(s.index, t.index);
    assert |MainSuffix| != |AccordionSuffix|;
  }

  // ---------------------------------------------------------------------------
  // The list `image_paths`
  // ---------------------------------------------------------------------------

  /** For each URL, in order, whether its page has content the class filter finds. */
  function Found(urls: seq<Url>, dom: Url -> seq<Tag>): (f: seq<bool>)
    ensures |f| == |urls|
    ensures forall i :: 0 <= i < |urls| ==> f[i] == FoundAny(dom(urls[i]))
  {
    seq(|urls|, i requires 0 <= i < |urls| => FoundAny(dom(urls[i])))
  }

  /** The screenshots of website_to_pdf.py:133-153 when the `i`-th page has accordion content exactly when `found[i]`. */
  function ShotsFor(found: seq<bool>): seq<Shot>
    decreases |found|
  {
    if found == [] then []
    else
      var n := |found| - 1;
      ShotsFor(found[..n]) + [MainShot(n)] + if found[n] then [AccordionShot(n)] else []
  }

  /** A screenshot's place in the intended order: a page's own shot, then its accordion shot, then the next page. */
  function Key(s: Shot): nat {
    match s
    case MainShot(i) => 2 * i
    case AccordionShot(i) => 2 * i + 1
  }

  /** The loop of website_to_pdf.py:131-153, as `main` builds `image_paths` from the sorted URLs. */
  method BuildImagePaths(urls: seq<Url>, dom: Url -> seq<Tag>, decode: (seq<Tag>, nat) -> string)
    returns (paths: seq<string>)
    ensures paths == ShotPaths(ShotsFor(Found(urls, dom)))
  {
    paths := [];
    for i := 0 to |urls|
      invariant paths == ShotPaths(ShotsFor(Found(urls[..i], dom)))
    {
      ShotPathsStep(urls, dom, i);
      paths := paths + [ShotPath(MainShot(i))];
      var html, _ := ExtractAccordionHtml(urls[i], dom(urls[i]), decode);
      if html.Some? && html.value != "" {
        paths := paths + [ShotPath(AccordionShot(i))];
      }
    }
    assert urls[..|urls|] == urls;
  }

  /** One more URL adds its own screenshot and, if its page has accordion content, the accordion screenshot. */
  lemma ShotPathsStep(urls: seq<Url>, dom: Url -> seq<Tag>, i: nat)
    requires i < |urls|
    ensures ShotPaths(ShotsFor(Found(urls[..i + 1], dom))) ==
            ShotPaths(ShotsFor(Found(urls[..i], dom))) + [ShotPath(MainShot(i))] +
            if FoundAny(dom(urls[i])) then [ShotPath(AccordionShot(i))] else []
  {
    assert Found(urls[..i + 1], dom)[..i] == Found(urls[..i], dom);
  }

  /** The number of pages with accordion content. */
  function CountFound(found: seq<bool>): nat {
    if found == [] then 0 else CountFound(found[..|found| - 1]) + if found[|found| - 1] then 1 else 0
  }

  /** One screenshot per URL plus one per page with accordion content. */
  lemma {:induction false} ShotsForLength(found: seq<bool>)
    ensures |ShotsFor(found)| == |found| + CountFound(found)
    decreases |found|
  {
    if found != [] {
      ShotsForLength(found[..|found| - 1]);
    }
  }

  /** The screenshots one URL adds after those of the URLs before it. */
  function ShotsOf(found: seq<bool>, n: nat): seq<Shot>
    requires n < |found|
  {
    [MainShot(n)] + if found[n] then [AccordionShot(n)] else []
  }

  /** Every URL has its own screenshot, and no other index has one. */
  lemma {:induction false} ShotsForMainShots(found: seq<bool>)
    ensures forall i: nat :: MainShot(i) in ShotsFor(found) <==> i < |found|
    decreases |found|
  {
    if found != [] {
      var n := |found| - 1;
      ShotsForMainShots(found[..n]);
      assert ShotsFor(found) == ShotsFor(found[..n]) + ShotsOf(found, n);
      assert forall i: nat :: MainShot(i) in ShotsOf(found, n) <==> i == n;
    }
  }

  /** A URL has an accordion screenshot exactly when its page has accordion content. */
  lemma {:induction false} ShotsForAccordionShots(found: seq<bool>)
    ensures forall i: nat :: AccordionShot(i) in ShotsFor(found) <==> i < |found| && found[i]
    decreases |found|
  {
    if found != [] {
      var n := |found| - 1;
      ShotsForAccordionShots(found[..n]);
      assert ShotsFor(found) == ShotsFor(found[..n]) + ShotsOf(found, n);
      assert forall i: nat :: AccordionShot(i) in ShotsOf(found, n) <==> i == n && found[n];
      assert forall i :: 0 <= i < n ==> found[..n][i] == found[i];
    }
  }

  /** The screenshots come in order of their keys, each key below twice the number of URLs. */
  lemma {:induction false} ShotsForOrdered(found: seq<bool>)
    ensures forall j :: 0 <= j < |ShotsFor(found)| ==> Key(ShotsFor(found)[j]) < 2 * |found|
    ensures forall j, l :: 0 <= j < l < |ShotsFor(found)| ==> Key(ShotsFor(found)[j]) < Key(ShotsFor(found)[l])
    decreases |found|
  {
    if found != [] {
      var n := |found| - 1;
      ShotsForOrdered(found[..n]);
      var init := ShotsFor(found[..n]);
      var shots := ShotsFor(found);
      assert forall j :: 0 <= j < |init| ==> shots[j] == init[j];
    }
  }

  /** The screenshot files of one run are pairwise distinct: no screenshot overwrites another. */
  lemma ImagePathsDistinct(found: seq<bool>)
    ensures forall j, l :: 0 <= j < l < |ShotsFor(found)| ==>
              ShotPaths(ShotsFor(found))[j] != ShotPaths(ShotsFor(found))[l]
  {
    var shots := ShotsFor(found);
    ShotsForOrdered(found);
    forall j, l | 0 <= j < l < |shots|
      ensures ShotPaths(shots)[j] != ShotPaths(shots)[l]
    {
      if ShotPath(shots[j]) == ShotPath(shots[l]) {
        ShotPathInjective(shots[j], shots[l]);
      }
    }
  }

  // ---------------------------------------------------------------------------
  // The whole run
  // ---------------------------------------------------------------------------

  /**
   * `main()` after `input(...).strip()` (website_to_pdf.py:128-157): the sorted
   * URLs of the crawl, the screenshot paths in the order the document uses
   * them, and the outcome of building the image-only document from them.
   */
  method Run(web: Web, baseUrl: Url, dom: Url -> seq<Tag>, decode: (seq<Tag>, nat) -> string,
             load: string -> Option<Image>)
    returns (urls: seq<Url>, paths: seq<string>, pdf: Result<seq<Page>, string>)
    ensures StrictlySorted(urls)
    ensures forall u :: u in urls <==> Reachable(web, baseUrl, u)
    ensures paths == ShotPaths(ShotsFor(Found(urls, dom)))
    ensures pdf == Outcome(paths, load)
  {
    var fetched;
    urls, fetched := GetAllInternalLinks(web, baseUrl);
    paths := BuildImagePaths(urls, dom, decode);
    pdf := GenerateImagePdf(paths, load);
  }
}
