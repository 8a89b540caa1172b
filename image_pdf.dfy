/**
 * The image-only document of website_to_pdf.py:101-120: every screenshot that
 * opens and is not blank becomes one page of exactly its own size, in the
 * order of the list of paths.
 *
 * Reading an image file is the parameter `load`: `load(path)` is the image the
 * file holds, or `None` when `Image.open` raises. An image is known by its size
 * in pixels and by the standard deviation of its greyscale conversion (what
 * `ImageStat.Stat(img.convert("L")).stddev[0]` computes). Lengths are `real`s;
 * the model does not round as floating point does.
 */
module ImagePdf {
  import opened Wrappers

  // ---------------------------------------------------------------------------
  // Units and the blank test
  // ---------------------------------------------------------------------------

  /** Millimetres per inch, the constant of website_to_pdf.py:13. */
  const MmPerInch: real := 25.4

  /** `px_to_mm(px, dpi=96)` (website_to_pdf.py:12-13): a length in pixels at `dpi` pixels per inch, in millimetres. */
  function PxToMm(px: real, dpi: real := 96.0): (mm: real)
    requires dpi != 0.0
    ensures mm * dpi == px * MmPerInch
  {
    px * MmPerInch / dpi
  }

  /** Converting back to pixels gives the length we started from. */
  lemma MmToPxRoundTrip(px: real, dpi: real)
    requires dpi != 0.0
    ensures PxToMm(px, dpi) * dpi / MmPerInch == px
  {
  }

  /** `dpi` pixels make one inch. */
  lemma PxToMmOneInch(dpi: real)
    requires dpi != 0.0
    ensures PxToMm(dpi, dpi) == MmPerInch
  {
  }

  /** At a positive resolution a longer length in pixels is a longer length in millimetres. */
  lemma PxToMmMonotone(a: real, b: real, dpi: real)
    requires dpi > 0.0 && a < b
    ensures PxToMm(a, dpi) < PxToMm(b, dpi)
  {
    assert PxToMm(b, dpi) - PxToMm(a, dpi) == (b - a) * MmPerInch / dpi;
  }

  /** The conversion keeps the ratio of width to height. */
  lemma PxToMmKeepsAspect(w: real, h: real, dpi: real)
    requires dpi != 0.0
    ensures PxToMm(w, dpi) * h == PxToMm(h, dpi) * w
  {
    assert PxToMm(w, dpi) * h == w * h * MmPerInch / dpi;
    assert PxToMm(h, dpi) * w == w * h * MmPerInch / dpi;
  }

  /** A screenshot: its size in pixels and the spread of its grey levels. */
  datatype Image = Image(width: nat, height: nat, stddev: real)

  /** `is_image_blank(img, threshold=5)` (website_to_pdf.py:101-103): the grey levels barely vary. */
  predicate IsImageBlank(img: Image, threshold: real := 5.0) {
    img.stddev < threshold
  }

  /** The images the loop keeps. */
  predicate Shown(img: Image) {
    !IsImageBlank(img)
  }

  // ---------------------------------------------------------------------------
  // The FPDF document
  // ---------------------------------------------------------------------------

  /** An image drawn on a page, at `(x, y)` with size `w` by `h`, in millimetres. */
  datatype Placement = Placement(path: string, x: real, y: real, w: real, h: real)

  /** A page of the given size and the images drawn on it, in drawing order. */
  datatype Page = Page(width: real, height: real, images: seq<Placement>)

  /**
   * The `FPDF(unit='mm')` object of website_to_pdf.py:107, as far as the program
   * uses it: the pages added so far, the last one being the one drawn on.
   */
  class Pdf {
    var pages: seq<Page>

    constructor ()
      ensures pages == []
    {
      pages := [];
    }

    /** `add_page(format=(w, h))`: opens a new, empty page of that size. */
    method AddPage(w: real, h: real)
      modifies this
      ensures pages == old(pages) + [Page(w, h, [])]
    {
      pages := pages + [Page(w, h, [])];
    }

    /** `image(path, x=x, y=y, w=w, h=h)`: draws the image on the page last added. */
    method DrawImage(path: string, x: real, y: real, w: real, h: real)
      requires pages != []
      modifies this
      ensures pages == old(pages[..|pages| - 1]) +
                       [old(pages[|pages| - 1]).(images := old(pages[|pages| - 1]).images + [Placement(path, x, y, w, h)])]
    {
      var last := pages[|pages| - 1];
      pages := pages[..|pages| - 1] + [last.(images := last.images + [Placement(path, x, y, w, h)])];
    }
  }

  // ---------------------------------------------------------------------------
  // What `generate_image_pdf` produces
  // ---------------------------------------------------------------------------

  /** The page website_to_pdf.py:113-119 makes for a kept image: its size, the image filling it. */
  function PageFor(path: string, img: Image): Page {
    var w := PxToMm(img.width as real);
    var h := PxToMm(img.height as real);
    Page(w, h, [Placement(path, 0.0, 0.0, w, h)])
  }

  predicate AllLoad(paths: seq<string>, load: string -> Option<Image>) {
    forall j :: 0 <= j < |paths| ==> load(paths[j]).Some?
  }

  /** The images the paths hold, when every one of them opens. */
  function Images(paths: seq<string>, load: string -> Option<Image>): (imgs: seq<Image>)
    requires AllLoad(paths, load)
    ensures |imgs| == |paths|
  {
    seq(|paths|, j requires 0 <= j < |paths| => load(paths[j]).value)
  }

  /** One page per image that is not blank, in the order of the paths. */
  function Layout(paths: seq<string>, imgs: seq<Image>): seq<Page>
    requires |paths| == |imgs|
    decreases |paths|
  {
    if paths == [] then []
    else
      var n := |paths| - 1;
      Layout(paths[..n], imgs[..n]) + if Shown(imgs[n]) then [PageFor(paths[n], imgs[n])] else []
  }

  /** The position of the first path that does not open, if any. */
  function FirstUnreadable(paths: seq<string>, load: string -> Option<Image>): (r: Option<nat>)
    ensures r.Some? ==> r.value < |paths| && load(paths[r.value]).None?
    ensures r.Some? ==> forall j :: 0 <= j < r.value ==> load(paths[j]).Some?
    ensures r.None? <==> AllLoad(paths, load)
    decreases |paths|
  {
    if paths == [] then None
    else if load(paths[0]).None? then Some(0)
    else
      match FirstUnreadable(paths[1..], load)
      case None => None
      case Some(k) => Some(k + 1)
  }

  /**
   * The outcome of `generate_image_pdf(paths, ...)`: the exception of the first
   * path `Image.open` rejects, or else the document's pages.
   */
  function Outcome(paths: seq<string>, load: string -> Option<Image>): Result<seq<Page>, string> {
    match FirstUnreadable(paths, load)
    case Some(k) => Err(paths[k])
    case None => Ok(Layout(paths, Images(paths, load)))
  }

  /** The loop of website_to_pdf.py:106-119, on the fresh document of line 107. */
  method GenerateImagePdf(paths: seq<string>, load: string -> Option<Image>) returns (r: Result<seq<Page>, string>)
    ensures r == Outcome(paths, load)
  {
    var pdf := new Pdf();
    ghost var imgs: seq<Image> := [];
    var k := 0;
    while k < |paths|
      invariant 0 <= k <= |paths| && |imgs| == k
      invariant forall j :: 0 <= j < k ==> load(paths[j]) == Some(imgs[j])
      invariant pdf.pages == Layout(paths[..k], imgs)
    {
      var img := load(paths[k]);
      if img.None? {
        FirstIsK(paths, load, k);
        return Err(paths[k]);
      }
      assert paths[..k + 1] == paths[..k] + [paths[k]];
      LayoutSnoc(paths[..k], imgs, paths[k], img.value);
      imgs := imgs + [img.value];
      if IsImageBlank(img.value) {
        k := k + 1;
        continue;
      }
      var w := PxToMm(img.value.width as real);
      var h := PxToMm(img.value.height as real);
      ghost var before := pdf.pages;
      pdf.AddPage(w, h);
      assert pdf.pages[..|pdf.pages| - 1] == before;
      pdf.DrawImage(paths[k], 0.0, 0.0, w, h);
      assert [] + [Placement(paths[k], 0.0, 0.0, w, h)] == [Placement(paths[k], 0.0, 0.0, w, h)];
      assert pdf.pages == before + [PageFor(paths[k], img.value)];
      k := k + 1;
    }
    assert paths[..k] == paths;
    assert FirstUnreadable(paths, load).None?;
    assert Images(paths, load) == imgs;
    r := Ok(pdf.pages);
  }

  /** When the paths before `k` open and path `k` does not, `k` is the first that does not. */
  lemma {:induction false} FirstIsK(paths: seq<string>, load: string -> Option<Image>, k: nat)
    requires k < |paths| && load(paths[k]).None?
    requires forall j :: 0 <= j < k ==> load(paths[j]).Some?
    ensures FirstUnreadable(paths, load) == Some(k)
    decreases k
  {
    if k > 0 {
      assert forall j :: 0 <= j < k - 1 ==> paths[1..][j] == paths[j + 1];
      FirstIsK(paths[1..], load, k - 1);
    }
  }

  /** Appending an image adds its page exactly when it is not blank. */
  lemma LayoutSnoc(paths: seq<string>, imgs: seq<Image>, p: string, img: Image)
    requires |paths| == |imgs|
    ensures Layout(paths + [p], imgs + [img]) ==
            Layout(paths, imgs) + (if Shown(img) then [PageFor(p, img)] else [])
  {
    assert (paths + [p])[..|paths|] == paths;
    assert (imgs + [img])[..|imgs|] == imgs;
  }

  // ---------------------------------------------------------------------------
  // Properties of the outcome
  // ---------------------------------------------------------------------------

  /** The run fails exactly when some path does not open, reporting the first such path. */
  lemma OutcomeFails(paths: seq<string>, load: string -> Option<Image>)
    ensures Outcome(paths, load).Err? <==> exists k :: 0 <= k < |paths| && load(paths[k]).None?
    ensures Outcome(paths, load).Err? ==>
              exists k :: 0 <= k < |paths| && load(paths[k]).None? && Outcome(paths, load).error == paths[k] &&
                          forall j :: 0 <= j < k ==> load(paths[j]).Some?
  {
  }

  /** The number of blank images among `imgs`. */
  function BlankCount(imgs: seq<Image>): nat {
    if imgs == [] then 0
    else BlankCount(imgs[..|imgs| - 1]) + if IsImageBlank(imgs[|imgs| - 1]) then 1 else 0
  }

  /** Each blank image costs exactly one page: there are as many pages as images that are not blank. */
  lemma {:induction false} LayoutCount(paths: seq<string>, imgs: seq<Image>)
    requires |paths| == |imgs|
    ensures |Layout(paths, imgs)| == |imgs| - BlankCount(imgs)
    decreases |imgs|
  {
    if imgs != [] {
      var n := |imgs| - 1;
      assert paths == paths[..n] + [paths[n]];
      assert imgs == imgs[..n] + [imgs[n]];
      LayoutCount(paths[..n], imgs[..n]);
      LayoutSnoc(paths[..n], imgs[..n], paths[n], imgs[n]);
    }
  }

  /** The pages are exactly the pages of the images that are not blank. */
  lemma {:induction false} LayoutPages(paths: seq<string>, imgs: seq<Image>)
    requires |paths| == |imgs|
    ensures forall pg :: pg in Layout(paths, imgs) <==>
              exists k :: 0 <= k < |imgs| && Shown(imgs[k]) && pg == PageFor(paths[k], imgs[k])
    decreases |paths|
  {
    if paths != [] {
      var n := |paths| - 1;
      LayoutPages(paths[..n], imgs[..n]);
      forall pg | pg in Layout(paths, imgs)
        ensures exists k :: 0 <= k < |imgs| && Shown(imgs[k]) && pg == PageFor(paths[k], imgs[k])
      {
        if pg in Layout(paths[..n], imgs[..n]) {
          var k :| 0 <= k < n && Shown(imgs[..n][k]) && pg == PageFor(paths[..n][k], imgs[..n][k]);
          assert imgs[..n][k] == imgs[k] && paths[..n][k] == paths[k];
        } else {
          assert Shown(imgs[n]) && pg == PageFor(paths[n], imgs[n]);
        }
      }
      forall k | 0 <= k < |imgs| && Shown(imgs[k])
        ensures PageFor(paths[k], imgs[k]) in Layout(paths, imgs)
      {
        if k < n {
          assert imgs[..n][k] == imgs[k] && paths[..n][k] == paths[k];
        }
      }
    }
  }

  /** The pages of two runs of images, one after the other, are the pages of each, in that order. */
  lemma {:induction false} LayoutAppend(paths1: seq<string>, imgs1: seq<Image>, paths2: seq<string>, imgs2: seq<Image>)
    requires |paths1| == |imgs1| && |paths2| == |imgs2|
    ensures Layout(paths1 + paths2, imgs1 + imgs2) == Layout(paths1, imgs1) + Layout(paths2, imgs2)
    decreases |paths2|
  {
    if paths2 == [] {
      assert paths1 + paths2 == paths1 && imgs1 + imgs2 == imgs1;
      assert Layout(paths2, imgs2) == [];
    } else {
      var n := |paths2| - 1;
      assert paths2 == paths2[..n] + [paths2[n]];
      assert imgs2 == imgs2[..n] + [imgs2[n]];
      assert paths1 + paths2 == (paths1 + paths2[..n]) + [paths2[n]];
      assert imgs1 + imgs2 == (imgs1 + imgs2[..n]) + [imgs2[n]];
      LayoutAppend(paths1, imgs1, paths2[..n], imgs2[..n]);
      LayoutSnoc(paths1 + paths2[..n], imgs1 + imgs2[..n], paths2[n], imgs2[n]);
      LayoutSnoc(paths2[..n], imgs2[..n], paths2[n], imgs2[n]);
    }
  }

  /** A blank image adds no page, wherever it stands. */
  lemma BlankAddsNoPage(paths1: seq<string>, imgs1: seq<Image>, p: string, img: Image, paths2: seq<string>, imgs2: seq<Image>)
    requires |paths1| == |imgs1| && |paths2| == |imgs2| && IsImageBlank(img)
    ensures Layout(paths1 + [p] + paths2, imgs1 + [img] + imgs2) == Layout(paths1 + paths2, imgs1 + imgs2)
  {
    LayoutAppend(paths1 + [p], imgs1 + [img], paths2, imgs2);
    LayoutSnoc(paths1, imgs1, p, img);
    LayoutAppend(paths1, imgs1, paths2, imgs2);
  }

  /** Each page has its image's proportions and is covered by that image alone, from the corner. */
  lemma PageFitsImage(path: string, img: Image)
    ensures PageFor(path, img).width * img.height as real == PageFor(path, img).height * img.width as real
    ensures PageFor(path, img).images ==
            [Placement(path, 0.0, 0.0, PageFor(path, img).width, PageFor(path, img).height)]
  {
    PxToMmKeepsAspect(img.width as real, img.height as real, 96.0);
  }

  /** A grey spread of exactly the threshold is not blank; anything below it is. */
  lemma BlankThreshold(w: nat, h: nat, s: real)
    ensures IsImageBlank(Image(w, h, s)) <==> s < 5.0
    ensures !IsImageBlank(Image(w, h, 5.0))
  {
  }
}
