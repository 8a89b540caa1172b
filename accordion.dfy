/**
 * The collapsed-content extractor `extract_accordion_html`
 * (website_to_pdf.py:65-99). The parsed page is the sequence of its elements
 * in document order (what `soup.find_all(True)` walks); an element of the
 * result is referred to by its position in that sequence, which stands for the
 * reference the Python list `matched` holds. `decode_contents` is a foreign
 * serialiser: it is the parameter `decode`, applied to the document as it is
 * after the styles have been cleared, so that an element's serialisation sees
 * the cleared styles of the elements inside it.
 */
module Accordion {
  import opened Wrappers
  import opened Strings
  import opened Seqs

  /** `ACCORDION_CLASSES` (website_to_pdf.py:21). */
  const AccordionClasses: set<string> := {"accordion", "accordian", "acc_item", "accordion_item"}

  /**
   * One element of the parsed page: its class tokens (empty when the attribute
   * is absent or blank) and its inline `style` attribute, if it has one.
   */
  datatype Tag = Tag(classes: seq<string>, style: Option<string>)

  /** The `class_` filter of website_to_pdf.py:71: some class value contains a marker as a substring. */
  predicate MentionsMarker(t: Tag) {
    exists i, m :: 0 <= i < |t.classes| && m in AccordionClasses && IsSubstring(m, t.classes[i])
  }

  /** website_to_pdf.py:70-72: the page has an element that passes that filter. */
  predicate FoundAny(page: seq<Tag>) {
    exists k :: 0 <= k < |page| && MentionsMarker(page[k])
  }

  /** The test of website_to_pdf.py:78: some class value is exactly a marker. */
  predicate IsAccordion(t: Tag) {
    exists i :: 0 <= i < |t.classes| && t.classes[i] in AccordionClasses
  }

  /** The two inline-style fragments of website_to_pdf.py:80. */
  const DisplayNone: string := "display:none"
  const MaxHeightZero: string := "max-height:0"

  /** website_to_pdf.py:79-80, on `tag.get("style", "")`: the style hides or collapses the element. */
  predicate HidesContent(style: Option<string>) {
    var s := style.GetOr("");
    IsSubstring(DisplayNone, s) || IsSubstring(MaxHeightZero, s)
  }

  /** An element as website_to_pdf.py:78-81 leaves it: a matched element that hides its content gets an empty style. */
  function Cleared(t: Tag): Tag {
    if IsAccordion(t) && HidesContent(t.style) then t.(style := Some("")) else t
  }

  /** The positions, in document order, of the elements the loop appends to `matched`. */
  function Matched(page: seq<Tag>): seq<nat> {
    Where(page, IsAccordion)
  }

  /** The text pieces of the wrapper of website_to_pdf.py:85 and of the f-string of website_to_pdf.py:88-98. */
  const BlockOpen: string := "<div style='margin-bottom:10px;padding:10px;border:1px solid #ccc;font-family:sans-serif;'>"
  const BlockClose: string := "</div>"
  const HeaderOpen: string := "<h2>Accordion Content from "
  const HeaderClose: string := "</h2>"
  const DocOpen: string := "\n    <html>\n    <head>\n        <style>body { font-family: sans-serif; padding: 20px; }</style>\n    </head>\n    <body>\n        "
  const DocMid: string := "\n        "
  const DocClose: string := "\n    </body>\n    </html>\n    "

  /** One matched element's inner HTML in its wrapper (website_to_pdf.py:85). */
  function Block(contents: string): string {
    BlockOpen + contents + BlockClose
  }

  /** `''.join(html_blocks)` (website_to_pdf.py:84-87, 95). */
  function Blocks(contents: seq<string>): string {
    if contents == [] then "" else Block(contents[0]) + Blocks(contents[1..])
  }

  /** The header line of the document, naming the page (website_to_pdf.py:94). */
  function Header(url: string): string {
    HeaderOpen + url + HeaderClose
  }

  /** The f-string of website_to_pdf.py:88-98, character for character. */
  function Document(url: string, contents: seq<string>): string {
    DocOpen + Header(url) + DocMid + Blocks(contents) + DocClose
  }

  /** `[el.decode_contents() for el in matched]` on the document `soup`. */
  function InnerHtml(soup: seq<Tag>, decode: (seq<Tag>, nat) -> string, matched: seq<nat>): seq<string> {
    seq(|matched|, j requires 0 <= j < |matched| => decode(soup, matched[j]))
  }

  /**
   * The loop of website_to_pdf.py:76-82: walks the page in document order,
   * clears the style of each matched element that hides it, and collects the
   * matched elements.
   */
  method ClearAndCollect(page: seq<Tag>) returns (dom: seq<Tag>, matched: seq<nat>)
    ensures |dom| == |page|
    ensures forall k :: 0 <= k < |page| ==> dom[k] == Cleared(page[k])
    ensures matched == Matched(page)
  {
    dom := page;
    matched := [];
    var k := 0;
    while k < |dom|
      invariant 0 <= k <= |page| == |dom|
      invariant matched == Matched(page[..k])
      invariant forall j :: k <= j < |page| ==> dom[j] == page[j]
      invariant forall j :: 0 <= j < k ==> dom[j] == Cleared(page[j])
    {
      MatchedStep(page, k);
      var tag := dom[k];
      if IsAccordion(tag) {
        if HidesContent(tag.style) {
          dom := dom[k := tag.(style := Some(""))];
        }
        matched := matched + [k];
      }
      k := k + 1;
    }
    assert page[..k] == page;
  }

  /** The next element joins the matched ones exactly when one of its classes is a marker. */
  lemma MatchedStep(page: seq<Tag>, k: nat)
    requires k < |page|
    ensures Matched(page[..k + 1]) == Matched(page[..k]) + if IsAccordion(page[k]) then [k] else []
  {
    WhereSnoc(page[..k], page[k], IsAccordion);
    assert page[..k + 1] == page[..k] + [page[k]];
  }

  /**
   * `extract_accordion_html(url)` on the parsed page `page`. Returns the document
   * (`None` when no class value mentions a marker) and, as `soup`, the page as
   * the extraction leaves it.
   */
  method ExtractAccordionHtml(url: string, page: seq<Tag>, decode: (seq<Tag>, nat) -> string)
    returns (html: Option<string>, ghost soup: seq<Tag>)
    ensures html.None? <==> !FoundAny(page)
    ensures |soup| == |page|
    ensures forall k :: 0 <= k < |page| ==> soup[k] == if FoundAny(page) then Cleared(page[k]) else page[k]
    ensures html.Some? ==> html.value == Document(url, InnerHtml(soup, decode, Matched(page)))
    ensures html.Some? ==> html.value != ""
  {
    if !FoundAny(page) {
      return None, page;
    }
    var dom, matched := ClearAndCollect(page);
    soup := dom;
    html := Some(Document(url, InnerHtml(dom, decode, matched)));
  }

  /** Clearing keeps the classes, hence which elements match and whether the filter finds any. */
  lemma ClearedKeepsClasses(page: seq<Tag>)
    ensures forall k :: 0 <= k < |page| ==> Cleared(page[k]).classes == page[k].classes
    ensures Matched(seq(|page|, k requires 0 <= k < |page| => Cleared(page[k]))) == Matched(page)
    ensures FoundAny(seq(|page|, k requires 0 <= k < |page| => Cleared(page[k]))) == FoundAny(page)
  {
    var dom := seq(|page|, k requires 0 <= k < |page| => Cleared(page[k]));
    SameClassesSameMatch(page, dom);
    forall k | 0 <= k < |page| ensures MentionsMarker(dom[k]) == MentionsMarker(page[k]) {
      assert dom[k].classes == page[k].classes;
    }
  }

  /** Two pages whose elements carry the same classes match at the same positions. */
  lemma {:induction false} SameClassesSameMatch(p: seq<Tag>, q: seq<Tag>)
    requires |p| == |q| && forall k :: 0 <= k < |p| ==> p[k].classes == q[k].classes
    ensures Matched(p) == Matched(q)
    decreases |p|
  {
    if p != [] {
      var n := |p| - 1;
      SameClassesSameMatch(p[..n], q[..n]);
      assert p == p[..n] + [p[n]] && q == q[..n] + [q[n]];
      WhereSnoc(p[..n], p[n], IsAccordion);
      WhereSnoc(q[..n], q[n], IsAccordion);
      assert IsAccordion(p[n]) == IsAccordion(q[n]);
    }
  }

  /** After clearing, no matched element hides its content. */
  lemma ClearedShowsMatched(t: Tag)
    requires IsAccordion(Cleared(t))
    ensures !HidesContent(Cleared(t).style)
  {
  }

  /** Clearing a second time changes nothing. */
  lemma ClearedIdempotent(t: Tag)
    ensures Cleared(Cleared(t)) == Cleared(t)
  {
  }

  /** An element whose class is exactly a marker also passes the substring filter. */
  lemma AccordionMentionsMarker(t: Tag)
    requires IsAccordion(t)
    ensures MentionsMarker(t)
  {
    var i :| 0 <= i < |t.classes| && t.classes[i] in AccordionClasses;
    assert IsPrefix(t.classes[i], t.classes[i]);
  }

  /** Hence a page with a matched element always yields a document. */
  lemma MatchedImpliesFound(page: seq<Tag>)
    requires Matched(page) != []
    ensures FoundAny(page)
  {
    var k := Matched(page)[0];
    AccordionMentionsMarker(page[k]);
  }

  /**
   * A page whose only accordion-like class is `accordion-header` passes the
   * substring filter but has no exactly matching element: its document holds
   * the header and no block.
   */
  lemma HeaderOnlyPage(decode: (seq<Tag>, nat) -> string)
    ensures FoundAny([Tag(["accordion-header"], None)])
    ensures Matched([Tag(["accordion-header"], None)]) == []
    ensures InnerHtml([Tag(["accordion-header"], None)], decode, Matched([Tag(["accordion-header"], None)])) == []
  {
    var t := Tag(["accordion-header"], None);
    assert IsPrefix("accordion", t.classes[0]);
    assert MentionsMarker(t);
    assert !IsAccordion(t);
    assert Matched([t]) == Where([t][..0], IsAccordion);
  }

  /** A visible accordion element still yields a document that holds it. */
  lemma VisibleAccordionCounts(page: seq<Tag>, k: nat)
    requires k < |page| && IsAccordion(page[k]) && !HidesContent(page[k].style)
    ensures FoundAny(page) && k in Matched(page)
  {
    AccordionMentionsMarker(page[k]);
  }
}
