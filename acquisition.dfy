/**
 * Text acquisition (pdfextract.py:49-72). The PDF and OCR libraries are not
 * part of this model: what they return is a parameter. A document is `None`
 * when opening or reading it raised (the `except` branch returns `None`), and
 * otherwise the list of what each page yielded.
 */
module Acquisition {
  import opened Options

  /** `page.extract_text() or ""`: a page without a text layer contributes
      the empty string. */
  function PageText(page: Option<string>): string {
    match page
    case None => []
    case Some(t) => t
  }

  /** The page texts, page by page. */
  function PageTexts(pages: seq<Option<string>>): seq<string> {
    seq(|pages|, k requires 0 <= k < |pages| => PageText(pages[k]))
  }

  /** The texts joined in order, with no separator. */
  function Concat(texts: seq<string>): string {
    if texts == [] then [] else Concat(texts[..|texts| - 1]) + texts[|texts| - 1]
  }

  /** Joining two lists of texts is joining the two joins. */
  lemma {:induction false} ConcatAppend(a: seq<string>, b: seq<string>)
    ensures Concat(a + b) == Concat(a) + Concat(b)
    decreases |b|
  {
    if b == [] {
      assert a + b == a;
    } else {
      var init := b[..|b| - 1];
      assert (a + b)[..|a + b| - 1] == a + init;
      assert (a + b)[|a + b| - 1] == b[|b| - 1];
      ConcatAppend(a, init);
    }
  }

  /** Text k sits in the join right after the texts before it: the join
      keeps page order and adds nothing between pages. */
  lemma ConcatPartAt(texts: seq<string>, k: nat)
    requires k < |texts|
    ensures var lo := |Concat(texts[..k])|;
      lo + |texts[k]| <= |Concat(texts)| && Concat(texts)[lo..lo + |texts[k]|] == texts[k]
  {
    assert texts == texts[..k] + [texts[k]] + texts[k + 1..];
    ConcatAppend(texts[..k] + [texts[k]], texts[k + 1..]);
    ConcatAppend(texts[..k], [texts[k]]);
    assert Concat([texts[k]]) == Concat([]) + texts[k];
  }

  /** The length of the join is the sum of the lengths. */
  function TotalLength(texts: seq<string>): nat {
    if texts == [] then 0 else TotalLength(texts[..|texts| - 1]) + |texts[|texts| - 1]|
  }

  lemma {:induction false} ConcatLength(texts: seq<string>)
    ensures |Concat(texts)| == TotalLength(texts)
  {
    if texts != [] {
      ConcatLength(texts[..|texts| - 1]);
    }
  }

  /** The join is empty exactly when every text is. */
  lemma {:induction false} ConcatEmpty(texts: seq<string>)
    ensures Concat(texts) == [] <==> forall k :: 0 <= k < |texts| ==> texts[k] == []
  {
    if texts != [] {
      var init := texts[..|texts| - 1];
      ConcatEmpty(init);
      if Concat(texts) == [] {
        forall k | 0 <= k < |texts| ensures texts[k] == [] {
          if k < |init| {
            assert texts[k] == init[k];
          }
        }
      } else {
        assert Concat(init) != [] || texts[|texts| - 1] != [];
      }
    }
  }

  /** What `extract_text_pdf` returns for a document. */
  function TextLayer(doc: Option<seq<Option<string>>>): Option<string> {
    match doc
    case None => None
    case Some(pages) => Some(Concat(PageTexts(pages)))
  }

  /** What `extract_text_ocr` returns for the page images' OCR results. */
  function OcrText(scans: Option<seq<string>>): Option<string> {
    match scans
    case None => None
    case Some(texts) => Some(Concat(texts))
  }

  /** The page loop of `extract_text_pdf` (pdfextract.py:52-56). */
  method ExtractTextPdf(doc: Option<seq<Option<string>>>) returns (text: Option<string>)
    ensures text == TextLayer(doc)
  {
    if doc.None? {
      return None;
    }
    var pages := doc.value;
    var acc := "";
    for k := 0 to |pages|
      invariant acc == Concat(PageTexts(pages)[..k])
    {
      assert PageTexts(pages)[..k + 1][..k] == PageTexts(pages)[..k];
      acc := acc + PageText(pages[k]);
    }
    assert PageTexts(pages)[..|pages|] == PageTexts(pages);
    return Some(acc);
  }

  /** The image loop of `extract_text_ocr` (pdfextract.py:65-69). */
  method ExtractTextOcr(scans: Option<seq<string>>) returns (text: Option<string>)
    ensures text == OcrText(scans)
  {
    if scans.None? {
      return None;
    }
    var texts := scans.value;
    var acc := "";
    for k := 0 to |texts|
      invariant acc == Concat(texts[..k])
    {
      assert texts[..k + 1][..k] == texts[..k];
      acc := acc + texts[k];
    }
    assert texts[..|texts|] == texts;
    return Some(acc);
  }

  /** Page k's text (empty for a page without a text layer) sits in the
      text layer right after the texts of the pages before it, with nothing
      in between. */
  lemma TextLayerPageAt(pages: seq<Option<string>>, k: nat)
    requires k < |pages|
    ensures var text, lo := TextLayer(Some(pages)).value, |Concat(PageTexts(pages[..k]))|;
      var page := if pages[k].Some? then pages[k].value else "";
      lo + |page| <= |text| && text[lo..lo + |page|] == page
  {
    var texts := PageTexts(pages);
    assert texts[..k] == PageTexts(pages[..k]);
    ConcatPartAt(texts, k);
  }

  /** A readable document yields a text (possibly empty) whose pages appear
      in order; it is empty exactly when no page has any text. */
  lemma TextLayerPages(pages: seq<Option<string>>)
    ensures TextLayer(Some(pages)).Some?
    ensures TextLayer(Some(pages)).value == [] <==>
      forall k :: 0 <= k < |pages| ==> pages[k].None? || pages[k].value == []
  {
    var texts := PageTexts(pages);
    ConcatEmpty(texts);
    forall k | 0 <= k < |pages| ensures texts[k] == [] <==> pages[k].None? || pages[k].value == [] {
      assert texts[k] == PageText(pages[k]);
    }
  }
}
