/** `extract_text_from_pdf`: the text of a PDF, page after page. The PDF is given as what
    `page.extract_text()` returned for each page, in order: a string, or None. */
module Extract {
  import opened Wrappers
  import opened StringJoin

  /** `if text:` — a page counts when its extracted text is present and not empty. */
  predicate HasText(page: Option<string>) {
    page.Some? && page.value != ""
  }

  /** What one page adds to the result: its text and a line break, or nothing. */
  function PageContribution(page: Option<string>): string {
    if HasText(page) then page.value + "\n" else ""
  }

  /** The accumulated text after the given pages, the last page added last. */
  function PagesText(pages: seq<Option<string>>): string {
    if pages == [] then "" else PagesText(pages[..|pages| - 1]) + PageContribution(pages[|pages| - 1])
  }

  /** The texts of the pages that have text, in page order. */
  function PageTexts(pages: seq<Option<string>>): (texts: seq<string>)
    ensures forall i :: 0 <= i < |texts| ==> texts[i] != ""
    ensures |texts| <= |pages|
  {
    if pages == [] then []
    else if HasText(pages[0]) then [pages[0].value] + PageTexts(pages[1..])
    else PageTexts(pages[1..])
  }

  /** Each text followed by a line break, laid end to end. */
  function Lines(texts: seq<string>): string {
    if texts == [] then "" else texts[0] + "\n" + Lines(texts[1..])
  }

  /** The loop of `extract_text_from_pdf`: walks the pages in order and appends each
      non-empty page text and a line break to the accumulator; the accumulator only grows
      at its end. */
  method ExtractTextFromPdf(pages: seq<Option<string>>) returns (fullText: string)
    ensures fullText == PagesText(pages)
  {
    fullText := "";
    var i := 0;
    while i < |pages|
      invariant 0 <= i <= |pages|
      invariant fullText == PagesText(pages[..i])
      invariant fullText <= PagesText(pages)
    {
      var text := pages[i];
      assert pages[..i + 1][..i] == pages[..i];
      if HasText(text) {
        fullText := fullText + text.value + "\n";
      }
      PagesTextPrefix(pages, i + 1);
      i := i + 1;
    }
    assert pages[..i] == pages;
  }

  /** Text of consecutive runs of pages is the text of the first run followed by that of the second. */
  lemma {:induction false} PagesTextAppend(a: seq<Option<string>>, b: seq<Option<string>>)
    ensures PagesText(a + b) == PagesText(a) + PagesText(b)
    decreases |b|
  {
    if b == [] {
      assert a + b == a;
    } else {
      var b', last := b[..|b| - 1], b[|b| - 1];
      var ab := a + b;
      assert ab[..|ab| - 1] == a + b';
      assert ab[|ab| - 1] == last;
      PagesTextAppend(a, b');
      calc {
        PagesText(ab);
        PagesText(a + b') + PageContribution(last);
        PagesText(a) + PagesText(b') + PageContribution(last);
        PagesText(a) + PagesText(b);
      }
    }
  }

  /** The text of the first `n` pages is a prefix of the text of all pages. */
  lemma PagesTextPrefix(pages: seq<Option<string>>, n: nat)
    requires n <= |pages|
    ensures PagesText(pages[..n]) <= PagesText(pages)
  {
    var head, tail := pages[..n], pages[n..];
    assert head + tail == pages;
    PagesTextAppend(head, tail);
    var x, y := PagesText(head), PagesText(tail);
    assert PagesText(pages) == x + y;
    assert (x + y)[..|x|] == x;
  }

  /** The text of a single page is that page's contribution. */
  lemma PagesTextSingle(p: Option<string>)
    ensures PagesText([p]) == PageContribution(p)
  {
    assert [p][..0] == [];
  }

  /** The result is the in-order concatenation of `text + "\n"` over the pages that have text. */
  lemma {:induction false} PagesTextIsLines(pages: seq<Option<string>>)
    ensures PagesText(pages) == Lines(PageTexts(pages))
    decreases |pages|
  {
    if pages != [] {
      PagesTextIsLines(pages[1..]);
      PagesTextAppend([pages[0]], pages[1..]);
      assert [pages[0]] + pages[1..] == pages;
      PagesTextSingle(pages[0]);
    }
  }

  /** A page without text, wherever it stands, contributes nothing. */
  lemma TextlessPageAddsNothing(before: seq<Option<string>>, page: Option<string>, after: seq<Option<string>>)
    requires !HasText(page)
    ensures PagesText(before + [page] + after) == PagesText(before + after)
  {
    PagesTextAppend(before + [page], after);
    PagesTextAppend(before, [page]);
    PagesTextSingle(page);
    PagesTextAppend(before, after);
  }

  /** The result is empty exactly when no page has text, which is how the ingestion script
      detects a PDF with nothing to index. */
  lemma {:induction false} PagesTextEmptyIff(pages: seq<Option<string>>)
    ensures PagesText(pages) == "" <==> forall i :: 0 <= i < |pages| ==> !HasText(pages[i])
    decreases |pages|
  {
    if pages != [] {
      var init := pages[..|pages| - 1];
      PagesTextEmptyIff(init);
      assert forall i :: 0 <= i < |init| ==> init[i] == pages[i];
    }
  }

  /** Zero pages, or only pages without text, give the empty string. */
  lemma NoTextNoResult(pages: seq<Option<string>>)
    requires forall i :: 0 <= i < |pages| ==> pages[i] == None || pages[i] == Some("")
    ensures PagesText(pages) == ""
  {
    PagesTextEmptyIff(pages);
  }

  /** The length of the result is the sum of `|text| + 1` over the pages that have text. */
  lemma {:induction false} PagesTextLength(pages: seq<Option<string>>)
    ensures |PagesText(pages)| == TotalLength(PageTexts(pages)) + |PageTexts(pages)|
  {
    PagesTextIsLines(pages);
    LinesLength(PageTexts(pages));
  }

  lemma {:induction false} LinesLength(texts: seq<string>)
    ensures |Lines(texts)| == TotalLength(texts) + |texts|
  {
    if texts != [] {
      LinesLength(texts[1..]);
    }
  }
}
