/** Text extraction as `Document.processDocument` performs it: the PDF reader
    is an external capability that either fails on the stored bytes or yields
    one text per page, and the extracted text is those page texts joined in
    page order with no separator. */
module Extraction {

  datatype Option<+T> = None | Some(value: T)

  /** What the PDF reader makes of a blob. */
  datatype PdfPages = Unreadable | Pages(texts: seq<string>)

  /** Page texts joined left to right, the way `text += page` accumulates them. */
  function Concat(pages: seq<string>): (r: string)
    ensures |r| == TotalLength(pages)
  {
    if pages == [] then "" else Concat(pages[..|pages| - 1]) + pages[|pages| - 1]
  }

  /** The extraction result for a blob the reader has parsed. */
  function ExtractText(p: PdfPages): (r: Option<string>)
    ensures r.Some? <==> p.Pages?
  {
    match p
    case Unreadable => None
    case Pages(texts) => Some(Concat(texts))
  }

  /** A one-page document's text is that page's text. */
  lemma ConcatSingle(page: string)
    ensures Concat([page]) == page
  {
    assert [page][..0] == [];
    assert "" + page == page;
  }

  /** Whether extraction ends with text that the pipeline goes on to index:
      Python treats both None and the empty string as false. */
  predicate YieldsText(p: PdfPages)
  {
    p.Pages? && Concat(p.texts) != ""
  }

  /** Joining is a homomorphism from page lists to strings. */
  lemma {:induction false} ConcatAppend(a: seq<string>, b: seq<string>)
    ensures Concat(a + b) == Concat(a) + Concat(b)
    decreases |b|
  {
    if b == [] {
      assert a + b == a;
    } else {
      var b' := b[..|b| - 1];
      assert (a + b)[..|a + b| - 1] == a + b';
      ConcatAppend(a, b');
    }
  }

  /** Page `k` appears whole, after every earlier page and before every later one. */
  lemma {:induction false} PageInOrder(pages: seq<string>, k: nat)
    requires k < |pages|
    ensures Concat(pages) == Concat(pages[..k]) + pages[k] + Concat(pages[k + 1..])
  {
    var before, page, after := pages[..k], pages[k], pages[k + 1..];
    var upTo := before + [page];
    assert pages == upTo + after;
    ConcatAppend(upTo, after);
    assert upTo[..|upTo| - 1] == before;
    assert Concat(upTo) == Concat(before) + page;
  }

  /** The extracted text is empty exactly when every page is empty (including
      the document with no pages): the case the pipeline treats as a failed
      extraction. */
  lemma {:induction false} ConcatEmpty(pages: seq<string>)
    ensures Concat(pages) == "" <==> forall i :: 0 <= i < |pages| ==> pages[i] == ""
  {
    if pages != [] {
      var init := pages[..|pages| - 1];
      ConcatEmpty(init);
      assert forall i :: 0 <= i < |init| ==> init[i] == pages[i];
    }
  }

  /** The sum of the page lengths. */
  function TotalLength(pages: seq<string>): nat
  {
    if pages == [] then 0 else TotalLength(pages[..|pages| - 1]) + |pages[|pages| - 1]|
  }
}
