/** The page chunker: every existing PDF is read page by page, every non-empty page is cut
    at half its length, and both halves are labelled with the file name and page number. */
module PdfChunker {
  import opened Common

  /** The PDF files on disk: each existing file name maps to the extracted text of its pages. */
  type Documents = map<string, seq<string>>

  /** A non-empty page as extracted: its label and its whole text. */
  datatype PageText = PageText(source: string, text: string)

  // ---------------------------------------------------------------- labels

  function Digit(d: nat): (c: char)
    requires d < 10
    ensures '0' <= c <= '9'
  {
    "0123456789"[d]
  }

  function DigitValue(c: char): nat
    requires '0' <= c <= '9'
  {
    (c as int - '0' as int) as nat
  }

  predicate AllDigits(s: string)
  {
    forall i :: 0 <= i < |s| ==> '0' <= s[i] <= '9'
  }

  /** Python's str() of a natural number: its decimal digits. */
  function Decimal(n: nat): (s: string)
    ensures |s| >= 1 && AllDigits(s)
  {
    if n < 10 then [Digit(n)] else Decimal(n / 10) + [Digit(n % 10)]
  }

  /** Reads a string of decimal digits back as a number. */
  function ParseDecimal(s: string): nat
    requires AllDigits(s)
  {
    if s == [] then 0 else ParseDecimal(s[..|s| - 1]) * 10 + DigitValue(s[|s| - 1])
  }

  lemma {:induction false} DecimalRoundTrip(n: nat)
    ensures ParseDecimal(Decimal(n)) == n
  {
    if n >= 10 {
      var s := Decimal(n);
      assert s[..|s| - 1] == Decimal(n / 10);
      DecimalRoundTrip(n / 10);
    }
  }

  const PageWord := ", стр. "

  /** The label of page `page` (counted from 0) of `filename`: f"{filename}, стр. {page+1}". */
  function Label(filename: string, page: nat): string
  {
    filename + PageWord + Decimal(page + 1)
  }

  /** Two pages of one file never share a label. */
  lemma LabelInjective(filename: string, i: nat, j: nat)
    requires Label(filename, i) == Label(filename, j)
    ensures i == j
  {
    var k := |filename + PageWord|;
    assert Label(filename, i)[k..] == Decimal(i + 1);
    assert Label(filename, j)[k..] == Decimal(j + 1);
    DecimalRoundTrip(i + 1);
    DecimalRoundTrip(j + 1);
  }

  // ---------------------------------------------------------------- the chunker, as a specification

  /** The chunks of page `page` of `filename`: none for an empty text, otherwise
      text[:mid] and text[mid:] with mid = len(text) // 2, both with the page's label. */
  function PageChunks(filename: string, page: nat, text: string): seq<Chunk>
  {
    if text == "" then []
    else
      var mid := |text| / 2;
      [Chunk(text[..mid], Label(filename, page), None), Chunk(text[mid..], Label(filename, page), None)]
  }

  /** The chunks of all pages of one file, in page order. */
  function PagesChunks(filename: string, pages: seq<string>): seq<Chunk>
  {
    if pages == [] then []
    else PagesChunks(filename, pages[..|pages| - 1]) + PageChunks(filename, |pages| - 1, pages[|pages| - 1])
  }

  /** The chunks of one file name: none when the file does not exist. */
  function FileChunks(docs: Documents, filename: string): seq<Chunk>
  {
    if filename in docs then PagesChunks(filename, docs[filename]) else []
  }

  /** What get_pdf_chunks(filenames) returns: the files' chunks in file order. */
  function PdfChunks(docs: Documents, filenames: seq<string>): seq<Chunk>
  {
    if filenames == [] then []
    else PdfChunks(docs, filenames[..|filenames| - 1]) + FileChunks(docs, filenames[|filenames| - 1])
  }

  // ---------------------------------------------------------------- the chunker, as a loop

  /** get_pdf_chunks: nested loops over the files and their pages that append to `chunks`. */
  method GetPdfChunks(docs: Documents, filenames: seq<string>) returns (chunks: seq<Chunk>)
    ensures chunks == PdfChunks(docs, filenames)
  {
    chunks := [];
    for k := 0 to |filenames|
      invariant chunks == PdfChunks(docs, filenames[..k])
    {
      var filename := filenames[k];
      ghost var before := chunks;
      if filename in docs {
        var pages := docs[filename];
        for i := 0 to |pages|
          invariant chunks == before + PagesChunks(filename, pages[..i])
        {
          var text := pages[i];
          assert PagesChunks(filename, pages[..i + 1]) == PagesChunks(filename, pages[..i]) + PageChunks(filename, i, text) by {
            assert pages[..i + 1][..i] == pages[..i];
          }
          if text != "" {
            var mid := |text| / 2;
            chunks := chunks + [Chunk(text[..mid], Label(filename, i), None)];
            chunks := chunks + [Chunk(text[mid..], Label(filename, i), None)];
          }
        }
        assert pages[..|pages|] == pages;
      }
      assert chunks == before + FileChunks(docs, filename);
      assert PdfChunks(docs, filenames[..k + 1]) == PdfChunks(docs, filenames[..k]) + FileChunks(docs, filename) by {
        assert filenames[..k + 1][..k] == filenames[..k];
      }
    }
    assert filenames[..|filenames|] == filenames;
  }

  // ---------------------------------------------------------------- what the chunks are made of

  /** The non-empty pages of one file with their labels, in page order. */
  function NonEmptyPages(filename: string, pages: seq<string>): seq<PageText>
  {
    if pages == [] then []
    else
      var last := pages[|pages| - 1];
      NonEmptyPages(filename, pages[..|pages| - 1])
        + (if last == "" then [] else [PageText(Label(filename, |pages| - 1), last)])
  }

  /** The non-empty pages of all existing files, in file order and then page order. */
  function ExtractedPages(docs: Documents, filenames: seq<string>): seq<PageText>
  {
    if filenames == [] then []
    else
      var f := filenames[|filenames| - 1];
      ExtractedPages(docs, filenames[..|filenames| - 1])
        + (if f in docs then NonEmptyPages(f, docs[f]) else [])
  }

  /** Number of non-empty pages, counted independently from the front. */
  function CountNonEmpty(pages: seq<string>): nat
  {
    if pages == [] then 0 else (if pages[0] == "" then 0 else 1) + CountNonEmpty(pages[1..])
  }

  /** Number of non-empty pages over all existing files. */
  function CountPages(docs: Documents, filenames: seq<string>): nat
  {
    if filenames == [] then 0
    else (if filenames[0] in docs then CountNonEmpty(docs[filenames[0]]) else 0) + CountPages(docs, filenames[1..])
  }

  /** `first` and `second` are the two halves of `page`: same label, no vector yet,
      texts that concatenate back to the page, the first cut at len // 2. */
  predicate HalvesOfPage(first: Chunk, second: Chunk, page: PageText)
  {
    && first.source == page.source && second.source == page.source
    && first.vector == None && second.vector == None
    && first.text + second.text == page.text
    && |first.text| == |page.text| / 2
  }

  /** `chunks` is the pages cut in two, page p giving chunks 2p and 2p+1. */
  predicate Halves(chunks: seq<Chunk>, pages: seq<PageText>)
  {
    |chunks| == 2 * |pages| &&
    forall p :: 0 <= p < |pages| ==> HalvesOfPage(chunks[2 * p], chunks[2 * p + 1], pages[p])
  }

  lemma HalvesAppend(c1: seq<Chunk>, p1: seq<PageText>, c2: seq<Chunk>, p2: seq<PageText>)
    requires Halves(c1, p1) && Halves(c2, p2)
    ensures Halves(c1 + c2, p1 + p2)
  {
    var c, ps := c1 + c2, p1 + p2;
    forall p | 0 <= p < |ps|
      ensures HalvesOfPage(c[2 * p], c[2 * p + 1], ps[p])
    {
      if p < |p1| {
        assert c[2 * p] == c1[2 * p] && c[2 * p + 1] == c1[2 * p + 1];
      } else {
        var q := p - |p1|;
        assert c[2 * p] == c2[2 * q] && c[2 * p + 1] == c2[2 * q + 1] && ps[p] == p2[q];
      }
    }
  }

  lemma PageHalves(filename: string, page: nat, text: string)
    ensures Halves(PageChunks(filename, page, text), if text == "" then [] else [PageText(Label(filename, page), text)])
  {
    if text != "" {
      var mid := |text| / 2;
      assert text[..mid] + text[mid..] == text;
    }
  }

  lemma {:induction false} PagesHalves(filename: string, pages: seq<string>)
    ensures Halves(PagesChunks(filename, pages), NonEmptyPages(filename, pages))
  {
    if pages != [] {
      var n := |pages| - 1;
      PagesHalves(filename, pages[..n]);
      PageHalves(filename, n, pages[n]);
      HalvesAppend(PagesChunks(filename, pages[..n]), NonEmptyPages(filename, pages[..n]),
                   PageChunks(filename, n, pages[n]), if pages[n] == "" then [] else [PageText(Label(filename, n), pages[n])]);
    }
  }

  /** The main chunker property: the output is exactly the non-empty pages of the existing
      files, in file order and page order, each cut into two consecutive halves that carry the
      page's label and concatenate back to the page's text, the first of length len // 2. */
  lemma {:induction false} ChunksAreHalvesOfPages(docs: Documents, filenames: seq<string>)
    ensures Halves(PdfChunks(docs, filenames), ExtractedPages(docs, filenames))
  {
    if filenames != [] {
      var n := |filenames| - 1;
      var f := filenames[n];
      ChunksAreHalvesOfPages(docs, filenames[..n]);
      if f in docs {
        PagesHalves(f, docs[f]);
        HalvesAppend(PdfChunks(docs, filenames[..n]), ExtractedPages(docs, filenames[..n]),
                     PagesChunks(f, docs[f]), NonEmptyPages(f, docs[f]));
      } else {
        assert PdfChunks(docs, filenames) == PdfChunks(docs, filenames[..n]);
        assert ExtractedPages(docs, filenames) == ExtractedPages(docs, filenames[..n]);
      }
    }
  }

  /** A one-page file whose page reads "AAAA" gives two chunks "AA", both labelled page 1. */
  lemma FourLetterPage()
    ensures PdfChunks(map["Report.pdf" := ["AAAA"]], ["Report.pdf"])
            == [Chunk("AA", "Report.pdf, стр. 1", None), Chunk("AA", "Report.pdf, стр. 1", None)]
  {
    var docs := map["Report.pdf" := ["AAAA"]];
    var pages := ["AAAA"];
    assert Decimal(1) == "1";
    assert Label("Report.pdf", 0) == "Report.pdf, стр. 1";
    assert "AAAA"[..2] == "AA" && "AAAA"[2..] == "AA";
    assert pages[..0] == [];
    assert PagesChunks("Report.pdf", pages) == PageChunks("Report.pdf", 0, "AAAA");
    assert ["Report.pdf"][..0] == [];
    assert PdfChunks(docs, ["Report.pdf"]) == FileChunks(docs, "Report.pdf");
  }

  // ---------------------------------------------------------------- reassembly

  /** The inverse of the chunker: glue each consecutive pair back into one labelled page. */
  function Rejoin(chunks: seq<Chunk>): seq<PageText>
  {
    if |chunks| < 2 then []
    else
      var n := |chunks|;
      Rejoin(chunks[..n - 2]) + [PageText(chunks[n - 2].source, chunks[n - 2].text + chunks[n - 1].text)]
  }

  lemma {:induction false} RejoinHalves(chunks: seq<Chunk>, pages: seq<PageText>)
    requires Halves(chunks, pages)
    ensures Rejoin(chunks) == pages
  {
    if pages != [] {
      var m := |pages| - 1;
      assert Halves(chunks[..2 * m], pages[..m]) by {
        forall p | 0 <= p < m
          ensures HalvesOfPage(chunks[..2 * m][2 * p], chunks[..2 * m][2 * p + 1], pages[..m][p])
        {
          assert HalvesOfPage(chunks[2 * p], chunks[2 * p + 1], pages[p]);
        }
      }
      RejoinHalves(chunks[..2 * m], pages[..m]);
      assert HalvesOfPage(chunks[2 * m], chunks[2 * m + 1], pages[m]);
      assert pages == pages[..m] + [pages[m]];
    }
  }

  /** Round trip: gluing the chunker's output back pairwise gives the non-empty pages. */
  lemma ChunkerRoundTrip(docs: Documents, filenames: seq<string>)
    ensures Rejoin(PdfChunks(docs, filenames)) == ExtractedPages(docs, filenames)
  {
    ChunksAreHalvesOfPages(docs, filenames);
    RejoinHalves(PdfChunks(docs, filenames), ExtractedPages(docs, filenames));
  }

  // ---------------------------------------------------------------- counting

  lemma {:induction false} CountAppend(pages: seq<string>, more: seq<string>)
    ensures CountNonEmpty(pages + more) == CountNonEmpty(pages) + CountNonEmpty(more)
  {
    if pages != [] {
      assert (pages + more)[0] == pages[0];
      assert (pages + more)[1..] == pages[1..] + more;
      CountAppend(pages[1..], more);
    } else {
      assert pages + more == more;
    }
  }

  lemma {:induction false} NonEmptyPagesCount(filename: string, pages: seq<string>)
    ensures |NonEmptyPages(filename, pages)| == CountNonEmpty(pages)
  {
    if pages != [] {
      var n := |pages| - 1;
      NonEmptyPagesCount(filename, pages[..n]);
      CountAppend(pages[..n], [pages[n]]);
      assert pages[..n] + [pages[n]] == pages;
    }
  }

  lemma {:induction false} CountPagesAppend(docs: Documents, filenames: seq<string>, f: string)
    ensures CountPages(docs, filenames + [f]) == CountPages(docs, filenames) + CountPages(docs, [f])
  {
    if filenames != [] {
      assert (filenames + [f])[1..] == filenames[1..] + [f];
      CountPagesAppend(docs, filenames[1..], f);
    }
  }

  /** Missing files and empty pages contribute nothing: the chunk count is twice the
      number of non-empty pages of the existing files. */
  lemma {:induction false} ChunkCount(docs: Documents, filenames: seq<string>)
    ensures |PdfChunks(docs, filenames)| == 2 * CountPages(docs, filenames)
  {
    if filenames != [] {
      var n := |filenames| - 1;
      var f := filenames[n];
      ChunkCount(docs, filenames[..n]);
      CountPagesAppend(docs, filenames[..n], f);
      assert filenames[..n] + [f] == filenames;
      ChunksAreHalvesOfPages(docs, [f]);
      if f in docs {
        PagesHalves(f, docs[f]);
        NonEmptyPagesCount(f, docs[f]);
        assert CountPages(docs, [f]) == CountNonEmpty(docs[f]) + CountPages(docs, []);
      }
    }
  }
}
