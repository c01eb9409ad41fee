/**
 * The writing screen of components/Dashboard.tsx: the generate handler's
 * state fields, and the table of contents and chapter headings it renders
 * for a finished manuscript.
 *
 * The progress callback writes each status into `status`; in this model the
 * statuses are the `Reported` events the generator appends to the host's
 * trace, and `status` itself is only observable once the handler has
 * cleared it.
 */
module Dashboard {
  import opened Wrappers
  import opened Text
  import opened Types
  import opened Gemini

  const MissingInput: string := "Judul dan Penulis wajib diisi."
  const GenerateFailed: string := "Terjadi kesalahan saat generate naskah."

  /** `err.message || default`: an empty message gives the default text. */
  function ErrorText(message: string): (t: string)
    ensures t != ""
    ensures message != "" ==> t == message
    ensures message == "" ==> t == GenerateFailed
  {
    if message != "" then message else GenerateFailed
  }

  /** The generate form's state. */
  class Writer {
    var title: string
    var author: string
    var isLoading: bool
    var status: string
    var result: Option<BookContent>
    var error: string

    constructor ()
      ensures title == "" && author == "" && !isLoading && status == "" && result == None && error == ""
    {
      title := "";
      author := "";
      isLoading := false;
      status := "";
      result := None;
      error := "";
    }

    /**
     * handleGenerate: a missing title or author only sets the validation
     * error. Otherwise the generator runs; its manuscript or its error text
     * is kept, and loading ends with the status cleared.
     */
    method HandleGenerate(host: Host, parse: string -> Parsed, ghost wrapped: nat -> CallRun)
      requires Wraps(wrapped, host.client)
      modifies this, host
      ensures title == old(title) && author == old(author)
      ensures old(title) == "" || old(author) == "" ==>
        && error == MissingInput && isLoading == old(isLoading) && status == old(status) && result == old(result)
        && host.calls == old(host.calls) && host.trace == old(host.trace)
      ensures old(title) != "" && old(author) != "" ==>
        var run := Generate(wrapped, old(host.calls), old(title), old(author), parse);
        && host.calls == old(host.calls) + run.calls && host.trace == old(host.trace) + run.events
        && !isLoading && status == ""
        && (run.result.Ok? ==> result == Some(run.result.value) && error == "")
        && (run.result.Err? ==> result == None && error == ErrorText(run.result.error))
    {
      if title == "" || author == "" {
        error := MissingInput;
        return;
      }
      error := "";
      isLoading := true;
      result := None;
      var data := GenerateBookManuscript(host, title, author, parse, wrapped);
      match data {
        case Ok(book) =>
          result := Some(book);
        case Err(message) =>
          error := ErrorText(message);
      }
      isLoading := false;
      status := "";
    }
  }

  // ---------------------------------------------------------------------------
  // The rendered table of contents and chapter headings
  // ---------------------------------------------------------------------------

  /** A page reference: the foreword is numbered in roman numerals. */
  datatype PageRef = Roman(numeral: string) | Page(number: nat)

  datatype TocEntry = TocEntry(caption: string, page: PageRef)

  /** A chapter's heading (`BAB n`) and subtitle (its `toc` entry). */
  datatype Section = Section(heading: string, subtitle: string, body: string)

  const BibliographyPageAsWritten: nat := 160

  /** `BAB {idx + 1}`. */
  function ChapterNumber(idx: nat): string
  {
    "BAB " + Decimal(idx + 1)
  }

  /** The page listed for chapter idx. */
  function ChapterPage(idx: nat): nat
  {
    10 + idx * 15
  }

  /** Different chapters carry different numbers. */
  lemma ChapterNumbersDistinct(i: nat, j: nat)
    requires i != j
    ensures ChapterNumber(i) != ChapterNumber(j)
  {
    DecimalInjective(i + 1, j + 1);
    assert ChapterNumber(i)[4..] == Decimal(i + 1);
    assert ChapterNumber(j)[4..] == Decimal(j + 1);
  }

  /** The k-th line of the table of contents, the bibliography listed at page `bibliography`. */
  function TocLine(toc: seq<string>, bibliography: nat, k: nat): TocEntry
    requires k < |toc| + 3
  {
    if k == 0 then TocEntry("KATA PENGANTAR", Roman("v"))
    else if k == 1 then TocEntry("PENDAHULUAN", Page(1))
    else if k < |toc| + 2 then TocEntry(ChapterNumber(k - 2) + ": " + toc[k - 2], Page(ChapterPage(k - 2)))
    else TocEntry("DAFTAR PUSTAKA", Page(bibliography))
  }

  /** The table of contents with the bibliography listed at page `bibliography`. */
  function TocWith(toc: seq<string>, bibliography: nat): (es: seq<TocEntry>)
    ensures |es| == |toc| + 3
    ensures es[0] == TocEntry("KATA PENGANTAR", Roman("v")) && es[1] == TocEntry("PENDAHULUAN", Page(1))
    ensures forall i :: 0 <= i < |toc| ==> es[2 + i] == TocEntry(ChapterNumber(i) + ": " + toc[i], Page(ChapterPage(i)))
    ensures es[|toc| + 2] == TocEntry("DAFTAR PUSTAKA", Page(bibliography))
  {
    seq(|toc| + 3, k requires 0 <= k < |toc| + 3 => TocLine(toc, bibliography, k))
  }

  /** The table of contents as rendered: the bibliography always at page 160. */
  function TocAsWritten(toc: seq<string>): seq<TocEntry>
  {
    TocWith(toc, BibliographyPageAsWritten)
  }

  /** The last numbered page before the bibliography: the last chapter's, or the introduction's. */
  function LastPageBefore(chapterCount: nat): nat
  {
    if chapterCount == 0 then 1 else ChapterPage(chapterCount - 1)
  }

  /** The bibliography right after the last chapter's 15 pages. */
  function BibliographyPage(chapterCount: nat): (p: nat)
    ensures p > LastPageBefore(chapterCount)
  {
    ChapterPage(chapterCount)
  }

  /** The table of contents with the bibliography page following the chapters. */
  function Toc(toc: seq<string>): seq<TocEntry>
  {
    TocWith(toc, BibliographyPage(|toc|))
  }

  /** Every numbered page comes after every numbered page listed above it. */
  predicate PagesIncrease(es: seq<TocEntry>)
  {
    forall i, j :: 0 <= i < j < |es| && es[i].page.Page? && es[j].page.Page? ==> es[i].page.number < es[j].page.number
  }

  /** Two numbered entries of TocWith in list order, when the bibliography comes last. */
  lemma TocWithPairInOrder(toc: seq<string>, bibliography: nat, i: nat, j: nat)
    requires bibliography > LastPageBefore(|toc|)
    requires i < j < |toc| + 3
    ensures var es := TocWith(toc, bibliography);
      es[i].page.Page? && es[j].page.Page? ==> es[i].page.number < es[j].page.number
  {
    var es := TocWith(toc, bibliography);
    var n := |toc|;
    assert es[i] == TocLine(toc, bibliography, i);
    assert es[j] == TocLine(toc, bibliography, j);
  }

  /** The pages of TocWith increase exactly when the bibliography comes after the last other page. */
  lemma TocWithIncreasesIff(toc: seq<string>, bibliography: nat)
    ensures PagesIncrease(TocWith(toc, bibliography)) <==> bibliography > LastPageBefore(|toc|)
  {
    var es := TocWith(toc, bibliography);
    var n := |toc|;
    if bibliography > LastPageBefore(n) {
      forall i, j | 0 <= i < j < |es| && es[i].page.Page? && es[j].page.Page?
        ensures es[i].page.number < es[j].page.number
      {
        TocWithPairInOrder(toc, bibliography, i, j);
      }
    } else {
      if n > 0 {
        assert es[n + 1].page == Page(ChapterPage(n - 1));
      }
      assert es[n + 2].page == Page(bibliography);
    }
  }

  /**
   * As rendered, the pages increase only while there are at most ten
   * chapters (the number the outline prompt asks for): an eleventh chapter
   * is listed at page 160, the bibliography's page.
   */
  lemma AsWrittenPagesIncreaseIff(toc: seq<string>)
    ensures PagesIncrease(TocAsWritten(toc)) <==> |toc| <= 10
  {
    TocWithIncreasesIff(toc, BibliographyPageAsWritten);
  }

  /** An eleven-chapter outline lists chapter 11 and the bibliography both at page 160. */
  lemma ElevenChaptersCollide(toc: seq<string>)
    requires |toc| == 11
    ensures TocAsWritten(toc)[12].page == TocAsWritten(toc)[13].page == Page(160)
    ensures !PagesIncrease(TocAsWritten(toc))
  {
    AsWrittenPagesIncreaseIff(toc);
  }

  /** With the bibliography after the chapters, the pages always increase. */
  lemma TocPagesIncrease(toc: seq<string>)
    ensures PagesIncrease(Toc(toc))
  {
    TocWithIncreasesIff(toc, BibliographyPage(|toc|));
  }

  /** For the ten chapters the outline asks for, both tables of contents agree. */
  lemma TocAgreesForTenChapters(toc: seq<string>)
    requires |toc| == 10
    ensures Toc(toc) == TocAsWritten(toc)
  {
  }

  /** `result.chapters.map(...)`: each chapter headed by its number and its `toc` entry. */
  function Sections(book: BookContent): (ss: seq<Section>)
    ensures |ss| == |book.chapters|
    ensures forall i :: 0 <= i < |book.chapters| ==>
      ss[i].heading == ChapterNumber(i) && ss[i].body == book.chapters[i]
      && ss[i].subtitle == (if i < |book.toc| then book.toc[i] else "")
  {
    seq(|book.chapters|, i requires 0 <= i < |book.chapters| =>
      Section(ChapterNumber(i), if i < |book.toc| then book.toc[i] else "", book.chapters[i]))
  }

  /**
   * For a manuscript with one chapter per `toc` entry, the i-th chapter
   * section carries the heading and subtitle of the i-th chapter entry of
   * the table of contents.
   */
  lemma SectionsMatchToc(book: BookContent, i: nat)
    requires |book.chapters| == |book.toc| && i < |book.toc|
    ensures Toc(book.toc)[2 + i].caption == Sections(book)[i].heading + ": " + Sections(book)[i].subtitle
    ensures Sections(book)[i].subtitle == book.toc[i]
  {
  }
}
