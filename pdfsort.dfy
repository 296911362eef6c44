/**
 * The two actions of `main` (pdfsort.py:269-336) once the pages are read:
 * drawing the format table (`-t`, pdfsort.py:319-322) and writing one group
 * of files per format (`-w`, pdfsort.py:332-336).
 */
module PdfSort {
  import opened Tally
  import opened FormatTable
  import opened Grouping

  /** The selections of the formats fmts, format after format. */
  function SelectAll(pages: seq<Page>, labels: seq<string>, fmts: seq<string>): seq<Page>
    requires |labels| == |pages|
    decreases |fmts|
  {
    if fmts == [] then []
    else SelectAll(pages, labels, fmts[..|fmts| - 1]) + Select(pages, labels, fmts[|fmts| - 1])
  }

  /** One more page adds itself once if its label is among the distinct formats, else nothing. */
  lemma {:induction false} SelectAllAppend(pages: seq<Page>, labels: seq<string>, fmts: seq<string>)
    requires |labels| == |pages| > 0 && Distinct(fmts)
    ensures var n := |pages| - 1;
      multiset(SelectAll(pages, labels, fmts)) ==
        multiset(SelectAll(pages[..n], labels[..n], fmts))
        + (if labels[n] in fmts then multiset{pages[n]} else multiset{})
    decreases |fmts|
  {
    if fmts != [] {
      var n := |pages| - 1;
      var m := |fmts| - 1;
      assert Distinct(fmts[..m]);
      SelectAllAppend(pages, labels, fmts[..m]);
      assert fmts == fmts[..m] + [fmts[m]];
      assert labels[n] in fmts[..m] ==> labels[n] != fmts[m];
    }
  }

  /**
   * Selecting every format of a list of distinct formats that covers all the
   * labels yields every page exactly once.
   */
  lemma {:induction false} SelectAllPartition(pages: seq<Page>, labels: seq<string>, fmts: seq<string>)
    requires |labels| == |pages| && Distinct(fmts)
    requires forall i :: 0 <= i < |labels| ==> labels[i] in fmts
    ensures multiset(SelectAll(pages, labels, fmts)) == multiset(pages)
    decreases |pages|
  {
    if pages == [] {
      SelectAllEmpty(pages, labels, fmts);
    } else {
      var n := |pages| - 1;
      SelectAllAppend(pages, labels, fmts);
      assert labels[n] in fmts;
      SelectAllPartition(pages[..n], labels[..n], fmts);
      MultisetLast(pages);
    }
  }

  lemma MultisetLast(pages: seq<Page>)
    requires pages != []
    ensures multiset(pages) == multiset(pages[..|pages| - 1]) + multiset{pages[|pages| - 1]}
  {
    assert pages == pages[..|pages| - 1] + [pages[|pages| - 1]];
  }

  lemma {:induction false} SelectAllEmpty(pages: seq<Page>, labels: seq<string>, fmts: seq<string>)
    requires |pages| == 0 && |labels| == 0
    ensures SelectAll(pages, labels, fmts) == []
    decreases |fmts|
  {
    if fmts != [] { SelectAllEmpty(pages, labels, fmts[..|fmts| - 1]); }
  }

  /** The files written for the formats fmts, in order (pdfsort.py:333-336). */
  function AllFiles(labelOf: Page -> string, fmts: seq<string>, pages: seq<Page>, limit: nat, dirname: string): seq<OutputFile>
    decreases |fmts|
  {
    if fmts == [] then []
    else
      var f := fmts[|fmts| - 1];
      AllFiles(labelOf, fmts[..|fmts| - 1], pages, limit, dirname) + FmtFiles(dirname, f, Filter(labelOf, pages, f), limit)
  }

  /** One more format: its files follow the files of the formats before it. */
  lemma AllFilesAppend(labelOf: Page -> string, fmts: seq<string>, k: nat, pages: seq<Page>, limit: nat, dirname: string)
    requires k < |fmts|
    ensures AllFiles(labelOf, fmts[..k + 1], pages, limit, dirname) ==
      AllFiles(labelOf, fmts[..k], pages, limit, dirname) + FmtFiles(dirname, fmts[k], Filter(labelOf, pages, fmts[k]), limit)
  {
    assert fmts[..k + 1][..k] == fmts[..k];
  }

  lemma {:induction false} PagesOfAppend(a: seq<OutputFile>, b: seq<OutputFile>)
    ensures PagesOf(a + b) == PagesOf(a) + PagesOf(b)
    decreases |a|
  {
    if a != [] {
      assert (a + b)[0] == a[0];
      assert (a + b)[1..] == a[1..] + b;
      PagesOfAppend(a[1..], b);
    } else {
      assert a + b == b;
    }
  }

  /** The pages of all files are the selections of the formats, one after the other. */
  lemma {:induction false} AllFilesPages(labelOf: Page -> string, fmts: seq<string>, pages: seq<Page>, limit: nat, dirname: string)
    ensures PagesOf(AllFiles(labelOf, fmts, pages, limit, dirname)) == SelectAll(pages, Labels(labelOf, pages), fmts)
    decreases |fmts|
  {
    if fmts != [] {
      var m := |fmts| - 1;
      var f := fmts[m];
      AllFilesPages(labelOf, fmts[..m], pages, limit, dirname);
      PagesOfAppend(AllFiles(labelOf, fmts[..m], pages, limit, dirname), FmtFiles(dirname, f, Filter(labelOf, pages, f), limit));
      FmtFilesSpec(dirname, f, Filter(labelOf, pages, f), limit);
    }
  }

  /**
   * The write action (pdfsort.py:332-336): for each key of the tally, in
   * insertion order, `write_fmt_file(fmt, pages, limit)`.
   */
  method WriteAll(labelOf: Page -> string, pages: seq<Page>, limit: nat, dirname: string) returns (files: seq<OutputFile>)
    ensures files == AllFiles(labelOf, FirstOccurrences(Labels(labelOf, pages)), pages, limit, dirname)
  {
    var info := GetFormatInfo(labelOf, pages);
    files := [];
    for k := 0 to |info.order|
      invariant files == AllFiles(labelOf, info.order[..k], pages, limit, dirname)
    {
      var written := WriteFmtFile(labelOf, info.order[k], pages, limit, dirname);
      AllFilesAppend(labelOf, info.order, k, pages, limit, dirname);
      files := files + written;
    }
    assert info.order[..|info.order|] == info.order;
  }

  /**
   * Every page is written exactly once: the pages of all the files written,
   * counted with multiplicity, are the pages read.
   */
  lemma EveryPageWrittenOnce(labelOf: Page -> string, pages: seq<Page>, limit: nat, dirname: string)
    ensures multiset(PagesOf(AllFiles(labelOf, FirstOccurrences(Labels(labelOf, pages)), pages, limit, dirname))) == multiset(pages)
  {
    var fmts := FirstOccurrences(Labels(labelOf, pages));
    AllFilesPages(labelOf, fmts, pages, limit, dirname);
    SelectAllPartition(pages, Labels(labelOf, pages), fmts);
  }

  /** The files written for one format hold exactly that format's pages, in order. */
  lemma FormatGroupPages(labelOf: Page -> string, pages: seq<Page>, fmt: string, limit: nat, dirname: string)
    ensures PagesOf(FmtFiles(dirname, fmt, Filter(labelOf, pages, fmt), limit)) == Filter(labelOf, pages, fmt)
    ensures |Filter(labelOf, pages, fmt)| == Count(Labels(labelOf, pages), fmt)
  {
    FmtFilesSpec(dirname, fmt, Filter(labelOf, pages, fmt), limit);
    FilterSpec(labelOf, pages, fmt);
  }

  /** Every page written for the formats fmts carries one of those labels. */
  lemma {:induction false} WrittenPagesLabelled(labelOf: Page -> string, fmts: seq<string>, pages: seq<Page>, limit: nat, dirname: string)
    ensures forall i :: 0 <= i < |PagesOf(AllFiles(labelOf, fmts, pages, limit, dirname))| ==>
      labelOf(PagesOf(AllFiles(labelOf, fmts, pages, limit, dirname))[i]) in fmts
    decreases |fmts|
  {
    if fmts != [] {
      var m := |fmts| - 1;
      var f := fmts[m];
      var before := AllFiles(labelOf, fmts[..m], pages, limit, dirname);
      var these := FmtFiles(dirname, f, Filter(labelOf, pages, f), limit);
      WrittenPagesLabelled(labelOf, fmts[..m], pages, limit, dirname);
      PagesOfAppend(before, these);
      FmtFilesSpec(dirname, f, Filter(labelOf, pages, f), limit);
      FilterSpec(labelOf, pages, f);
      assert forall x :: x in fmts[..m] ==> x in fmts;
    }
  }

  /**
   * The write loop reads the directory again for each format
   * (pdfsort.py:333-335), and the output directory lies inside it
   * (pdfsort.py:17), so the k-th read may also hold pages of the files
   * written for the formats before it, anywhere among the pages. Those
   * carry earlier, different labels, so the k-th format selects the same
   * pages as from the pages first read.
   */
  lemma RereadSameSelection(labelOf: Page -> string, a: seq<Page>, extra: seq<Page>, b: seq<Page>,
                            fmts: seq<string>, k: nat, limit: nat, dirname: string)
    requires Distinct(fmts) && k < |fmts|
    requires forall i :: 0 <= i < |extra| ==> extra[i] in PagesOf(AllFiles(labelOf, fmts[..k], a + b, limit, dirname))
    ensures Filter(labelOf, a + extra + b, fmts[k]) == Filter(labelOf, a + b, fmts[k])
  {
    WrittenPagesLabelled(labelOf, fmts[..k], a + b, limit, dirname);
    forall i | 0 <= i < |extra|
      ensures labelOf(extra[i]) != fmts[k]
    {
      var j :| 0 <= j < |PagesOf(AllFiles(labelOf, fmts[..k], a + b, limit, dirname))|
        && PagesOf(AllFiles(labelOf, fmts[..k], a + b, limit, dirname))[j] == extra[i];
      assert labelOf(extra[i]) in fmts[..k];
    }
    FilterIgnoresOthers(labelOf, a, extra, b, fmts[k]);
  }

  /**
   * The table action (pdfsort.py:319-322): one row per label of the pages,
   * in ascending order, with the number of pages that carry it.
   */
  method DrawTable(labelOf: Page -> string, pages: seq<Page>) returns (lines: seq<string>)
    ensures |lines| == 2 + |Elements(Labels(labelOf, pages))|
    ensures lines[..2] == Header()
    ensures forall i :: 0 <= i < |Elements(Labels(labelOf, pages))| ==>
      lines[2 + i] == Row(SortedKeys(Elements(Labels(labelOf, pages)))[i], Count(Labels(labelOf, pages), SortedKeys(Elements(Labels(labelOf, pages)))[i]))
  {
    var info := GetFormatInfo(labelOf, pages);
    assert info.counts.Keys == Elements(Labels(labelOf, pages));
    lines := DrawFormatInfoTab(info.counts);
  }

  lemma SortedDistinct(s: seq<string>)
    requires StrictlySorted(s)
    ensures Distinct(s)
  {
    forall i, j | 0 <= i < j < |s|
      ensures s[i] != s[j]
    {
      LexLessIrreflexive(s[i]);
    }
  }

  /** The count column of the table adds up to the number of pages. */
  lemma TableCountsSumToPages(labelOf: Page -> string, pages: seq<Page>)
    ensures SumCounts(Labels(labelOf, pages), SortedKeys(Elements(Labels(labelOf, pages)))) == |pages|
  {
    var keys := SortedKeys(Elements(Labels(labelOf, pages)));
    SortedDistinct(keys);
    assert forall i :: 0 <= i < |Labels(labelOf, pages)| ==> Labels(labelOf, pages)[i] in Elements(keys);
    CountsSumToTotal(Labels(labelOf, pages), keys);
  }
}
