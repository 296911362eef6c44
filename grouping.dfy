/**
 * The grouping of `write_fmt_file` and `subwrite_limit_fmt_file`
 * (pdfsort.py:189-267): the pages of one format are picked out in order,
 * then written either to one file or, under a page limit, to numbered files
 * of consecutive slices. Only the file names, the page lists and the
 * metadata of the output files are modelled; writing the bytes is not.
 */
module Grouping {
  import opened Decimal
  import opened Classifier
  import opened Tally
  import opened Strings

  /** The pages whose label in `labels`, position by position, is `fmt`, in order. */
  function Select(pages: seq<Page>, labels: seq<string>, fmt: string): seq<Page>
    requires |labels| == |pages|
    decreases |pages|
  {
    if pages == [] then []
    else
      var n := |pages| - 1;
      Select(pages[..n], labels[..n], fmt) + (if labels[n] == fmt then [pages[n]] else [])
  }

  /** The pages of `pages` whose label is `fmt`, in their original order (pdfsort.py:237-240). */
  function Filter(labelOf: Page -> string, pages: seq<Page>, fmt: string): seq<Page>
  {
    Select(pages, Labels(labelOf, pages), fmt)
  }

  /** The positions of `fmt` in `labels`, ascending. */
  function MatchingIndices(labels: seq<string>, fmt: string): seq<nat>
    decreases |labels|
  {
    if labels == [] then []
    else
      var n := |labels| - 1;
      MatchingIndices(labels[..n], fmt) + (if labels[n] == fmt then [n] else [])
  }

  /** The selection keeps as many pages as `fmt` occurs among the labels. */
  lemma {:induction false} SelectCount(pages: seq<Page>, labels: seq<string>, fmt: string)
    requires |labels| == |pages|
    ensures |Select(pages, labels, fmt)| == Count(labels, fmt)
    decreases |pages|
  {
    if pages != [] {
      var n := |pages| - 1;
      SelectCount(pages[..n], labels[..n], fmt);
      assert labels == labels[..n] + [labels[n]];
      CountAppend(labels[..n], labels[n], fmt);
    }
  }

  /** The matching positions are positions of labels. */
  lemma {:induction false} MatchingIndicesBounded(labels: seq<string>, fmt: string)
    ensures forall k :: 0 <= k < |MatchingIndices(labels, fmt)| ==> MatchingIndices(labels, fmt)[k] < |labels|
    decreases |labels|
  {
    if labels != [] {
      MatchingIndicesBounded(labels[..|labels| - 1], fmt);
    }
  }

  /** The matching positions ascend. */
  lemma {:induction false} MatchingIndicesAscend(labels: seq<string>, fmt: string)
    ensures forall k, l :: 0 <= k < l < |MatchingIndices(labels, fmt)| ==>
      MatchingIndices(labels, fmt)[k] < MatchingIndices(labels, fmt)[l]
    decreases |labels|
  {
    if labels != [] {
      var n := |labels| - 1;
      MatchingIndicesAscend(labels[..n], fmt);
      MatchingIndicesBounded(labels[..n], fmt);
    }
  }

  /** The matching positions are exactly the positions of the labels equal to `fmt`. */
  lemma {:induction false} MatchingIndicesExact(labels: seq<string>, fmt: string)
    ensures forall i: nat :: i in MatchingIndices(labels, fmt) <==> i < |labels| && labels[i] == fmt
    decreases |labels|
  {
    if labels != [] {
      var n := |labels| - 1;
      MatchingIndicesExact(labels[..n], fmt);
      MatchingIndicesBounded(labels[..n], fmt);
    }
  }

  /** Page k of the selection is the page at the k-th matching position. */
  lemma {:induction false} SelectAt(pages: seq<Page>, labels: seq<string>, fmt: string)
    requires |labels| == |pages|
    ensures |Select(pages, labels, fmt)| == |MatchingIndices(labels, fmt)|
    ensures forall k :: 0 <= k < |Select(pages, labels, fmt)| ==>
      MatchingIndices(labels, fmt)[k] < |pages|
      && Select(pages, labels, fmt)[k] == pages[MatchingIndices(labels, fmt)[k]]
    decreases |pages|
  {
    if pages != [] {
      var n := |pages| - 1;
      SelectAt(pages[..n], labels[..n], fmt);
      MatchingIndicesBounded(labels[..n], fmt);
    }
  }

  /**
   * The filter keeps exactly the pages whose label is `fmt`, in order: it is
   * the subsequence of the pages at the ascending positions where the label is
   * `fmt`, and it holds as many pages as the tally counts for `fmt`.
   */
  lemma FilterSpec(labelOf: Page -> string, pages: seq<Page>, fmt: string)
    ensures var ix := MatchingIndices(Labels(labelOf, pages), fmt);
      && (forall k, l :: 0 <= k < l < |ix| ==> ix[k] < ix[l])
      && (forall i: nat :: i in ix <==> i < |pages| && Labels(labelOf, pages)[i] == fmt)
      && |Filter(labelOf, pages, fmt)| == |ix|
      && (forall k :: 0 <= k < |ix| ==> ix[k] < |pages| && Filter(labelOf, pages, fmt)[k] == pages[ix[k]])
    ensures |Filter(labelOf, pages, fmt)| == Count(Labels(labelOf, pages), fmt)
    ensures forall k :: 0 <= k < |Filter(labelOf, pages, fmt)| ==> labelOf(Filter(labelOf, pages, fmt)[k]) == fmt
  {
    var labels := Labels(labelOf, pages);
    MatchingIndicesAscend(labels, fmt);
    MatchingIndicesExact(labels, fmt);
    SelectAt(pages, labels, fmt);
    SelectCount(pages, labels, fmt);
  }

  /** Filtering one more page keeps it when its label is `fmt`. */
  lemma FilterAppend(labelOf: Page -> string, pages: seq<Page>, i: nat, fmt: string)
    requires i < |pages|
    ensures Filter(labelOf, pages[..i + 1], fmt) ==
      Filter(labelOf, pages[..i], fmt) + (if labelOf(pages[i]) == fmt then [pages[i]] else [])
  {
    LabelsAppend(labelOf, pages, i);
    var labels := Labels(labelOf, pages[..i + 1]);
    assert pages[..i + 1][..i] == pages[..i];
    assert labels[..i] == Labels(labelOf, pages[..i]);
  }

  /** Selecting from two runs of pages selects from each, one after the other. */
  lemma {:induction false} SelectConcat(pa: seq<Page>, la: seq<string>, pb: seq<Page>, lb: seq<string>, fmt: string)
    requires |la| == |pa| && |lb| == |pb|
    ensures Select(pa + pb, la + lb, fmt) == Select(pa, la, fmt) + Select(pb, lb, fmt)
    decreases |pb|
  {
    if pb == [] {
      assert pa + pb == pa && la + lb == la;
    } else {
      var n := |pb| - 1;
      assert (pa + pb)[..|pa| + n] == pa + pb[..n];
      assert (la + lb)[..|la| + n] == la + lb[..n];
      SelectConcat(pa, la, pb[..n], lb[..n], fmt);
    }
  }

  /** The labels of two runs of pages are the labels of each, one after the other. */
  lemma LabelsConcat(labelOf: Page -> string, a: seq<Page>, b: seq<Page>)
    ensures Labels(labelOf, a + b) == Labels(labelOf, a) + Labels(labelOf, b)
  {
    assert forall i :: 0 <= i < |a + b| ==> Labels(labelOf, a + b)[i] == (Labels(labelOf, a) + Labels(labelOf, b))[i];
  }

  /** Filtering two runs of pages filters each, one after the other. */
  lemma FilterConcat(labelOf: Page -> string, a: seq<Page>, b: seq<Page>, fmt: string)
    ensures Filter(labelOf, a + b, fmt) == Filter(labelOf, a, fmt) + Filter(labelOf, b, fmt)
  {
    LabelsConcat(labelOf, a, b);
    SelectConcat(a, Labels(labelOf, a), b, Labels(labelOf, b), fmt);
  }

  /** Pages none of which carries the label `fmt` are all dropped. */
  lemma {:induction false} FilterNone(labelOf: Page -> string, extra: seq<Page>, fmt: string)
    requires forall i :: 0 <= i < |extra| ==> labelOf(extra[i]) != fmt
    ensures Filter(labelOf, extra, fmt) == []
    decreases |extra|
  {
    if extra != [] {
      var n := |extra| - 1;
      FilterAppend(labelOf, extra, n, fmt);
      FilterNone(labelOf, extra[..n], fmt);
      assert extra[..n + 1] == extra;
    }
  }

  /**
   * Pages of other labels inserted anywhere among the pages leave the
   * filter for `fmt` unchanged.
   */
  lemma FilterIgnoresOthers(labelOf: Page -> string, a: seq<Page>, extra: seq<Page>, b: seq<Page>, fmt: string)
    requires forall i :: 0 <= i < |extra| ==> labelOf(extra[i]) != fmt
    ensures Filter(labelOf, a + extra + b, fmt) == Filter(labelOf, a + b, fmt)
  {
    FilterConcat(labelOf, a + extra, b, fmt);
    FilterConcat(labelOf, a, extra, fmt);
    FilterConcat(labelOf, a, b, fmt);
    FilterNone(labelOf, extra, fmt);
  }

  /** A chunk of the selected pages and the name of the file it goes to. */
  datatype OutputFile = OutputFile(name: string, pages: seq<Page>, metadata: map<string, string>)

  /** The metadata every output file carries (pdfsort.py:243-247). */
  const Metadata: map<string, string> := map["/Creator" := "PDFSort", "/Producer" := "PDFSort"]

  /** `f"{dirname}_{fmt}_pdf.pdf"` (pdfsort.py:265). */
  function WholeFileName(dirname: string, fmt: string): string
  {
    dirname + "_" + fmt + "_pdf.pdf"
  }

  /** `f"{dirname}_{fmt}_pdf-{i}.pdf"` (pdfsort.py:220). */
  function ChunkFileName(dirname: string, fmt: string, i: nat): string
  {
    dirname + "_" + fmt + "_pdf-" + NatToString(i) + ".pdf"
  }

  /** The numbered files of one format have pairwise different names. */
  lemma ChunkNamesDistinct(dirname: string, fmt: string, i: nat, j: nat)
    requires i != j
    ensures ChunkFileName(dirname, fmt, i) != ChunkFileName(dirname, fmt, j)
  {
    var p := dirname + "_" + fmt + "_pdf-";
    if ChunkFileName(dirname, fmt, i) == ChunkFileName(dirname, fmt, j) {
      SuffixCancel(p + NatToString(i), p + NatToString(j), ".pdf");
      PrefixCancel(p, NatToString(i), NatToString(j));
      NatToStringInjective(i, j);
    }
  }

  /** Different formats are written to different single files. */
  lemma WholeNamesDistinct(dirname: string, f: string, g: string)
    requires f != g
    ensures WholeFileName(dirname, f) != WholeFileName(dirname, g)
  {
    if WholeFileName(dirname, f) == WholeFileName(dirname, g) {
      SuffixCancel(dirname + "_" + f, dirname + "_" + g, "_pdf.pdf");
      PrefixCancel(dirname + "_", f, g);
    }
  }

  /**
   * The slices the limit loop writes (pdfsort.py:249-262), as a recursion:
   * a first slice of `limit` pages while at least `limit` are left, then the
   * rest, which may be empty.
   */
  function Chunks<T>(s: seq<T>, limit: nat): seq<seq<T>>
    requires limit > 0
    decreases |s|
  {
    if |s| < limit then [s] else [s[..limit]] + Chunks(s[limit..], limit)
  }

  function Concat<T>(ss: seq<seq<T>>): seq<T>
    decreases |ss|
  {
    if ss == [] then [] else ss[0] + Concat(ss[1..])
  }

  function Min(a: int, b: int): int { if a <= b then a else b }

  /** `n // limit + 1` slices. */
  lemma {:induction false} ChunksLength<T>(s: seq<T>, limit: nat)
    requires limit > 0
    ensures |Chunks(s, limit)| == |s| / limit + 1
    decreases |s|
  {
    if |s| >= limit {
      ChunksLength(s[limit..], limit);
      DivStep(|s|, limit);
    } else {
      DivUnique(|s|, limit, 0, |s|);
    }
  }

  /** `start` after i rounds of the limit loop: i steps of `limit`. */
  function Offset(i: nat, limit: nat): nat
    decreases i
  {
    if i == 0 then 0 else Offset(i - 1, limit) + limit
  }

  lemma {:induction false} OffsetIsProduct(i: nat, limit: nat)
    ensures Offset(i, limit) == i * limit
    decreases i
  {
    if i > 0 {
      OffsetIsProduct(i - 1, limit);
      assert i * limit == (i - 1) * limit + limit;
    }
  }

  /** Slice i holds the pages from i * limit up to (i + 1) * limit or the end. */
  lemma ChunkAt<T>(s: seq<T>, limit: nat, i: nat)
    requires limit > 0 && i < |Chunks(s, limit)|
    ensures i * limit <= |s|
    ensures Chunks(s, limit)[i] == s[i * limit..Min((i + 1) * limit, |s|)]
  {
    ChunkAtOffset(s, limit, i);
    OffsetIsProduct(i, limit);
    OffsetIsProduct(i + 1, limit);
  }

  /** ChunkAt with the offsets written as repeated additions. */
  lemma {:induction false} ChunkAtOffset<T>(s: seq<T>, limit: nat, i: nat)
    requires limit > 0 && i < |Chunks(s, limit)|
    ensures Offset(i, limit) <= |s|
    ensures Chunks(s, limit)[i] == s[Offset(i, limit)..Min(Offset(i + 1, limit), |s|)]
    decreases i
  {
    if i > 0 {
      assert |s| >= limit;
      var r := s[limit..];
      assert Chunks(s, limit)[i] == Chunks(r, limit)[i - 1];
      ChunkAtOffset(r, limit, i - 1);
      var hi := Min(Offset(i, limit), |r|);
      assert Min(Offset(i + 1, limit), |s|) == hi + limit;
      assert r[Offset(i - 1, limit)..hi] == s[Offset(i, limit)..hi + limit];
    }
  }

  /** The slices, one after the other, are the selected pages. */
  lemma {:induction false} ChunksConcat<T>(s: seq<T>, limit: nat)
    requires limit > 0
    ensures Concat(Chunks(s, limit)) == s
    decreases |s|
  {
    if |s| >= limit {
      ChunksConcat(s[limit..], limit);
      assert Chunks(s, limit)[1..] == Chunks(s[limit..], limit);
      assert s == s[..limit] + s[limit..];
    }
  }

  /** No slice holds more than `limit` pages. */
  lemma {:induction false} ChunksBounded<T>(s: seq<T>, limit: nat)
    requires limit > 0
    ensures forall i :: 0 <= i < |Chunks(s, limit)| ==> |Chunks(s, limit)[i]| <= limit
    decreases |s|
  {
    if |s| >= limit {
      ChunksBounded(s[limit..], limit);
      assert forall i :: 1 <= i < |Chunks(s, limit)| ==> Chunks(s, limit)[i] == Chunks(s[limit..], limit)[i - 1];
    }
  }

  /** The last slice is empty exactly when `limit` divides the number of pages. */
  lemma {:induction false} ChunksLastEmpty<T>(s: seq<T>, limit: nat)
    requires limit > 0
    ensures |Chunks(s, limit)| == |s| / limit + 1
    ensures Chunks(s, limit)[|s| / limit] == [] <==> |s| % limit == 0
    decreases |s|
  {
    ChunksLength(s, limit);
    if |s| >= limit {
      ChunksLastEmpty(s[limit..], limit);
      DivStep(|s|, limit);
    } else {
      DivUnique(|s|, limit, 0, |s|);
    }
  }

  lemma {:induction false} MulMono(a: nat, b: nat, l: nat)
    ensures a < b ==> a * l + l <= b * l
    decreases b
  {
    if a < b {
      var c := b - 1;
      assert b * l == c * l + l;
      MulMono(a, c, l);
    }
  }

  /** Quotient and remainder are determined by `x == q * l + r` with `r < l`. */
  lemma DivUnique(x: nat, l: nat, q: nat, r: nat)
    requires l > 0 && r < l && x == q * l + r
    ensures x / l == q && x % l == r
  {
    var q' := x / l;
    var r' := x % l;
    assert x == q' * l + r';
    MulMono(q', q, l);
    MulMono(q, q', l);
  }

  /** Removing `limit` pages removes one slice and keeps the remainder. */
  lemma DivStep(n: nat, limit: nat)
    requires limit > 0 && n >= limit
    ensures (n - limit) / limit == n / limit - 1
    ensures (n - limit) % limit == n % limit
  {
    var q := n / limit;
    var r := n % limit;
    assert n == q * limit + r;
    assert n - limit == (q - 1) * limit + r;
    DivUnique(n - limit, limit, q - 1, r);
  }

  /**
   * The files `write_fmt_file` writes for the `selected` pages of format
   * `fmt`: numbered slices when `0 < limit < n`, otherwise one file.
   */
  function FmtFiles(dirname: string, fmt: string, selected: seq<Page>, limit: nat): seq<OutputFile>
  {
    if 0 < limit < |selected| then
      ChunkFiles(dirname, fmt, Chunks(selected, limit), 0)
    else
      [OutputFile(WholeFileName(dirname, fmt), selected, Metadata)]
  }

  /** The slices cs, numbered from `first`, as output files. */
  function ChunkFiles(dirname: string, fmt: string, cs: seq<seq<Page>>, first: nat): (files: seq<OutputFile>)
    ensures |files| == |cs|
    ensures forall i :: 0 <= i < |cs| ==>
      files[i] == OutputFile(ChunkFileName(dirname, fmt, first + i), cs[i], Metadata)
    decreases |cs|
  {
    if cs == [] then []
    else [OutputFile(ChunkFileName(dirname, fmt, first), cs[0], Metadata)] + ChunkFiles(dirname, fmt, cs[1..], first + 1)
  }

  /** One more slice: its file, numbered after the others, comes last. */
  lemma ChunkFilesAppend(dirname: string, fmt: string, cs: seq<seq<Page>>, c: seq<Page>, first: nat)
    ensures ChunkFiles(dirname, fmt, cs + [c], first) ==
      ChunkFiles(dirname, fmt, cs, first) + [OutputFile(ChunkFileName(dirname, fmt, first + |cs|), c, Metadata)]
  {
    var a := ChunkFiles(dirname, fmt, cs + [c], first);
    var b := ChunkFiles(dirname, fmt, cs, first) + [OutputFile(ChunkFileName(dirname, fmt, first + |cs|), c, Metadata)];
    assert forall i :: 0 <= i < |cs| ==> (cs + [c])[i] == cs[i];
    assert |a| == |b|;
    assert forall i :: 0 <= i < |a| ==> a[i] == b[i];
  }

  /** The pages of the files, file after file. */
  function PagesOf(files: seq<OutputFile>): seq<Page>
    decreases |files|
  {
    if files == [] then [] else files[0].pages + PagesOf(files[1..])
  }

  lemma {:induction false} ChunkFilesPages(dirname: string, fmt: string, cs: seq<seq<Page>>, first: nat)
    ensures PagesOf(ChunkFiles(dirname, fmt, cs, first)) == Concat(cs)
    decreases |cs|
  {
    if cs != [] {
      var files := ChunkFiles(dirname, fmt, cs, first);
      assert files[1..] == ChunkFiles(dirname, fmt, cs[1..], first + 1);
      ChunkFilesPages(dirname, fmt, cs[1..], first + 1);
    }
  }

  /**
   * The files of one format hold the selected pages in order, each at most
   * `limit` of them when a limit applies, and no two have the same name.
   */
  lemma FmtFilesSpec(dirname: string, fmt: string, selected: seq<Page>, limit: nat)
    ensures PagesOf(FmtFiles(dirname, fmt, selected, limit)) == selected
    ensures 0 < limit < |selected| ==>
      |FmtFiles(dirname, fmt, selected, limit)| == |selected| / limit + 1
      && forall i :: 0 <= i < |FmtFiles(dirname, fmt, selected, limit)| ==>
        |FmtFiles(dirname, fmt, selected, limit)[i].pages| <= limit
    ensures !(0 < limit < |selected|) ==>
      FmtFiles(dirname, fmt, selected, limit) == [OutputFile(WholeFileName(dirname, fmt), selected, Metadata)]
    ensures forall i, j :: 0 <= i < j < |FmtFiles(dirname, fmt, selected, limit)| ==>
      FmtFiles(dirname, fmt, selected, limit)[i].name != FmtFiles(dirname, fmt, selected, limit)[j].name
  {
    var files := FmtFiles(dirname, fmt, selected, limit);
    if 0 < limit < |selected| {
      ChunksLength(selected, limit);
      ChunksBounded(selected, limit);
      ChunksConcat(selected, limit);
      ChunkFilesPages(dirname, fmt, Chunks(selected, limit), 0);
      forall i, j | 0 <= i < j < |files|
        ensures files[i].name != files[j].name
      {
        ChunkNamesDistinct(dirname, fmt, i, j);
      }
    } else {
      assert PagesOf(files) == selected + PagesOf([]);
    }
  }

  /** The first loop of `write_fmt_file` (pdfsort.py:237-240): the pages of format `fmt`, in order. */
  method SelectPages(labelOf: Page -> string, pages: seq<Page>, fmt: string) returns (selected: seq<Page>)
    ensures selected == Filter(labelOf, pages, fmt)
  {
    selected := [];
    for i := 0 to |pages|
      invariant selected == Filter(labelOf, pages[..i], fmt)
    {
      FilterAppend(labelOf, pages, i, fmt);
      if labelOf(pages[i]) == fmt {
        selected := selected + [pages[i]];
      }
    }
    assert pages[..|pages|] == pages;
  }

  /** Python's `s[start:stop]` for non-negative bounds: both are clipped to the length. */
  function PySlice<T>(s: seq<T>, start: nat, stop: nat): (r: seq<T>)
    ensures start <= stop <= |s| ==> r == s[start..stop]
    ensures stop <= start ==> r == []
  {
    var hi := if stop <= |s| then stop else |s|;
    var lo := if start <= hi then start else hi;
    s[lo..hi]
  }

  /**
   * `subwrite_limit_fmt_file(fmt, pages, start, stop, i, meta)`
   * (pdfsort.py:189-222): file i of format `fmt` holding `pages[start:stop]`.
   */
  function SubwriteLimitFmtFile(fmt: string, pages: seq<Page>, start: nat, stop: nat, i: nat, dirname: string): (file: OutputFile)
    ensures file.name == ChunkFileName(dirname, fmt, i) && file.metadata == Metadata
    ensures start <= stop <= |pages| ==> file.pages == pages[start..stop]
  {
    OutputFile(ChunkFileName(dirname, fmt, i), PySlice(pages, start, stop), Metadata)
  }

  /**
   * Round i of the limit loop, starting at `Offset(i, limit)`, writes slice i
   * to file i, after the files of the slices before it.
   */
  lemma ChunkFileAt(dirname: string, fmt: string, selected: seq<Page>, limit: nat, i: nat, start: nat, stop: nat)
    requires limit > 0 && i < |Chunks(selected, limit)|
    requires start == Offset(i, limit) && stop == start + limit
    ensures ChunkFiles(dirname, fmt, Chunks(selected, limit)[..i + 1], 0) ==
      ChunkFiles(dirname, fmt, Chunks(selected, limit)[..i], 0)
        + [SubwriteLimitFmtFile(fmt, selected, start, if stop <= |selected| then stop else |selected|, i, dirname)]
  {
    var cs := Chunks(selected, limit);
    ChunkAtOffset(selected, limit, i);
    assert cs[..i + 1] == cs[..i] + [cs[i]];
    ChunkFilesAppend(dirname, fmt, cs[..i], cs[i], 0);
  }

  /**
   * The limit loop of `write_fmt_file` (pdfsort.py:249-262) run for `fnum`
   * rounds: file i holds `selected[start:min(stop, n)]`, and `start` and
   * `stop` advance by `limit`. The files are the first `fnum` slices.
   */
  method WriteChunks(fmt: string, selected: seq<Page>, limit: nat, fnum: nat, dirname: string)
    returns (files: seq<OutputFile>)
    requires limit > 0 && fnum <= |Chunks(selected, limit)|
    ensures files == ChunkFiles(dirname, fmt, Chunks(selected, limit)[..fnum], 0)
  {
    ghost var cs := Chunks(selected, limit);
    var np := |selected|;
    var start := 0;
    var stop := limit;
    files := [];
    for i := 0 to fnum
      invariant start == Offset(i, limit) && stop == start + limit
      invariant files == ChunkFiles(dirname, fmt, cs[..i], 0)
    {
      ChunkFileAt(dirname, fmt, selected, limit, i, start, stop);
      var file := SubwriteLimitFmtFile(fmt, selected, start, if stop <= np then stop else np, i, dirname);
      files := files + [file];
      start := start + limit;
      stop := stop + limit;
    }
  }

  /**
   * `write_fmt_file(fmt, pages, limit)` (pdfsort.py:224-267): the pages of
   * the format go to `n // limit + 1` numbered files when `0 < limit < n`,
   * otherwise to one file.
   */
  method WriteFmtFile(labelOf: Page -> string, fmt: string, pages: seq<Page>, limit: nat, dirname: string)
    returns (files: seq<OutputFile>)
    ensures files == FmtFiles(dirname, fmt, Filter(labelOf, pages, fmt), limit)
  {
    var selected := SelectPages(labelOf, pages, fmt);
    if 0 < limit < |selected| {
      var np := |selected|;
      var fnum := np / limit + 1;
      ChunksLength(selected, limit);
      files := WriteChunks(fmt, selected, limit, fnum, dirname);
      assert Chunks(selected, limit)[..fnum] == Chunks(selected, limit);
    } else {
      files := [OutputFile(WholeFileName(dirname, fmt), selected, Metadata)];
    }
  }

  /** When the limit divides the number of pages, the last numbered file is empty. */
  lemma EmptyTrailingFile(dirname: string, fmt: string, selected: seq<Page>, limit: nat)
    requires 0 < limit < |selected| && |selected| % limit == 0
    ensures |FmtFiles(dirname, fmt, selected, limit)| == |selected| / limit + 1
    ensures FmtFiles(dirname, fmt, selected, limit)[|selected| / limit] ==
      OutputFile(ChunkFileName(dirname, fmt, |selected| / limit), [], Metadata)
  {
    ChunksLastEmpty(selected, limit);
  }

  /** Four pages of one format under a limit of 2 give three files, the third without pages. */
  lemma ExampleFourPagesLimitTwo(dirname: string, fmt: string, p: Page)
    ensures var files := FmtFiles(dirname, fmt, [p, p, p, p], 2);
      |files| == 3 && files[0].pages == [p, p] && files[1].pages == [p, p] && files[2].pages == []
  {
    var s := [p, p, p, p];
    assert s[..2] == [p, p] && s[2..] == [p, p] && s[2..][..2] == [p, p] && s[2..][2..] == [];
    assert Chunks(s[2..][2..], 2) == [[]];
    assert Chunks(s[2..], 2) == [[p, p], []];
    assert Chunks(s, 2) == [[p, p], [p, p], []];
  }

  /** The intended slicing: ceil(n / limit) slices, none empty. */
  function CorrectedChunks<T>(s: seq<T>, limit: nat): seq<seq<T>>
    requires limit > 0
    decreases |s|
  {
    if s == [] then []
    else if |s| <= limit then [s]
    else [s[..limit]] + CorrectedChunks(s[limit..], limit)
  }

  /**
   * The intended slices cover the pages in order, each holds between 1 and
   * `limit` pages, and there are ceil(n / limit) of them.
   */
  lemma {:induction false} CorrectedChunksSpec<T>(s: seq<T>, limit: nat)
    requires limit > 0
    ensures |CorrectedChunks(s, limit)| == (|s| + limit - 1) / limit
    ensures Concat(CorrectedChunks(s, limit)) == s
    ensures forall i :: 0 <= i < |CorrectedChunks(s, limit)| ==>
      0 < |CorrectedChunks(s, limit)[i]| <= limit
    decreases |s|
  {
    if |s| > limit {
      var r := s[limit..];
      CorrectedChunksSpec(r, limit);
      DivStep(|s| + limit - 1, limit);
      assert CorrectedChunks(s, limit)[1..] == CorrectedChunks(r, limit);
      assert s == s[..limit] + r;
    } else if s != [] {
      DivUnique(|s| + limit - 1, limit, 1, |s| - 1);
      assert CorrectedChunks(s, limit) == [s];
    } else {
      DivUnique(limit - 1, limit, 0, limit - 1);
    }
  }

  /** The slicing as written is the intended one plus an empty slice when `limit` divides n. */
  lemma {:induction false} ChunksAsWritten<T>(s: seq<T>, limit: nat)
    requires limit > 0
    ensures Chunks(s, limit) ==
      CorrectedChunks(s, limit) + (if |s| % limit == 0 then [[]] else [])
    decreases |s|
  {
    if |s| >= limit {
      ChunksAsWritten(s[limit..], limit);
      DivStep(|s|, limit);
      if |s| == limit {
        assert s[limit..] == [];
        assert s[..limit] == s;
      }
    } else {
      DivUnique(|s|, limit, 0, |s|);
    }
  }

  /** The intended slices are the first ceil(n / limit) slices as written. */
  lemma CorrectedPrefix<T>(s: seq<T>, limit: nat, fnum: nat)
    requires limit > 0 && fnum == (|s| + limit - 1) / limit
    ensures fnum <= |Chunks(s, limit)|
    ensures Chunks(s, limit)[..fnum] == CorrectedChunks(s, limit)
  {
    CorrectedChunksSpec(s, limit);
    ChunksAsWritten(s, limit);
  }

  /** The files of one format with the intended slicing. */
  function CorrectedFmtFiles(dirname: string, fmt: string, selected: seq<Page>, limit: nat): seq<OutputFile>
  {
    if 0 < limit < |selected| then
      ChunkFiles(dirname, fmt, CorrectedChunks(selected, limit), 0)
    else
      [OutputFile(WholeFileName(dirname, fmt), selected, Metadata)]
  }

  /**
   * With the intended slicing every file holds at least one page, the files
   * still hold the selected pages in order, and they are the files as
   * written without the empty last one.
   */
  lemma CorrectedFmtFilesSpec(dirname: string, fmt: string, selected: seq<Page>, limit: nat)
    requires |selected| > 0
    ensures PagesOf(CorrectedFmtFiles(dirname, fmt, selected, limit)) == selected
    ensures forall i :: 0 <= i < |CorrectedFmtFiles(dirname, fmt, selected, limit)| ==>
      CorrectedFmtFiles(dirname, fmt, selected, limit)[i].pages != []
    ensures 0 < limit < |selected| && |selected| % limit == 0 ==>
      FmtFiles(dirname, fmt, selected, limit) == CorrectedFmtFiles(dirname, fmt, selected, limit)
        + [OutputFile(ChunkFileName(dirname, fmt, |selected| / limit), [], Metadata)]
    ensures !(0 < limit < |selected| && |selected| % limit == 0) ==>
      FmtFiles(dirname, fmt, selected, limit) == CorrectedFmtFiles(dirname, fmt, selected, limit)
  {
    var files := CorrectedFmtFiles(dirname, fmt, selected, limit);
    if 0 < limit < |selected| {
      var cs := CorrectedChunks(selected, limit);
      CorrectedChunksSpec(selected, limit);
      ChunkFilesPages(dirname, fmt, cs, 0);
      ChunksAsWritten(selected, limit);
      ChunksLength(selected, limit);
      var whole := ChunkFiles(dirname, fmt, Chunks(selected, limit), 0);
      if |selected| % limit == 0 {
        assert whole == files + [OutputFile(ChunkFileName(dirname, fmt, |selected| / limit), [], Metadata)];
      } else {
        assert whole == files;
      }
    } else {
      assert PagesOf(files) == selected + PagesOf([]);
    }
  }

  /** The limit loop run for `ceil(n / limit)` rounds writes the intended slices. */
  method WriteChunksCorrected(fmt: string, selected: seq<Page>, limit: nat, dirname: string)
    returns (files: seq<OutputFile>)
    requires 0 < limit < |selected|
    ensures files == ChunkFiles(dirname, fmt, CorrectedChunks(selected, limit), 0)
  {
    var np := |selected|;
    var fnum := (np + limit - 1) / limit;
    CorrectedPrefix(selected, limit, fnum);
    files := WriteChunks(fmt, selected, limit, fnum, dirname);
  }

  /**
   * `write_fmt_file` with the guarded slice count `ceil(n / limit)`: the same
   * loop, ending before the empty slice.
   */
  method WriteFmtFileCorrected(labelOf: Page -> string, fmt: string, pages: seq<Page>, limit: nat, dirname: string)
    returns (files: seq<OutputFile>)
    ensures files == CorrectedFmtFiles(dirname, fmt, Filter(labelOf, pages, fmt), limit)
  {
    var selected := SelectPages(labelOf, pages, fmt);
    if 0 < limit < |selected| {
      files := WriteChunksCorrected(fmt, selected, limit, dirname);
    } else {
      files := [OutputFile(WholeFileName(dirname, fmt), selected, Metadata)];
    }
  }
}
