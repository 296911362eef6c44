/**
 * The format tally `get_format_info` (pdfsort.py:149-166): a loop over the
 * pages that counts, per format label, how many pages carry it. The label of
 * a page is `find_fmt(width, height, False)` (pdfsort.py:161), the same label
 * the grouping uses (pdfsort.py:239).
 */
module Tally {
  import opened Classifier

  /**
   * A page as the classifier sees it: its media-box sides rounded to whole
   * points and whether the unrounded width is at most the unrounded height.
   */
  datatype Page = Page(width: int, height: int, portrait: bool)

  /** The format label of a page, without orientation suffix. */
  function Label(p: Page): string
  {
    Classify(p.width, p.height, p.portrait, false)
  }

  /**
   * The labels the classifier labelOf gives the pages, in page order. The
   * tally, the grouping and the write loop are stated for any classifier;
   * the program's is Label.
   */
  function Labels(labelOf: Page -> string, pages: seq<Page>): (r: seq<string>)
    ensures |r| == |pages|
    ensures forall i :: 0 <= i < |pages| ==> r[i] == labelOf(pages[i])
    decreases |pages|
  {
    if pages == [] then [] else Labels(labelOf, pages[..|pages| - 1]) + [labelOf(pages[|pages| - 1])]
  }

  /** The labels of one more page are the labels so far and its own. */
  lemma LabelsAppend(labelOf: Page -> string, pages: seq<Page>, i: nat)
    requires i < |pages|
    ensures Labels(labelOf, pages[..i + 1]) == Labels(labelOf, pages[..i]) + [labelOf(pages[i])]
  {
    assert pages[..i + 1][..i] == pages[..i];
  }

  ghost predicate Distinct(s: seq<string>)
  {
    forall i, j :: 0 <= i < j < |s| ==> s[i] != s[j]
  }

  /** The number of labels equal to `fmt`: Python's `list.count`. */
  function Count(labels: seq<string>, fmt: string): nat
    decreases |labels|
  {
    if labels == [] then 0
    else Count(labels[..|labels| - 1], fmt) + (if labels[|labels| - 1] == fmt then 1 else 0)
  }

  lemma CountAppend(labels: seq<string>, x: string, fmt: string)
    ensures Count(labels + [x], fmt) == Count(labels, fmt) + (if x == fmt then 1 else 0)
  {
    assert (labels + [x])[..|labels|] == labels;
  }

  /** A label is counted at least once exactly when it occurs. */
  lemma {:induction false} CountPositive(labels: seq<string>, fmt: string)
    ensures Count(labels, fmt) >= 1 <==> fmt in labels
    ensures Count(labels, fmt) <= |labels|
    decreases |labels|
  {
    if labels != [] {
      var n := |labels| - 1;
      CountPositive(labels[..n], fmt);
      assert labels == labels[..n] + [labels[n]];
    }
  }

  /** The distinct elements of s in the order of their first occurrence. */
  function FirstOccurrences(s: seq<string>): (r: seq<string>)
    ensures Distinct(r)
    ensures forall x :: x in r <==> x in s
    decreases |s|
  {
    if s == [] then []
    else
      var r := FirstOccurrences(s[..|s| - 1]);
      if s[|s| - 1] in r then r else r + [s[|s| - 1]]
  }

  /**
   * A Python dict as the loop builds it: its keys in insertion order, and the
   * mapping from key to value.
   */
  datatype FormatInfo = FormatInfo(order: seq<string>, counts: map<string, nat>)

  /**
   * The dict the loop of `get_format_info` has built after seeing `labels`:
   * a new key starts at 1, a seen key goes up by 1 (pdfsort.py:162-165).
   */
  function Tallied(labels: seq<string>): FormatInfo
    decreases |labels|
  {
    if labels == [] then FormatInfo([], map[])
    else
      var info := Tallied(labels[..|labels| - 1]);
      var fmt := labels[|labels| - 1];
      if fmt in info.counts then FormatInfo(info.order, info.counts[fmt := info.counts[fmt] + 1])
      else FormatInfo(info.order + [fmt], info.counts[fmt := 1])
  }

  /** One more label: a new key is appended with count 1, a seen key goes up by 1. */
  lemma TalliedAppend(labels: seq<string>, fmt: string)
    ensures Tallied(labels + [fmt]) ==
      var info := Tallied(labels);
      if fmt in info.counts then FormatInfo(info.order, info.counts[fmt := info.counts[fmt] + 1])
      else FormatInfo(info.order + [fmt], info.counts[fmt := 1])
  {
    assert (labels + [fmt])[..|labels|] == labels;
  }

  /**
   * The tally holds each label once, in order of first occurrence, and maps
   * it to the number of times it occurs; nothing else is a key.
   */
  lemma {:induction false} TalliedCounts(labels: seq<string>)
    ensures Tallied(labels).order == FirstOccurrences(labels)
    ensures forall f :: f in Tallied(labels).counts <==> f in labels
    ensures forall f :: f in Tallied(labels).counts ==> Tallied(labels).counts[f] == Count(labels, f)
    decreases |labels|
  {
    if labels != [] {
      var n := |labels| - 1;
      TalliedCounts(labels[..n]);
      CountPositive(labels[..n], labels[n]);
      assert labels == labels[..n] + [labels[n]];
      forall f
        ensures Count(labels, f) == Count(labels[..n], f) + (if labels[n] == f then 1 else 0)
      {
        CountAppend(labels[..n], labels[n], f);
      }
    }
  }

  /**
   * `get_format_info(pages)` (pdfsort.py:159-166). The keys are the labels of
   * the pages in the order they first appear, and each key maps to the
   * number of pages that carry it, which is at least one.
   */
  method GetFormatInfo(labelOf: Page -> string, pages: seq<Page>) returns (info: FormatInfo)
    ensures info == Tallied(Labels(labelOf, pages))
    ensures info.order == FirstOccurrences(Labels(labelOf, pages))
    ensures forall f :: f in info.counts <==> f in Labels(labelOf, pages)
    ensures forall f :: f in info.counts ==> info.counts[f] == Count(Labels(labelOf, pages), f)
    ensures forall f :: f in info.counts ==> info.counts[f] >= 1
  {
    var order: seq<string> := [];
    var counts: map<string, nat> := map[];
    for i := 0 to |pages|
      invariant FormatInfo(order, counts) == Tallied(Labels(labelOf, pages[..i]))
    {
      var fmt := labelOf(pages[i]);
      LabelsAppend(labelOf, pages, i);
      TalliedAppend(Labels(labelOf, pages[..i]), fmt);
      if fmt in counts {
        counts := counts[fmt := counts[fmt] + 1];
      } else {
        counts := counts[fmt := 1];
        order := order + [fmt];
      }
    }
    assert pages[..|pages|] == pages;
    ghost var labels := Labels(labelOf, pages);
    info := FormatInfo(order, counts);
    TalliedCounts(labels);
    forall f | f in counts
      ensures counts[f] >= 1
    {
      CountPositive(labels, f);
    }
  }

  /** The sum of the counts of the keys ks, in order. */
  function SumCounts(labels: seq<string>, ks: seq<string>): nat
    decreases |ks|
  {
    if ks == [] then 0 else Count(labels, ks[0]) + SumCounts(labels, ks[1..])
  }

  /** Adding one label adds one to the sum for each occurrence of it among ks. */
  lemma {:induction false} SumCountsAppend(labels: seq<string>, x: string, ks: seq<string>)
    ensures SumCounts(labels + [x], ks) == SumCounts(labels, ks) + Count(ks, x)
    decreases |ks|
  {
    if ks != [] {
      assert (labels + [x])[..|labels|] == labels;
      SumCountsAppend(labels, x, ks[1..]);
      CountHead(ks, x);
    }
  }

  /** Count read from the front: the first element, then the rest. */
  lemma {:induction false} CountHead(ks: seq<string>, x: string)
    requires ks != []
    ensures Count(ks, x) == (if ks[0] == x then 1 else 0) + Count(ks[1..], x)
    decreases |ks|
  {
    var n := |ks| - 1;
    if n > 0 {
      assert ks[1..][..n - 1] == ks[..n][1..];
      CountHead(ks[..n], x);
    }
  }

  lemma {:induction false} DistinctCount(ks: seq<string>, f: string)
    requires Distinct(ks)
    ensures Count(ks, f) == if f in ks then 1 else 0
    decreases |ks|
  {
    if ks != [] {
      var n := |ks| - 1;
      assert Distinct(ks[..n]);
      DistinctCount(ks[..n], f);
      assert ks == ks[..n] + [ks[n]];
      assert ks[n] == f ==> f !in ks[..n];
    }
  }

  lemma {:induction false} EmptySum(ks: seq<string>)
    ensures SumCounts([], ks) == 0
    decreases |ks|
  {
    if ks != [] { EmptySum(ks[1..]); }
  }

  /**
   * The counts of any list of distinct keys that covers every label sum to
   * the number of labels.
   */
  lemma {:induction false} CountsSumToTotal(labels: seq<string>, ks: seq<string>)
    requires Distinct(ks)
    requires forall i :: 0 <= i < |labels| ==> labels[i] in ks
    ensures SumCounts(labels, ks) == |labels|
    decreases |labels|
  {
    if labels == [] {
      EmptySum(ks);
    } else {
      var n := |labels| - 1;
      CountsSumToTotal(labels[..n], ks);
      assert labels == labels[..n] + [labels[n]];
      SumCountsAppend(labels[..n], labels[n], ks);
      DistinctCount(ks, labels[n]);
    }
  }

  /** The tally's keys, in insertion order, account for every page exactly once. */
  lemma TallySumsToPages(labelOf: Page -> string, pages: seq<Page>)
    ensures SumCounts(Labels(labelOf, pages), FirstOccurrences(Labels(labelOf, pages))) == |pages|
  {
    CountsSumToTotal(Labels(labelOf, pages), FirstOccurrences(Labels(labelOf, pages)));
  }

  /** Pages that are all alike are tallied under their one label, with their number. */
  lemma {:induction false} UniformPages(labelOf: Page -> string, pages: seq<Page>, p: Page)
    requires |pages| > 0
    requires forall i :: 0 <= i < |pages| ==> pages[i] == p
    ensures FirstOccurrences(Labels(labelOf, pages)) == [labelOf(p)]
    ensures Count(Labels(labelOf, pages), labelOf(p)) == |pages|
    decreases |pages|
  {
    var n := |pages| - 1;
    var rest := Labels(labelOf, pages[..n]);
    assert Labels(labelOf, pages) == rest + [labelOf(p)];
    assert (rest + [labelOf(p)])[..|rest|] == rest;
    if n > 0 {
      UniformPages(labelOf, pages[..n], p);
    }
  }

  /** An upright page of 595 x 842 points is labelled A4. */
  lemma LabelA4()
    ensures Label(Page(595, 842, true)) == "A4"
  {
    ExampleA4Portrait(false);
  }

  /** N pages all of size 595 x 842 are tallied as {"A4": N}. */
  lemma ExampleAllA4(pages: seq<Page>)
    requires |pages| > 0
    requires forall i :: 0 <= i < |pages| ==> pages[i] == Page(595, 842, true)
    ensures FirstOccurrences(Labels(Label, pages)) == ["A4"]
    ensures Count(Labels(Label, pages), "A4") == |pages|
  {
    UniformPages(Label, pages, Page(595, 842, true));
    LabelA4();
  }
}
