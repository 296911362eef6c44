/**
 * The page-format classifier `find_fmt` (pdfsort.py:106-147).
 *
 * The program rounds the media-box width and height to whole points
 * (pdfsort.py:120-121) and compares the unrounded values to decide the
 * orientation (pdfsort.py:123, 133). The model takes the rounded values and
 * that comparison as its input: `width`, `height` and `portrait`, where
 * `portrait` means "the unrounded width is at most the unrounded height".
 * Rounding is monotone, so portrait inputs have width <= height and landscape
 * inputs height <= width; lemmas that need this say so.
 */
module Classifier {
  import opened Wrappers
  import opened PaperSizes
  import opened Decimal
  import opened Strings

  /** Manhattan distance from the normalised pair (w1, h1) to an entry (pdfsort.py:128). */
  function Dist(w1: int, h1: int, e: PaperSize): nat
  {
    Abs(w1 - e.short) + Abs(h1 - e.long)
  }

  /** No entry after position i of t is at the same distance as entry i. */
  ghost predicate LastAtDistance(t: seq<PaperSize>, w1: int, h1: int, i: nat)
    requires i < |t|
  {
    forall j :: i < j < |t| ==> Dist(w1, h1, t[j]) != Dist(w1, h1, t[i])
  }

  /**
   * The dict comprehension `{distance: key for key, s in PaperSizes.items()}`
   * (pdfsort.py:127-129): entries are inserted in table order, so an entry
   * overwrites every earlier entry at the same distance.
   */
  function Distances(t: seq<PaperSize>, w1: int, h1: int): (m: map<nat, string>)
    decreases |t|
  {
    if t == [] then map[]
    else
      var e := t[|t| - 1];
      Distances(t[..|t| - 1], w1, h1)[Dist(w1, h1, e) := e.name]
  }

  /** Every entry's distance is a key of the comprehension. */
  lemma {:induction false} DistancesKeys(t: seq<PaperSize>, w1: int, h1: int)
    ensures forall i :: 0 <= i < |t| ==> Dist(w1, h1, t[i]) in Distances(t, w1, h1)
    decreases |t|
  {
    if t != [] {
      var n := |t| - 1;
      DistancesKeys(t[..n], w1, h1);
      forall i | 0 <= i < n
        ensures Dist(w1, h1, t[i]) in Distances(t[..n], w1, h1)
      {
        assert t[i] == t[..n][i];
      }
    }
  }

  /** Every value of the comprehension is the name of an entry at that distance. */
  lemma {:induction false} DistancesValues(t: seq<PaperSize>, w1: int, h1: int, d: nat)
    requires d in Distances(t, w1, h1)
    ensures exists i :: 0 <= i < |t| && Dist(w1, h1, t[i]) == d && Distances(t, w1, h1)[d] == t[i].name
    decreases |t|
  {
    var n := |t| - 1;
    if d == Dist(w1, h1, t[n]) {
      assert Distances(t, w1, h1)[d] == t[n].name;
    } else {
      DistancesValues(t[..n], w1, h1, d);
      var i :| 0 <= i < n && Dist(w1, h1, t[..n][i]) == d && Distances(t[..n], w1, h1)[d] == t[..n][i].name;
      assert t[i] == t[..n][i];
    }
  }

  /** An entry that no later entry ties at its distance keeps its name in the map. */
  lemma {:induction false} DistancesLast(t: seq<PaperSize>, w1: int, h1: int, i: nat)
    requires i < |t| && LastAtDistance(t, w1, h1, i)
    ensures Dist(w1, h1, t[i]) in Distances(t, w1, h1)
    ensures Distances(t, w1, h1)[Dist(w1, h1, t[i])] == t[i].name
    decreases |t|
  {
    var n := |t| - 1;
    if i < n {
      var front := t[..n];
      assert t[i] == front[i];
      assert Dist(w1, h1, t[n]) != Dist(w1, h1, t[i]);
      assert LastAtDistance(front, w1, h1, i) by {
        forall j | i < j < |front|
          ensures Dist(w1, h1, front[j]) != Dist(w1, h1, front[i])
        {
          assert front[j] == t[j];
        }
      }
      DistancesLast(front, w1, h1, i);
    }
  }

  /** The smallest distance to any entry of t. */
  function MinDistance(t: seq<PaperSize>, w1: int, h1: int): (d: nat)
    requires |t| > 0
    ensures exists i :: 0 <= i < |t| && Dist(w1, h1, t[i]) == d
    ensures forall i :: 0 <= i < |t| ==> d <= Dist(w1, h1, t[i])
    decreases |t|
  {
    if |t| == 1 then Dist(w1, h1, t[0])
    else
      var rest := MinDistance(t[1..], w1, h1);
      var first := Dist(w1, h1, t[0]);
      if first < rest then first else rest
  }

  /** `min(distances.keys())` (pdfsort.py:130) is the smallest distance. */
  lemma MinDistanceIsLeastKey(t: seq<PaperSize>, w1: int, h1: int)
    requires |t| > 0
    ensures MinDistance(t, w1, h1) in Distances(t, w1, h1)
    ensures forall d :: d in Distances(t, w1, h1) ==> MinDistance(t, w1, h1) <= d
  {
    DistancesKeys(t, w1, h1);
    forall d | d in Distances(t, w1, h1)
      ensures MinDistance(t, w1, h1) <= d
    {
      DistancesValues(t, w1, h1, d);
    }
  }

  /**
   * Entry k is at the smallest distance, and every later entry is strictly
   * farther: k is the last entry, in table order, that attains the minimum.
   */
  ghost predicate IsLastNearest(t: seq<PaperSize>, w1: int, h1: int, k: nat)
  {
    && k < |t|
    && (forall j :: 0 <= j < |t| ==> Dist(w1, h1, t[k]) <= Dist(w1, h1, t[j]))
    && (forall j :: k < j < |t| ==> Dist(w1, h1, t[k]) < Dist(w1, h1, t[j]))
  }

  /** A reference definition of the nearest entry: scan in order, later ties win. */
  function ClosestIndex(t: seq<PaperSize>, w1: int, h1: int): (k: nat)
    requires |t| > 0
    ensures IsLastNearest(t, w1, h1, k)
    decreases |t|
  {
    if |t| == 1 then 0
    else
      var k := ClosestIndex(t[..|t| - 1], w1, h1);
      if Dist(w1, h1, t[|t| - 1]) <= Dist(w1, h1, t[k]) then |t| - 1 else k
  }

  /** The last nearest entry is unique. */
  lemma LastNearestUnique(t: seq<PaperSize>, w1: int, h1: int, k1: nat, k2: nat)
    requires IsLastNearest(t, w1, h1, k1) && IsLastNearest(t, w1, h1, k2)
    ensures k1 == k2
  {
    assert Dist(w1, h1, t[k1]) == Dist(w1, h1, t[k2]);
  }

  /** The program's key lookup `distances[min(...)]` picks the last nearest entry. */
  lemma {:induction false} ClosestKeyIsLastNearest(t: seq<PaperSize>, w1: int, h1: int, k: nat)
    requires IsLastNearest(t, w1, h1, k)
    ensures MinDistance(t, w1, h1) == Dist(w1, h1, t[k])
    ensures MinDistance(t, w1, h1) in Distances(t, w1, h1)
      && Distances(t, w1, h1)[MinDistance(t, w1, h1)] == t[k].name
  {
    assert LastAtDistance(t, w1, h1, k);
    DistancesLast(t, w1, h1, k);
  }

  /**
   * Orientation normalisation (pdfsort.py:123): portrait keeps the order,
   * landscape swaps. Rounding is monotone, so the rounded sides of a page
   * agree with its orientation flag; for such a page the pair is (short,
   * long). Either way the pair holds the two sides.
   */
  function Normalise(width: int, height: int, portrait: bool): (p: (int, int))
    ensures multiset{p.0, p.1} == multiset{width, height}
    ensures (portrait ==> width <= height) && (!portrait ==> height <= width) ==> p.0 <= p.1
  {
    if portrait then (width, height) else (height, width)
  }

  /** The orientation suffix, present only when `orient` is on (pdfsort.py:134, 139). */
  function Suffix(portrait: bool, orient: bool): string
  {
    if !orient then "" else if portrait then "-P" else "-L"
  }

  /** The standard size in parentheses, long side first for landscape (pdfsort.py:135-142). */
  function StdSize(e: PaperSize, portrait: bool): string
  {
    if portrait then IntToString(e.short) + "x" + IntToString(e.long)
    else IntToString(e.long) + "x" + IntToString(e.short)
  }

  /**
   * `find_fmt(iwidth, iheight, orient)` over a table t of paper sizes, on the
   * rounded sides and the orientation flag.
   */
  function FindFmt(t: seq<PaperSize>, width: int, height: int, portrait: bool, orient: bool): (fmt: string)
    requires |t| > 0
  {
    var pair := Normalise(width, height, portrait);
    var w1 := pair.0;
    var h1 := pair.1;
    var distances := Distances(t, w1, h1);
    var closest := MinDistance(t, w1, h1);
    DistancesKeys(t, w1, h1);
    var key := distances[closest];
    DistancesValues(t, w1, h1, closest);
    match IndexOf(t, key)
    case None => assert false; ""
    case Some(k) =>
      var size := t[k];
      var orientation :=
        if portrait then (if orient then key + "-P" else key)
        else (if orient then key + "-L" else key);
      var sizeText :=
        if portrait then IntToString(size.short) + "x" + IntToString(size.long)
        else IntToString(size.long) + "x" + IntToString(size.short);
      if 0 <= closest <= 2 then orientation
      else IntToString(w1) + "x" + IntToString(h1) + " ~" + orientation + "(" + sizeText + ")"
  }

  /** The classifier of the program: `find_fmt` over the table `PaperSizes`. */
  function Classify(width: int, height: int, portrait: bool, orient: bool): string
  {
    FindFmt(Table(), width, height, portrait, orient)
  }

  /**
   * What `find_fmt` returns, in terms of the last nearest entry k of the
   * normalised pair: its name with the suffix when it lies within 2 points,
   * and otherwise the composite "{w1}x{h1} ~{name}{suffix}({std})".
   */
  lemma FindFmtNearest(t: seq<PaperSize>, width: int, height: int, portrait: bool, orient: bool, k: nat)
    requires NamesDistinct(t)
    requires IsLastNearest(t, Normalise(width, height, portrait).0, Normalise(width, height, portrait).1, k)
    ensures
      var (w1, h1) := Normalise(width, height, portrait);
      FindFmt(t, width, height, portrait, orient) ==
        if Dist(w1, h1, t[k]) <= 2 then t[k].name + Suffix(portrait, orient)
        else IntToString(w1) + "x" + IntToString(h1) + " ~" + t[k].name + Suffix(portrait, orient)
             + "(" + StdSize(t[k], portrait) + ")"
  {
    var (w1, h1) := Normalise(width, height, portrait);
    ClosestKeyIsLastNearest(t, w1, h1, k);
    IndexOfName(t, k);
    assert t[k].name + "" == t[k].name;
  }

  /** In a table whose entries are more than 4 points apart, an entry within 2 points is the last nearest. */
  lemma WithinToleranceIsNearest(t: seq<PaperSize>, w1: int, h1: int, k: nat)
    requires Separated(t, 4)
    requires k < |t| && Dist(w1, h1, t[k]) <= 2
    ensures IsLastNearest(t, w1, h1, k)
  {
    forall j | 0 <= j < |t| && j != k
      ensures Dist(w1, h1, t[k]) < Dist(w1, h1, t[j])
    {
      assert Gap(t[k], t[j]) > 4 by {
        if j < k { assert Gap(t[j], t[k]) > 4; }
      }
    }
  }

  /** The program's labels in terms of the last nearest entry k of the table. */
  lemma ClassifyNearest(width: int, height: int, portrait: bool, orient: bool, k: nat)
    requires IsLastNearest(Table(), Normalise(width, height, portrait).0, Normalise(width, height, portrait).1, k)
    ensures
      var (w1, h1) := Normalise(width, height, portrait);
      var e := Table()[k];
      Classify(width, height, portrait, orient) ==
        if Dist(w1, h1, e) <= 2 then e.name + Suffix(portrait, orient)
        else IntToString(w1) + "x" + IntToString(h1) + " ~" + e.name + Suffix(portrait, orient)
             + "(" + StdSize(e, portrait) + ")"
  {
    TableNamesDistinct();
    FindFmtNearest(Table(), width, height, portrait, orient, k);
  }

  /** An input within the tolerance of 2 points of an entry is labelled with that entry. */
  lemma ClassifyWithinTolerance(width: int, height: int, portrait: bool, orient: bool, k: nat)
    requires k < |Table()|
    requires Dist(Normalise(width, height, portrait).0, Normalise(width, height, portrait).1, Table()[k]) <= 2
    ensures Classify(width, height, portrait, orient) == Table()[k].name + Suffix(portrait, orient)
  {
    var (w1, h1) := Normalise(width, height, portrait);
    TableSeparated();
    TableNamesDistinct();
    WithinToleranceIsNearest(Table(), w1, h1, k);
    FindFmtNearest(Table(), width, height, portrait, orient, k);
  }

  /**
   * The exact sizes of the table: (s, l) is recognised as the entry, with
   * "-P" when orient is on, and (l, s) likewise with "-L".
   */
  lemma ClassifyExact(k: nat, orient: bool)
    requires k < |Table()|
    ensures Classify(Table()[k].short, Table()[k].long, true, orient)
      == Table()[k].name + (if orient then "-P" else "")
    ensures Classify(Table()[k].long, Table()[k].short, false, orient)
      == Table()[k].name + (if orient then "-L" else "")
  {
    ClassifyWithinTolerance(Table()[k].short, Table()[k].long, true, orient, k);
    ClassifyWithinTolerance(Table()[k].long, Table()[k].short, false, orient, k);
  }

  /** Two texts "a x b" and "c x d" whose first parts hold no 'x' split at the same place. */
  lemma SplitAtX(a: string, b: string, c: string, d: string)
    requires forall i :: 0 <= i < |a| ==> a[i] != 'x'
    requires forall i :: 0 <= i < |c| ==> c[i] != 'x'
    requires a + "x" + b == c + "x" + d
    ensures a == c
  {
    var s := a + "x" + b;
    assert s[|a|] == 'x' && s[|c|] == 'x';
    assert forall i :: 0 <= i < |a| ==> s[i] == a[i];
    assert forall i :: 0 <= i < |c| ==> s[i] == c[i];
    assert |a| == |c|;
    assert a == s[..|a|];
  }

  /** The standard size reads differently in the two orientations unless the entry is square. */
  lemma StdSizeOrientations(e: PaperSize)
    requires e.short != e.long
    ensures StdSize(e, true) != StdSize(e, false)
  {
    IntToStringChars(e.short);
    IntToStringChars(e.long);
    if StdSize(e, true) == StdSize(e, false) {
      SplitAtX(IntToString(e.short), IntToString(e.long), IntToString(e.long), IntToString(e.short));
      IntToStringInjective(e.short, e.long);
    }
  }

  /**
   * With orient off, a page (w, h) read as portrait and the same page turned
   * to (h, w) read as landscape get the same label exactly when the page is
   * within tolerance of its nearest entry; otherwise the composite labels
   * differ in the standard size, which is written long side first for landscape.
   */
  lemma FindFmtOrientationFolded(t: seq<PaperSize>, w: int, h: int)
    requires |t| > 0 && NamesDistinct(t)
    requires forall i :: 0 <= i < |t| ==> t[i].short != t[i].long
    ensures FindFmt(t, w, h, true, false) == FindFmt(t, h, w, false, false)
        <==> MinDistance(t, w, h) <= 2
  {
    var k := ClosestIndex(t, w, h);
    FindFmtNearest(t, w, h, true, false, k);
    FindFmtNearest(t, h, w, false, false, k);
    ClosestKeyIsLastNearest(t, w, h, k);
    if MinDistance(t, w, h) > 2 {
      var e := t[k];
      var prefix := IntToString(w) + "x" + IntToString(h) + " ~" + e.name + "" + "(";
      StdSizeOrientations(e);
      if FindFmt(t, w, h, true, false) == FindFmt(t, h, w, false, false) {
        SuffixCancel(prefix + StdSize(e, true), prefix + StdSize(e, false), ")");
        PrefixCancel(prefix, StdSize(e, true), StdSize(e, false));
      }
    }
  }

  /** The same for the program's table, whose entries are never square. */
  lemma OrientationFoldedIffNear(w: int, h: int)
    ensures Classify(w, h, true, false) == Classify(h, w, false, false)
        <==> MinDistance(Table(), w, h) <= 2
  {
    TableOrdered();
    TableNamesDistinct();
    FindFmtOrientationFolded(Table(), w, h);
  }

  /** Letter is the last nearest entry to 600 x 800, at distance 20. */
  lemma NearestTo600x800()
    ensures IsLastNearest(Table(), 600, 800, 27) && Table()[27] == PaperSize("Letter", 612, 792)
    ensures Dist(600, 800, Table()[27]) == 20
  {
    assert forall j :: 0 <= j < Size ==>
      Dist(600, 800, Entry(j)) >= 20 && (j != 27 ==> Dist(600, 800, Entry(j)) > 20);
  }

  /** The label of a 600 x 800 page in either orientation, in terms of Letter. */
  lemma ClassifyNear600x800(portrait: bool, orient: bool)
    ensures
      var (width, height) := if portrait then (600, 800) else (800, 600);
      Classify(width, height, portrait, orient)
        == IntToString(600) + "x" + IntToString(800) + " ~" + "Letter" + Suffix(portrait, orient)
           + "(" + StdSize(PaperSize("Letter", 612, 792), portrait) + ")"
  {
    NearestTo600x800();
    var (width, height) := if portrait then (600, 800) else (800, 600);
    ClassifyNearest(width, height, portrait, orient, 27);
  }

  /** The text of a three-digit number, digit by digit. */
  lemma ThreeDigits(n: nat)
    requires 100 <= n < 1000
    ensures NatToString(n) == [DigitChar(n / 100), DigitChar(n / 10 % 10), DigitChar(n % 10)]
  {
    var tens := n / 10;
    assert 10 <= tens < 100;
    assert tens / 10 == n / 100;
    assert NatToString(tens) == [DigitChar(tens / 10)] + [DigitChar(tens % 10)];
    assert NatToString(n) == NatToString(tens) + [DigitChar(n % 10)];
  }

  /** The numbers of the Letter examples as text. */
  lemma LetterNumbers()
    ensures IntToString(600) == "600" && IntToString(800) == "800"
    ensures IntToString(612) == "612" && IntToString(792) == "792"
  {
    ThreeDigits(600);
    ThreeDigits(800);
    ThreeDigits(612);
    ThreeDigits(792);
  }

  /** The front of the composite text of a 600 x 800 page near Letter. */
  lemma LetterPrefix()
    ensures IntToString(600) + "x" + IntToString(800) + " ~" + "Letter" == "600x800 ~Letter"
  {
    LetterNumbers();
  }

  /** The standard size of Letter in either orientation. */
  lemma LetterStdSize()
    ensures StdSize(PaperSize("Letter", 612, 792), true) == "612x792"
    ensures StdSize(PaperSize("Letter", 612, 792), false) == "792x612"
  {
    LetterNumbers();
  }

  /** The composite texts of a 600 x 800 page near Letter, one per orientation setting. */
  lemma LetterTextPortrait()
    ensures IntToString(600) + "x" + IntToString(800) + " ~" + "Letter" + Suffix(true, false)
      + "(" + StdSize(PaperSize("Letter", 612, 792), true) + ")" == "600x800 ~Letter(612x792)"
  {
    LetterPrefix();
    LetterStdSize();
  }

  lemma LetterTextPortraitOriented()
    ensures IntToString(600) + "x" + IntToString(800) + " ~" + "Letter" + Suffix(true, true)
      + "(" + StdSize(PaperSize("Letter", 612, 792), true) + ")" == "600x800 ~Letter-P(612x792)"
  {
    LetterPrefix();
    LetterStdSize();
  }

  lemma LetterTextLandscapeOriented()
    ensures IntToString(600) + "x" + IntToString(800) + " ~" + "Letter" + Suffix(false, true)
      + "(" + StdSize(PaperSize("Letter", 612, 792), false) + ")" == "600x800 ~Letter-L(792x612)"
  {
    LetterPrefix();
    LetterStdSize();
  }

  /**
   * A 600 x 800 page is 20 points from Letter, so it gets the composite label;
   * the suffix appears only with orient on, the pair is printed short side
   * first, and the standard size is swapped for landscape.
   */
  lemma ExampleNearLetter()
    ensures Classify(600, 800, true, false) == "600x800 ~Letter(612x792)"
    ensures Classify(600, 800, true, true) == "600x800 ~Letter-P(612x792)"
    ensures Classify(800, 600, false, true) == "600x800 ~Letter-L(792x612)"
  {
    ClassifyNear600x800(true, false);
    ClassifyNear600x800(true, true);
    ClassifyNear600x800(false, true);
    LetterTextPortrait();
    LetterTextPortraitOriented();
    LetterTextLandscapeOriented();
  }

  /** Entry 4 of the table is A4, 595 x 842. */
  lemma EntryA4()
    ensures Table()[4] == PaperSize("A4", 595, 842)
  {
  }

  /** An A4 page upright is labelled A4, with "-P" when orient is on. */
  lemma ExampleA4Portrait(orient: bool)
    ensures Classify(595, 842, true, orient) == "A4" + Suffix(true, orient)
  {
    EntryA4();
    ClassifyWithinTolerance(595, 842, true, orient, 4);
  }

  /** An A4 page on its side is labelled A4, with "-L" when orient is on. */
  lemma ExampleA4Landscape(orient: bool)
    ensures Classify(842, 595, false, orient) == "A4" + Suffix(false, orient)
  {
    EntryA4();
    ClassifyWithinTolerance(842, 595, false, orient, 4);
  }
}
