/**
 * The paper-size table of PDFSort (pdfsort.py:19-69): an immutable, ordered
 * table of named paper sizes, each given as (short side, long side) in points.
 *
 * The program writes the table as a Python dict literal. The literal names
 * "A1\U{0445}3" twice (pdfsort.py:65-66); a dict literal keeps the first
 * position of a repeated key and the last value, so the effective table has
 * 48 entries and "A1\U{0445}3" maps to 2384 x 6742. The names use the
 * Cyrillic letter U+0445, written here as \U{0445}.
 */
module PaperSizes {
  import opened Wrappers

  datatype PaperSize = PaperSize(name: string, short: int, long: int)

  const Size: nat := 48

  /** Entry i of the effective table, in the order of the dict literal. */
  function Entry(i: nat): (e: PaperSize)
    requires i < Size
  {
    match i
    case 0 => PaperSize("A0", 2384, 3370)
    case 1 => PaperSize("A1", 1684, 2384)
    case 2 => PaperSize("A2", 1190, 1684)
    case 3 => PaperSize("A3", 842, 1190)
    case 4 => PaperSize("A4", 595, 842)
    case 5 => PaperSize("A5", 420, 595)
    case 6 => PaperSize("A6", 298, 420)
    case 7 => PaperSize("A7", 210, 298)
    case 8 => PaperSize("A8", 148, 210)
    case 9 => PaperSize("B0", 2835, 4008)
    case 10 => PaperSize("B1", 2004, 2835)
    case 11 => PaperSize("B2", 1417, 2004)
    case 12 => PaperSize("B3", 1001, 1417)
    case 13 => PaperSize("B4", 709, 1001)
    case 14 => PaperSize("B5", 499, 709)
    case 15 => PaperSize("B6", 354, 499)
    case 16 => PaperSize("B7", 249, 354)
    case 17 => PaperSize("B8", 176, 249)
    case 18 => PaperSize("B9", 125, 176)
    case 19 => PaperSize("B10", 88, 125)
    case 20 => PaperSize("C2", 578, 1837)
    case 21 => PaperSize("C3", 578, 919)
    case 22 => PaperSize("C4", 649, 919)
    case 23 => PaperSize("C5", 459, 649)
    case 24 => PaperSize("C6", 323, 459)
    case 25 => PaperSize("Invoice", 396, 612)
    case 26 => PaperSize("Executive", 522, 756)
    case 27 => PaperSize("Letter", 612, 792)
    case 28 => PaperSize("Legal", 612, 1008)
    case 29 => PaperSize("Ledger", 792, 1224)
    case 30 => PaperSize("A4\U{0445}3", 842, 1785)
    case 31 => PaperSize("A4\U{0445}4", 842, 2383)
    case 32 => PaperSize("A4\U{0445}5", 842, 2978)
    case 33 => PaperSize("A4\U{0445}6", 842, 3573)
    case 34 => PaperSize("A4\U{0445}7", 842, 4168)
    case 35 => PaperSize("A4\U{0445}8", 842, 4766)
    case 36 => PaperSize("A4\U{0445}9", 842, 5361)
    case 37 => PaperSize("A3\U{0445}3", 1190, 2526)
    case 38 => PaperSize("A3\U{0445}4", 1190, 3371)
    case 39 => PaperSize("A3\U{0445}5", 1190, 4213)
    case 40 => PaperSize("A3\U{0445}6", 1190, 5055)
    case 41 => PaperSize("A3\U{0445}7", 1190, 5897)
    case 42 => PaperSize("A2\U{0445}3", 1684, 3573)
    case 43 => PaperSize("A2\U{0445}4", 1684, 4766)
    case 44 => PaperSize("A2\U{0445}5", 1684, 5956)
    case 45 => PaperSize("A1\U{0445}3", 2384, 6742)
    case 46 => PaperSize("A0\U{0445}2", 3370, 4768)
    case 47 => PaperSize("A0\U{0445}3", 3370, 7152)
    case _ => assert false; PaperSize("", 0, 0)
  }

  /** The table in iteration order (the dict's insertion order). */
  function Table(): (t: seq<PaperSize>)
    ensures |t| == Size
    ensures forall i :: 0 <= i < Size ==> t[i] == Entry(i)
  {
    seq(Size, i requires 0 <= i < Size => Entry(i))
  }

  function Abs(x: int): nat { if x < 0 then -x else x }

  /** Manhattan distance between the (short, long) pairs of two entries. */
  function Gap(a: PaperSize, b: PaperSize): nat
  {
    Abs(a.short - b.short) + Abs(a.long - b.long)
  }

  /** Every entry has positive sides and its short side strictly below its long side. */
  lemma TableOrdered()
    ensures |Table()| == Size
    ensures forall i :: 0 <= i < |Table()| ==> 0 < Table()[i].short < Table()[i].long
  {
  }

  /** No two entries of t share a name, as in a dict. */
  ghost predicate NamesDistinct(t: seq<PaperSize>)
  {
    forall i, j :: 0 <= i < j < |t| ==> t[i].name != t[j].name
  }

  /** Any two entries of t are more than `gap` points apart. */
  ghost predicate Separated(t: seq<PaperSize>, gap: nat)
  {
    forall i, j :: 0 <= i < j < |t| ==> Gap(t[i], t[j]) > gap
  }

  /** The table has one entry per name, as a dict does. */
  lemma TableNamesDistinct()
    ensures NamesDistinct(Table())
  {
    NamesDistinctFrom0();
    NamesDistinctFrom12();
    NamesDistinctFrom24();
    NamesDistinctFrom36();
  }

  /** The names of entries 0 to 11 differ from the names of all later entries. */
  lemma NamesDistinctFrom0()
    ensures forall i, j :: 0 <= i < 12 && i < j < Size ==> Entry(i).name != Entry(j).name
  {
  }

  /** The names of entries 12 to 23 differ from the names of all later entries. */
  lemma NamesDistinctFrom12()
    ensures forall i, j :: 12 <= i < 24 && i < j < Size ==> Entry(i).name != Entry(j).name
  {
  }

  /** The names of entries 24 to 35 differ from the names of all later entries. */
  lemma NamesDistinctFrom24()
    ensures forall i, j :: 24 <= i < 36 && i < j < Size ==> Entry(i).name != Entry(j).name
  {
  }

  /** The names of entries 36 to 47 differ from the names of all later entries. */
  lemma NamesDistinctFrom36()
    ensures forall i, j :: 36 <= i < 48 && i < j < Size ==> Entry(i).name != Entry(j).name
  {
  }

  /** Any two entries are more than twice the tolerance of 2 points apart. */
  lemma TableSeparated()
    ensures Separated(Table(), 4)
  {
    SeparatedFrom0();
    SeparatedFrom12();
    SeparatedFrom24();
    SeparatedFrom36();
  }

  /** Entries 0 to 11 are more than 4 points from all later entries. */
  lemma SeparatedFrom0()
    ensures forall i, j :: 0 <= i < 12 && i < j < Size ==> Gap(Entry(i), Entry(j)) > 4
  {
  }

  /** Entries 12 to 23 are more than 4 points from all later entries. */
  lemma SeparatedFrom12()
    ensures forall i, j :: 12 <= i < 24 && i < j < Size ==> Gap(Entry(i), Entry(j)) > 4
  {
  }

  /** Entries 24 to 35 are more than 4 points from all later entries. */
  lemma SeparatedFrom24()
    ensures forall i, j :: 24 <= i < 36 && i < j < Size ==> Gap(Entry(i), Entry(j)) > 4
  {
  }

  /** Entries 36 to 47 are more than 4 points from all later entries. */
  lemma SeparatedFrom36()
    ensures forall i, j :: 36 <= i < 48 && i < j < Size ==> Gap(Entry(i), Entry(j)) > 4
  {
  }

  /** The repeated key keeps its first position and its second value. */
  lemma DuplicateKeyResolved()
    ensures Table()[45] == PaperSize("A1\U{0445}3", 2384, 6742)
    ensures forall i :: 0 <= i < |Table()| && Table()[i].name == "A1\U{0445}3" ==> i == 45
    ensures forall i :: 0 <= i < |Table()| ==> (Table()[i].short, Table()[i].long) != (2384, 5055)
  {
  }

  /**
   * Dict access `PaperSizes[name]`: the position of the entry named `name`,
   * or None when no entry has that name.
   */
  function IndexOf(t: seq<PaperSize>, name: string): (r: Option<nat>)
    ensures r.Some? ==> r.value < |t| && t[r.value].name == name
    ensures r.Some? ==> forall j :: 0 <= j < r.value ==> t[j].name != name
    ensures r.None? ==> forall j :: 0 <= j < |t| ==> t[j].name != name
    decreases |t|
  {
    if t == [] then None
    else if t[0].name == name then Some(0)
    else match IndexOf(t[1..], name)
      case None => None
      case Some(k) => Some(k + 1)
  }

  /** In a table with distinct names, looking up the name of entry k finds entry k. */
  lemma IndexOfName(t: seq<PaperSize>, k: nat)
    requires NamesDistinct(t) && k < |t|
    ensures IndexOf(t, t[k].name) == Some(k)
  {
  }
}
