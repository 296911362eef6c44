/**
 * The text table of `draw_format_info_tab` (pdfsort.py:168-177): a header
 * line, a rule line, then one line per format in ascending order of the
 * label, the label right-aligned to 27 characters and the count to 9.
 */
module FormatTable {
  import opened Decimal

  /** Python's `a < b` on strings: code-point lexicographic order, a proper prefix first. */
  predicate LexLess(a: string, b: string)
    decreases |a|
  {
    if a == [] then b != []
    else if b == [] then false
    else if a[0] != b[0] then a[0] < b[0]
    else LexLess(a[1..], b[1..])
  }

  lemma {:induction false} LexLessIrreflexive(a: string)
    ensures !LexLess(a, a)
    decreases |a|
  {
    if a != [] { LexLessIrreflexive(a[1..]); }
  }

  lemma {:induction false} LexLessAsymmetric(a: string, b: string)
    requires LexLess(a, b)
    ensures !LexLess(b, a)
    decreases |a|
  {
    if a != [] && b != [] && a[0] == b[0] { LexLessAsymmetric(a[1..], b[1..]); }
  }

  lemma {:induction false} LexLessTransitive(a: string, b: string, c: string)
    requires LexLess(a, b) && LexLess(b, c)
    ensures LexLess(a, c)
    decreases |a|
  {
    if a != [] && a[0] == b[0] && b[0] == c[0] {
      LexLessTransitive(a[1..], b[1..], c[1..]);
    }
  }

  /** Two different strings are ordered one way or the other. */
  lemma {:induction false} LexLessTotal(a: string, b: string)
    requires a != b
    ensures LexLess(a, b) || LexLess(b, a)
    decreases |a|
  {
    if a != [] && b != [] && a[0] == b[0] {
      assert a == [a[0]] + a[1..] && b == [b[0]] + b[1..];
      LexLessTotal(a[1..], b[1..]);
    }
  }

  /** Strictly ascending, hence also free of repeats. */
  ghost predicate StrictlySorted(s: seq<string>)
  {
    forall i, j :: 0 <= i < j < |s| ==> LexLess(s[i], s[j])
  }

  function Elements(s: seq<string>): set<string>
  {
    set x | x in s
  }

  ghost predicate IsLeast(m: string, keys: set<string>)
  {
    m in keys && forall x :: x in keys && x != m ==> LexLess(m, x)
  }

  lemma {:induction false} LeastExists(keys: set<string>)
    requires keys != {}
    ensures exists m :: IsLeast(m, keys)
    decreases |keys|
  {
    var y :| y in keys;
    var rest := keys - {y};
    if rest == {} {
      assert keys == {y};
      assert IsLeast(y, keys);
    } else {
      LeastExists(rest);
      var m :| IsLeast(m, rest);
      if LexLess(y, m) {
        forall x | x in keys && x != y
          ensures LexLess(y, x)
        {
          if x != m { LexLessTransitive(y, m, x); }
        }
        assert IsLeast(y, keys);
      } else {
        LexLessTotal(y, m);
        assert IsLeast(m, keys);
      }
    }
  }

  lemma {:induction false} SortedExists(keys: set<string>)
    ensures exists s :: StrictlySorted(s) && Elements(s) == keys
    decreases |keys|
  {
    if keys == {} {
      assert StrictlySorted([]) && Elements([]) == keys;
    } else {
      LeastExists(keys);
      var m :| IsLeast(m, keys);
      SortedExists(keys - {m});
      var s :| StrictlySorted(s) && Elements(s) == keys - {m};
      forall i | 0 <= i < |s|
        ensures LexLess(m, s[i])
      {
        assert s[i] in Elements(s);
      }
      SortedCons(m, s);
      assert Elements([m] + s) == keys;
    }
  }

  /** A key below every element of an ascending list can go in front of it. */
  lemma SortedCons(m: string, s: seq<string>)
    requires StrictlySorted(s)
    requires forall i :: 0 <= i < |s| ==> LexLess(m, s[i])
    ensures StrictlySorted([m] + s)
    ensures Elements([m] + s) == {m} + Elements(s)
  {
    var r := [m] + s;
    forall i, j | 0 <= i < j < |r|
      ensures LexLess(r[i], r[j])
    {
      assert r[j] == s[j - 1];
      if i > 0 {
        assert r[i] == s[i - 1];
      }
    }
  }

  /** `sorted(keys)`: the keys in ascending order, each once. */
  ghost function SortedKeys(keys: set<string>): (s: seq<string>)
    ensures StrictlySorted(s) && Elements(s) == keys && |s| == |keys|
  {
    SortedExists(keys);
    var s :| StrictlySorted(s) && Elements(s) == keys;
    DistinctCard(s);
    s
  }

  /** There is only one ascending arrangement of a set of strings. */
  lemma {:induction false} SortedUnique(a: seq<string>, b: seq<string>)
    requires StrictlySorted(a) && StrictlySorted(b) && Elements(a) == Elements(b)
    ensures a == b
    decreases |a|
  {
    DistinctCard(a);
    DistinctCard(b);
    if a != [] {
      assert a[0] in Elements(b) && b[0] in Elements(a);
      if a[0] != b[0] {
        var i :| 0 <= i < |b| && b[i] == a[0];
        var j :| 0 <= j < |a| && a[j] == b[0];
        LexLessAsymmetric(a[0], b[0]);
      }
      assert forall x :: x in a[1..] ==> x != a[0] by {
        forall k | 1 <= k < |a| ensures a[k] != a[0] { LexLessIrreflexive(a[0]); }
      }
      assert forall x :: x in b[1..] ==> x != b[0] by {
        forall k | 1 <= k < |b| ensures b[k] != b[0] { LexLessIrreflexive(b[0]); }
      }
      assert Elements(a[1..]) == Elements(a) - {a[0]} by {
        assert a == [a[0]] + a[1..];
      }
      assert Elements(b[1..]) == Elements(b) - {b[0]} by {
        assert b == [b[0]] + b[1..];
      }
      SortedUnique(a[1..], b[1..]);
    }
  }

  /** The least of a non-empty set of labels, by a pass over the set. */
  method Least(keys: set<string>) returns (m: string)
    requires keys != {}
    ensures IsLeast(m, keys)
  {
    m :| m in keys;
    var todo := keys - {m};
    while todo != {}
      invariant todo <= keys && m in keys && m !in todo
      invariant forall x :: x in keys && x !in todo && x != m ==> LexLess(m, x)
      decreases |todo|
    {
      var y :| y in todo;
      if LexLess(y, m) {
        forall x | x in keys && x !in todo && x != m
          ensures LexLess(y, x)
        {
          LexLessTransitive(y, m, x);
        }
        LexLessAsymmetric(y, m);
        m := y;
      } else if y != m {
        LexLessTotal(y, m);
      }
      todo := todo - {y};
    }
  }

  /** The ordering done by `sorted(format_info.items())`: repeatedly take out the least key. */
  method SortLabels(keys: set<string>) returns (sorted: seq<string>)
    ensures sorted == SortedKeys(keys)
  {
    sorted := [];
    var rest := keys;
    while rest != {}
      invariant rest <= keys
      invariant StrictlySorted(sorted)
      invariant Elements(sorted) == keys - rest
      invariant forall i, x :: 0 <= i < |sorted| && x in rest ==> LexLess(sorted[i], x)
      decreases |rest|
    {
      var m := Least(rest);
      SelectionStep(keys, sorted, rest, m);
      sorted := sorted + [m];
      rest := rest - {m};
    }
    SortedUnique(sorted, SortedKeys(keys));
  }

  /** Taking out the least remaining key keeps the output ascending and below what remains. */
  lemma SelectionStep(keys: set<string>, sorted: seq<string>, rest: set<string>, m: string)
    requires rest <= keys && StrictlySorted(sorted) && Elements(sorted) == keys - rest
    requires forall i, x :: 0 <= i < |sorted| && x in rest ==> LexLess(sorted[i], x)
    requires IsLeast(m, rest)
    ensures StrictlySorted(sorted + [m])
    ensures Elements(sorted + [m]) == keys - (rest - {m})
    ensures forall i, x :: 0 <= i < |sorted + [m]| && x in rest - {m} ==> LexLess((sorted + [m])[i], x)
  {
    var r := sorted + [m];
    assert forall i :: 0 <= i < |sorted| ==> r[i] == sorted[i];
    assert Elements(r) == Elements(sorted) + {m};
    forall i, x | 0 <= i < |r| && x in rest - {m}
      ensures LexLess(r[i], x)
    {
      if i == |sorted| { assert r[i] == m; }
    }
  }

  /** `c * n`: n copies of the character c. */
  function Repeat(c: char, n: nat): (s: string)
    ensures |s| == n && forall i :: 0 <= i < n ==> s[i] == c
  {
    seq(n, _ => c)
  }

  /** `format(s, ">width")`: s right-aligned in a field of `width` characters, never cut. */
  function PadLeft(s: string, width: nat): (r: string)
    ensures |r| == if |s| < width then width else |s|
    ensures r[|r| - |s|..] == s
    ensures forall i :: 0 <= i < |r| - |s| ==> r[i] == ' '
  {
    if |s| < width then Repeat(' ', width - |s|) + s else s
  }

  const LabelWidth: nat := 27
  const CountWidth: nat := 9

  /** The two header lines printed before the rows (pdfsort.py:175). */
  function Header(): (lines: seq<string>)
    ensures |lines| == 2
    ensures |lines[0]| == LabelWidth + 1 + CountWidth && |lines[1]| == LabelWidth + 2 + 8
  {
    [PadLeft("Format", LabelWidth) + " " + PadLeft("Count", CountWidth),
     Repeat('-', LabelWidth) + "  --------"]
  }

  /** One row: the label right-aligned to 27, a space, the count right-aligned to 9 (pdfsort.py:177). */
  function Row(fmt: string, count: nat): string
  {
    PadLeft(fmt, LabelWidth) + " " + PadLeft(NatToString(count), CountWidth)
  }

  /**
   * A row of a label of at most 27 characters and a count of at most
   * nine digits is 37 characters wide; the label ends at column 27 and the
   * count at the end of the line, each preceded only by spaces.
   */
  lemma RowFields(fmt: string, count: nat)
    requires |fmt| <= LabelWidth && |NatToString(count)| <= CountWidth
    ensures |Row(fmt, count)| == LabelWidth + 1 + CountWidth
    ensures Row(fmt, count)[LabelWidth - |fmt|..LabelWidth] == fmt
    ensures Row(fmt, count)[LabelWidth] == ' '
    ensures Row(fmt, count)[|Row(fmt, count)| - |NatToString(count)|..] == NatToString(count)
    ensures forall i :: 0 <= i < LabelWidth - |fmt| ==> Row(fmt, count)[i] == ' '
  {
    var digits := NatToString(count);
    var a := PadLeft(fmt, LabelWidth);
    var b := PadLeft(digits, CountWidth);
    var r := Row(fmt, count);
    assert |a| == LabelWidth && |b| == CountWidth;
    JoinFields(a, b);
    assert r[..LabelWidth] == a;
    assert r[LabelWidth + 1..] == b;
    assert r[LabelWidth - |fmt|..LabelWidth] == r[..LabelWidth][LabelWidth - |fmt|..];
    assert r[|r| - |digits|..] == r[LabelWidth + 1..][CountWidth - |digits|..];
  }

  /** The two fields of a row, and the space between them, read back. */
  lemma JoinFields(a: string, b: string)
    ensures |a + " " + b| == |a| + 1 + |b|
    ensures (a + " " + b)[..|a|] == a
    ensures (a + " " + b)[|a|] == ' '
    ensures (a + " " + b)[|a| + 1..] == b
  {
  }

  /**
   * `draw_format_info_tab(format_info)` (pdfsort.py:168-177): the lines it
   * prints, the header first and then one row per key in ascending order.
   */
  method DrawFormatInfoTab(counts: map<string, nat>) returns (lines: seq<string>)
    ensures |lines| == 2 + |counts|
    ensures lines[..2] == Header()
    ensures forall i :: 0 <= i < |counts| ==>
      lines[2 + i] == Row(SortedKeys(counts.Keys)[i], counts[SortedKeys(counts.Keys)[i]])
  {
    var keys := SortLabels(counts.Keys);
    var rows := FormatRows(keys, counts);
    lines := Header() + rows;
    assert lines[..2] == Header();
  }

  /** The loop of `draw_format_info_tab` (pdfsort.py:176-177): one row per key, in the given order. */
  method FormatRows(keys: seq<string>, counts: map<string, nat>) returns (rows: seq<string>)
    requires forall k :: 0 <= k < |keys| ==> keys[k] in counts
    ensures |rows| == |keys|
    ensures forall k :: 0 <= k < |keys| ==> rows[k] == Row(keys[k], counts[keys[k]])
  {
    rows := [];
    for i := 0 to |keys|
      invariant |rows| == i
      invariant forall k :: 0 <= k < i ==> rows[k] == Row(keys[k], counts[keys[k]])
    {
      rows := rows + [Row(keys[i], counts[keys[i]])];
    }
  }

  lemma {:induction false} DistinctCard(s: seq<string>)
    requires StrictlySorted(s)
    ensures |Elements(s)| == |s|
    decreases |s|
  {
    if s != [] {
      var n := |s| - 1;
      DistinctCard(s[..n]);
      assert s == s[..n] + [s[n]];
      assert Elements(s) == Elements(s[..n]) + {s[n]};
      assert s[n] !in Elements(s[..n]) by {
        forall k | 0 <= k < n ensures s[k] != s[n] { LexLessIrreflexive(s[n]); }
      }
    }
  }

  /** The keys {"Letter", "A4"} are listed A4 first, whatever order they were counted in. */
  lemma ExampleOrder()
    ensures SortedKeys({"Letter", "A4"}) == ["A4", "Letter"]
  {
    assert LexLess("A4", "Letter");
    assert Elements(["A4", "Letter"]) == {"Letter", "A4"};
    SortedUnique(["A4", "Letter"], SortedKeys({"Letter", "A4"}));
  }
}
