/** The pivot summary of a search result: `groupby` on the verbatim
    (Brand, Model, Year, Category) columns, `size()` of every group, and the
    groups sorted by that size, largest first. */
module Summary {
  import opened Catalog

  /** A group label: the four grouping columns exactly as stored. */
  datatype GroupKey = GroupKey(brand: string, model: string, year: string, category: string)

  /** One line of the summary: a group and its "Parts" count. */
  datatype SummaryRow = SummaryRow(key: GroupKey, parts: nat)

  /** The group label of a result row. */
  function KeyOf(r: Row): GroupKey {
    GroupKey(r.part.brand, r.part.model, r.part.year, r.part.category)
  }

  /** The number of rows labelled `k`: the `size()` of group `k`. */
  function GroupSize(rows: seq<Row>, k: GroupKey): (n: nat)
    ensures n <= |rows|
    ensures n > 0 <==> exists r :: r in rows && KeyOf(r) == k
  {
    if rows == [] then 0
    else
      var init, last := rows[..|rows| - 1], rows[|rows| - 1];
      assert rows == init + [last];
      GroupSize(init, k) + (if KeyOf(last) == k then 1 else 0)
  }

  /** The labels of `rows`, each once, in order of first appearance. */
  function GroupKeys(rows: seq<Row>): (ks: seq<GroupKey>)
    ensures forall k :: k in ks <==> exists r :: r in rows && KeyOf(r) == k
    ensures forall i, j :: 0 <= i < j < |ks| ==> ks[i] != ks[j]
  {
    if rows == [] then []
    else
      var init, last := rows[..|rows| - 1], rows[|rows| - 1];
      assert rows == init + [last];
      var ks := GroupKeys(init);
      if KeyOf(last) in ks then ks else ks + [KeyOf(last)]
  }

  /** No two summary lines carry the same label. */
  predicate DistinctKeys(s: seq<SummaryRow>) {
    forall i, j :: 0 <= i < j < |s| ==> s[i].key != s[j].key
  }

  /** Counts never increase from one line to a later one. */
  ghost predicate NonIncreasing(s: seq<SummaryRow>) {
    forall i, j :: 0 <= i < j < |s| ==> s[i].parts >= s[j].parts
  }

  /** The sum of the "Parts" column. */
  function Total(s: seq<SummaryRow>): nat {
    if s == [] then 0 else s[0].parts + Total(s[1..])
  }

  /** What the pivot table of `app.py` holds for the result `rows`:
      one line per group with that group's exact size, and larger groups
      first. The order among equal sizes is left open. */
  ghost predicate IsSummaryOf(rows: seq<Row>, s: seq<SummaryRow>) {
    && DistinctKeys(s)
    && NonIncreasing(s)
    && (forall i :: 0 <= i < |s| ==> s[i].parts == GroupSize(rows, s[i].key) && s[i].parts >= 1)
    && (forall r :: r in rows ==> exists i :: 0 <= i < |s| && s[i].key == KeyOf(r))
  }

  /** One line per label in `ks`, counting the rows of that label. */
  function Tally(ks: seq<GroupKey>, rows: seq<Row>): seq<SummaryRow> {
    seq(|ks|, i requires 0 <= i < |ks| => SummaryRow(ks[i], GroupSize(rows, ks[i])))
  }

  /** Places `x` in front of the first line whose count does not exceed its own. */
  function Insert(x: SummaryRow, s: seq<SummaryRow>): (r: seq<SummaryRow>)
    ensures |r| == |s| + 1
    ensures forall y :: y in r <==> y == x || y in s
    ensures multiset(r) == multiset(s) + multiset{x}
  {
    if s == [] || s[0].parts <= x.parts then
      assert ([x] + s)[1..] == s;
      [x] + s
    else
      var rest := Insert(x, s[1..]);
      assert s == [s[0]] + s[1..];
      assert ([s[0]] + rest)[1..] == rest;
      [s[0]] + rest
  }

  /** Inserting into lines of non-increasing count keeps them non-increasing. */
  lemma {:induction false} InsertNonIncreasing(x: SummaryRow, s: seq<SummaryRow>)
    requires NonIncreasing(s)
    ensures NonIncreasing(Insert(x, s))
  {
    var r := Insert(x, s);
    if s == [] || s[0].parts <= x.parts {
      forall i, j | 0 <= i < j < |r| ensures r[i].parts >= r[j].parts {
        assert r[j] == s[j - 1];
        if i > 0 {
          assert r[i] == s[i - 1];
        }
      }
    } else {
      var rest := Insert(x, s[1..]);
      assert NonIncreasing(s[1..]) by {
        forall i, j | 0 <= i < j < |s[1..]| ensures s[1..][i].parts >= s[1..][j].parts {
          assert s[1..][i] == s[i + 1] && s[1..][j] == s[j + 1];
        }
      }
      InsertNonIncreasing(x, s[1..]);
      forall i, j | 0 <= i < j < |r| ensures r[i].parts >= r[j].parts {
        assert r[j] == rest[j - 1];
        if i == 0 {
          assert r[j] in rest;
          if r[j] != x {
            var k :| 0 <= k < |s[1..]| && s[1..][k] == r[j];
            assert s[k + 1] == r[j];
          }
        } else {
          assert r[i] == rest[i - 1];
        }
      }
    }
  }

  /** Inserting a line adds its count to the total. */
  lemma {:induction false} InsertTotal(x: SummaryRow, s: seq<SummaryRow>)
    ensures Total(Insert(x, s)) == Total(s) + x.parts
  {
    if s == [] || s[0].parts <= x.parts {
      assert ([x] + s)[1..] == s;
    } else {
      InsertTotal(x, s[1..]);
      var rest := Insert(x, s[1..]);
      assert ([s[0]] + rest)[1..] == rest;
    }
  }

  /** Inserting a line with a new label keeps the labels distinct. */
  lemma {:induction false} InsertDistinct(x: SummaryRow, s: seq<SummaryRow>)
    requires DistinctKeys(s)
    requires forall y :: y in s ==> y.key != x.key
    ensures DistinctKeys(Insert(x, s))
  {
    if s == [] || s[0].parts <= x.parts {
    } else {
      assert DistinctKeys(s[1..]) by {
        forall i, j | 0 <= i < j < |s[1..]| ensures s[1..][i].key != s[1..][j].key {
          assert s[1..][i] == s[i + 1] && s[1..][j] == s[j + 1];
        }
      }
      InsertDistinct(x, s[1..]);
      var r := Insert(x, s);
      forall i, j | 0 <= i < j < |r| ensures r[i].key != r[j].key {
        if i == 0 {
          assert r[j] in Insert(x, s[1..]);
          assert s[0] == r[0];
          if r[j] != x {
            var k :| 0 <= k < |s[1..]| && s[1..][k] == r[j];
            assert s[k + 1] == r[j];
          }
        } else {
          assert r[i] == Insert(x, s[1..])[i - 1] && r[j] == Insert(x, s[1..])[j - 1];
        }
      }
    }
  }

  /** `sort_values("Parts", ascending=False)`: the same lines, largest group first. */
  function SortByParts(s: seq<SummaryRow>): (r: seq<SummaryRow>)
    ensures |r| == |s|
    ensures multiset(r) == multiset(s)
    ensures forall y :: y in r <==> y in s
    ensures NonIncreasing(r)
  {
    if s == [] then []
    else
      assert s == [s[0]] + s[1..];
      InsertNonIncreasing(s[0], SortByParts(s[1..]));
      Insert(s[0], SortByParts(s[1..]))
  }

  /** Sorting keeps the "Parts" total. */
  lemma {:induction false} SortByPartsTotal(s: seq<SummaryRow>)
    ensures Total(SortByParts(s)) == Total(s)
  {
    if s != [] {
      SortByPartsTotal(s[1..]);
      InsertTotal(s[0], SortByParts(s[1..]));
    }
  }

  /** Sorting lines with distinct labels leaves the labels distinct. */
  lemma {:induction false} SortByPartsDistinct(s: seq<SummaryRow>)
    requires DistinctKeys(s)
    ensures DistinctKeys(SortByParts(s))
  {
    if s != [] {
      var rest := SortByParts(s[1..]);
      assert DistinctKeys(s[1..]) by {
        forall i, j | 0 <= i < j < |s[1..]| ensures s[1..][i].key != s[1..][j].key {
          assert s[1..][i] == s[i + 1] && s[1..][j] == s[j + 1];
        }
      }
      SortByPartsDistinct(s[1..]);
      forall y | y in rest ensures y.key != s[0].key {
        var k :| 0 <= k < |s[1..]| && s[1..][k] == y;
        assert s[k + 1] == y;
      }
      InsertDistinct(s[0], rest);
    }
  }

  /** Any reordering of the tally of `rows` into non-increasing counts is a
      summary of `rows`. */
  lemma {:induction false} PermutedTallyIsSummary(rows: seq<Row>, s: seq<SummaryRow>)
    requires forall y :: y in s <==> y in Tally(GroupKeys(rows), rows)
    requires NonIncreasing(s) && DistinctKeys(s)
    ensures IsSummaryOf(rows, s)
  {
    var ks := GroupKeys(rows);
    var t := Tally(ks, rows);
    forall i | 0 <= i < |s| ensures s[i].parts == GroupSize(rows, s[i].key) && s[i].parts >= 1 {
      assert s[i] in t;
      var k :| 0 <= k < |t| && t[k] == s[i];
      assert ks[k] in ks;
    }
    forall r | r in rows ensures exists i :: 0 <= i < |s| && s[i].key == KeyOf(r) {
      assert KeyOf(r) in ks;
      var k :| 0 <= k < |ks| && ks[k] == KeyOf(r);
      assert t[k] in s;
      var i :| 0 <= i < |s| && s[i] == t[k];
    }
  }

  /** The pivot table of the search result `rows`. */
  function Summarize(rows: seq<Row>): (s: seq<SummaryRow>)
    ensures IsSummaryOf(rows, s)
    ensures Total(s) == |rows|
  {
    var ks := GroupKeys(rows);
    var t := Tally(ks, rows);
    var s := SortByParts(t);
    SortByPartsTotal(t);
    SortByPartsDistinct(t);
    PermutedTallyIsSummary(rows, s);
    SummaryTotalsResult(rows, s);
    s
  }

  /** The sizes of the groups labelled by the lines of `s`, added up. */
  function SumOfSizes(s: seq<SummaryRow>, rows: seq<Row>): nat {
    if s == [] then 0 else GroupSize(rows, s[0].key) + SumOfSizes(s[1..], rows)
  }

  /** Adding one row to `rows` adds one to the summed sizes of distinct labels
      exactly when the row's label is among them. */
  lemma {:induction false} SizesAfterAppend(s: seq<SummaryRow>, rows: seq<Row>, x: Row)
    requires DistinctKeys(s)
    ensures SumOfSizes(s, rows + [x]) ==
            SumOfSizes(s, rows) + (if exists i :: 0 <= i < |s| && s[i].key == KeyOf(x) then 1 else 0)
  {
    if s != [] {
      SizesAfterAppend(s[1..], rows, x);
      assert (rows + [x])[..|rows + [x]| - 1] == rows;
      if s[0].key == KeyOf(x) {
        assert !exists i :: 0 <= i < |s[1..]| && s[1..][i].key == KeyOf(x) by {
          forall i | 0 <= i < |s[1..]| ensures s[1..][i].key != KeyOf(x) {
            assert s[1..][i] == s[i + 1];
          }
        }
      } else {
        if i :| 0 <= i < |s| && s[i].key == KeyOf(x) {
          assert s[1..][i - 1] == s[i];
        }
        if i :| 0 <= i < |s[1..]| && s[1..][i].key == KeyOf(x) {
          assert s[i + 1] == s[1..][i];
        }
      }
    }
  }

  /** No group of an empty result has a row. */
  lemma {:induction false} SumOfSizesEmpty(s: seq<SummaryRow>)
    ensures SumOfSizes(s, []) == 0
  {
    if s != [] {
      SumOfSizesEmpty(s[1..]);
    }
  }

  /** Distinct labels that cover every row of `rows` have sizes adding up to
      the number of rows. */
  lemma {:induction false} SumOfSizesCovering(s: seq<SummaryRow>, rows: seq<Row>)
    requires DistinctKeys(s)
    requires forall r :: r in rows ==> exists i :: 0 <= i < |s| && s[i].key == KeyOf(r)
    ensures SumOfSizes(s, rows) == |rows|
  {
    if rows == [] {
      SumOfSizesEmpty(s);
    } else {
      var init, last := rows[..|rows| - 1], rows[|rows| - 1];
      assert rows == init + [last];
      assert forall r :: r in init ==> r in rows;
      SumOfSizesCovering(s, init);
      SizesAfterAppend(s, init, last);
    }
  }

  /** When every line holds its group's size, the "Parts" column adds up to
      the summed sizes. */
  lemma {:induction false} TotalIsSumOfSizes(s: seq<SummaryRow>, rows: seq<Row>)
    requires forall i :: 0 <= i < |s| ==> s[i].parts == GroupSize(rows, s[i].key)
    ensures Total(s) == SumOfSizes(s, rows)
  {
    if s != [] {
      TotalIsSumOfSizes(s[1..], rows);
    }
  }

  /** The counts of any summary of `rows` add up to the number of result rows. */
  lemma {:induction false} SummaryTotalsResult(rows: seq<Row>, s: seq<SummaryRow>)
    requires IsSummaryOf(rows, s)
    ensures Total(s) == |rows|
  {
    TotalIsSumOfSizes(s, rows);
    SumOfSizesCovering(s, rows);
  }

  /** Two summaries of the same result hold the same lines; they can differ
      only in how lines of equal count are ordered. */
  lemma {:induction false} SummaryUniqueUpToOrder(rows: seq<Row>, s1: seq<SummaryRow>, s2: seq<SummaryRow>)
    requires IsSummaryOf(rows, s1) && IsSummaryOf(rows, s2)
    ensures forall y :: y in s1 <==> y in s2
  {
    forall y | y in s1 ensures y in s2 {
      SummaryLineIn(rows, s1, s2, y);
    }
    forall y | y in s2 ensures y in s1 {
      SummaryLineIn(rows, s2, s1, y);
    }
  }

  /** A line of one summary of `rows` is a line of every other. */
  lemma {:induction false} SummaryLineIn(rows: seq<Row>, s1: seq<SummaryRow>, s2: seq<SummaryRow>, y: SummaryRow)
    requires IsSummaryOf(rows, s1) && IsSummaryOf(rows, s2)
    requires y in s1
    ensures y in s2
  {
    var i :| 0 <= i < |s1| && s1[i] == y;
    assert GroupSize(rows, y.key) > 0;
    var r :| r in rows && KeyOf(r) == y.key;
    var j :| 0 <= j < |s2| && s2[j].key == KeyOf(r);
    assert s2[j] == y;
  }
}
