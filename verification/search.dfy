/** The search page: the empty-query guard, the keyword filter over the
    SEARCH column and the pivot summary of what it keeps. */
module PartsSearch {
  import opened Text
  import opened Catalog
  import opened Summary

  /** `df[df["SEARCH"].str.contains(keyword)]`: the rows whose SEARCH cell
      contains `keyword`, in table order. */
  function Filter(t: seq<Row>, keyword: string): (r: seq<Row>)
    ensures |r| <= |t|
    ensures forall x :: x in r <==> x in t && Contains(x.search, keyword)
  {
    if t == [] then []
    else
      assert t == [t[0]] + t[1..];
      (if Contains(t[0].search, keyword) then [t[0]] else []) + Filter(t[1..], keyword)
  }

  /** Index labels strictly increase along the sequence: rows keep their
      table order and no row occurs twice. */
  ghost predicate LabelsAscending(t: seq<Row>) {
    forall i, j :: 0 <= i < j < |t| ==> t[i].index < t[j].index
  }

  /** The boolean mask keeps the order of the table and repeats no row. */
  lemma {:induction false} FilterKeepsTableOrder(t: seq<Row>, keyword: string)
    requires LabelsAscending(t)
    ensures LabelsAscending(Filter(t, keyword))
  {
    if t != [] {
      var rest := Filter(t[1..], keyword);
      assert LabelsAscending(t[1..]) by {
        forall i, j | 0 <= i < j < |t[1..]| ensures t[1..][i].index < t[1..][j].index {
          assert t[1..][i] == t[i + 1] && t[1..][j] == t[j + 1];
        }
      }
      FilterKeepsTableOrder(t[1..], keyword);
      forall y | y in rest ensures t[0].index < y.index {
        var k :| 0 <= k < |t[1..]| && t[1..][k] == y;
        assert t[k + 1] == y;
      }
    }
  }

  /** On a loaded table the filter result is a subsequence of the table:
      every result row is the table row its label names, and the labels
      strictly increase. */
  lemma {:induction false} FilterIsSubsequence(t: seq<Row>, keyword: string)
    requires WellFormed(t)
    ensures LabelsAscending(Filter(t, keyword))
    ensures forall x :: x in Filter(t, keyword) ==> x.index < |t| && t[x.index] == x
  {
    FilterKeepsTableOrder(t, keyword);
  }

  /** What the page shows: the "start typing" hint, or the matching rows
      together with their pivot summary. */
  datatype Page = StartTyping | Found(result: seq<Row>, summary: seq<SummaryRow>)

  /** One run of the page for the text typed into the search box. */
  function Search(t: seq<Row>, query: string): (p: Page)
    ensures p.StartTyping? <==> query == ""
    ensures p.Found? ==> forall x :: x in p.result <==> x in t && Contains(x.search, Lower(query))
    ensures p.Found? ==> IsSummaryOf(p.result, p.summary) && Total(p.summary) == |p.result|
  {
    if query == "" then StartTyping
    else
      var result := Filter(t, Lower(query));
      Found(result, Summarize(result))
  }

  /** The page's result keeps table order and repeats no row: on a loaded
      table it is the subsequence of rows whose labels it lists, ascending. */
  lemma {:induction false} SearchKeepsTableOrder(t: seq<Row>, query: string)
    requires WellFormed(t) && query != ""
    ensures Search(t, query).Found?
    ensures LabelsAscending(Search(t, query).result)
    ensures forall x :: x in Search(t, query).result ==> x.index < |t| && t[x.index] == x
  {
    FilterIsSubsequence(t, Lower(query));
  }

  /** Two queries that lower-case alike produce the same page. */
  lemma SearchIgnoresCase(t: seq<Row>, q1: string, q2: string)
    requires Lower(q1) == Lower(q2)
    ensures Search(t, q1) == Search(t, q2)
  {
  }

  /** Typing the query in lower case changes nothing. */
  lemma {:induction false} SearchOfLoweredQuery(t: seq<Row>, query: string)
    ensures Search(t, Lower(query)) == Search(t, query)
  {
    LowerIdempotent(query);
    SearchIgnoresCase(t, Lower(query), query);
  }

  /** A non-empty query that occurs, in any letter case, inside one of a
      row's searchable columns finds that row. */
  lemma {:induction false} FieldQueryFindsRow(t: seq<Row>, i: nat, f: string, query: string)
    requires WellFormed(t) && i < |t|
    requires f in SearchableFields(t[i].part)
    requires query != "" && Contains(Lower(f), Lower(query))
    ensures Search(t, query).Found? && t[i] in Search(t, query).result
  {
    CompositeContainsFields(t[i].part, f);
    ContainsTransitive(t[i].search, Lower(f), Lower(query));
  }
}
