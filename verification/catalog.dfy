/** The parts table as `load_data` leaves it: every cell already text, plus
    the derived SEARCH column that the keyword search scans. */
module Catalog {
  import opened Text

  /** One spreadsheet row: columns A-G and I under their assigned names. */
  datatype PartRecord = PartRecord(
    brand: string,
    model: string,
    year: string,
    partNumber: string,
    category: string,
    enName: string,
    thName: string,
    url: string)

  /** The seven searchable columns, in the order they are joined. */
  function SearchableFields(p: PartRecord): seq<string> {
    [p.brand, p.model, p.year, p.partNumber, p.category, p.enName, p.thName]
  }

  /** The first `k + 1` searchable columns joined with single spaces. */
  function JoinedUpTo(p: PartRecord, k: nat): string
    requires k < 7
  {
    if k == 0 then p.brand else JoinedUpTo(p, k - 1) + " " + SearchableFields(p)[k]
  }

  /** The searchable columns joined with single spaces, before lower-casing. */
  function Joined(p: PartRecord): string {
    JoinedUpTo(p, 6)
  }

  /** The join written out: Brand, Model, Year, PartNumber, Category, EN_Name
      and TH_Name, in that order, with one space between neighbours. */
  lemma JoinedSpelledOut(p: PartRecord)
    ensures Joined(p) ==
      p.brand + " " + p.model + " " + p.year + " " + p.partNumber + " " +
      p.category + " " + p.enName + " " + p.thName
  {
    assert JoinedUpTo(p, 1) == p.brand + " " + p.model;
    assert JoinedUpTo(p, 2) == p.brand + " " + p.model + " " + p.year;
    assert JoinedUpTo(p, 3) == p.brand + " " + p.model + " " + p.year + " " + p.partNumber;
    assert JoinedUpTo(p, 4) == JoinedUpTo(p, 3) + " " + p.category;
    assert JoinedUpTo(p, 5) == JoinedUpTo(p, 4) + " " + p.enName;
    assert JoinedUpTo(p, 6) == JoinedUpTo(p, 5) + " " + p.thName;
  }

  /** The SEARCH column of one row. */
  function Composite(p: PartRecord): (c: string)
    ensures IsLower(c)
    ensures |c| == |p.brand| + |p.model| + |p.year| + |p.partNumber| +
                   |p.category| + |p.enName| + |p.thName| + 6
  {
    JoinedSpelledOut(p);
    Lower(Joined(p))
  }

  /** The composite is the lower-cased searchable columns, in their fixed
      order, separated by exactly one space each. */
  lemma {:induction false} CompositeLayout(p: PartRecord)
    ensures Composite(p) ==
      Lower(p.brand) + " " + Lower(p.model) + " " + Lower(p.year) + " " +
      Lower(p.partNumber) + " " + Lower(p.category) + " " + Lower(p.enName) + " " +
      Lower(p.thName)
  {
    JoinedSpelledOut(p);
    var sp := " ";
    assert Lower(sp) == sp;
    var f := SearchableFields(p);
    // Peel the joined text apart from the right, one column and separator at a time.
    LowerAppend(f[0] + sp + f[1] + sp + f[2] + sp + f[3] + sp + f[4] + sp + f[5] + sp, f[6]);
    LowerAppend(f[0] + sp + f[1] + sp + f[2] + sp + f[3] + sp + f[4] + sp + f[5], sp);
    LowerAppend(f[0] + sp + f[1] + sp + f[2] + sp + f[3] + sp + f[4] + sp, f[5]);
    LowerAppend(f[0] + sp + f[1] + sp + f[2] + sp + f[3] + sp + f[4], sp);
    LowerAppend(f[0] + sp + f[1] + sp + f[2] + sp + f[3] + sp, f[4]);
    LowerAppend(f[0] + sp + f[1] + sp + f[2] + sp + f[3], sp);
    LowerAppend(f[0] + sp + f[1] + sp + f[2] + sp, f[3]);
    LowerAppend(f[0] + sp + f[1] + sp + f[2], sp);
    LowerAppend(f[0] + sp + f[1] + sp, f[2]);
    LowerAppend(f[0] + sp + f[1], sp);
    LowerAppend(f[0] + sp, f[1]);
    LowerAppend(f[0], sp);
  }

  /** The composite is already lower case: lower-casing it again changes nothing. */
  lemma {:induction false} CompositeAlreadyLower(p: PartRecord)
    ensures Lower(Composite(p)) == Composite(p)
  {
    LowerIdempotent(Joined(p));
  }

  /** The URL column takes no part in the composite. */
  lemma {:induction false} CompositeIgnoresUrl(p: PartRecord, url: string)
    ensures Composite(p.(url := url)) == Composite(p)
  {
    JoinedSpelledOut(p);
    JoinedSpelledOut(p.(url := url));
  }

  /** Every partial join is a prefix of, hence contained in, the full join. */
  lemma {:induction false} JoinedUpToInJoined(p: PartRecord, k: nat)
    requires k < 7
    ensures Contains(Joined(p), JoinedUpTo(p, k))
    decreases 6 - k
  {
    if k == 6 {
      ContainsSelf(Joined(p));
    } else {
      JoinedUpToInJoined(p, k + 1);
      var x, f := JoinedUpTo(p, k), SearchableFields(p)[k + 1];
      ContainsInfix([], x + " ", f);
      assert [] + (x + " ") + f == JoinedUpTo(p, k + 1);
      ContainsInfix([], x, " ");
      assert [] + x + " " == x + " ";
      ContainsTransitive(JoinedUpTo(p, k + 1), x + " ", x);
      ContainsTransitive(Joined(p), JoinedUpTo(p, k + 1), x);
    }
  }

  /** The joined text contains the column at position `k`. */
  lemma {:induction false} JoinedHasField(p: PartRecord, k: nat)
    requires k < 7
    ensures Contains(Joined(p), SearchableFields(p)[k])
  {
    var f := SearchableFields(p)[k];
    JoinedUpToInJoined(p, k);
    if k == 0 {
      ContainsSelf(f);
    } else {
      ContainsInfix(JoinedUpTo(p, k - 1) + " ", f, []);
      assert JoinedUpTo(p, k - 1) + " " + f + [] == JoinedUpTo(p, k);
    }
    ContainsTransitive(Joined(p), JoinedUpTo(p, k), f);
  }

  /** Every searchable column, lower-cased, occurs in the composite. */
  lemma {:induction false} CompositeContainsFields(p: PartRecord, f: string)
    requires f in SearchableFields(p)
    ensures Contains(Composite(p), Lower(f))
  {
    var k :| 0 <= k < 7 && SearchableFields(p)[k] == f;
    JoinedHasField(p, k);
    ContainsLower(Joined(p), f);
  }

  /** A row of the loaded table: its pandas index label, its columns and the
      derived SEARCH column. */
  datatype Row = Row(index: nat, part: PartRecord, search: string)

  /** The table `load_data` returns: labels 0, 1, 2, ... in spreadsheet order
      and every SEARCH cell equal to its row's composite. */
  ghost predicate WellFormed(t: seq<Row>) {
    forall i :: 0 <= i < |t| ==> t[i].index == i && t[i].search == Composite(t[i].part)
  }

  /** Attaches the SEARCH column to the records, keeping their order. */
  function WithSearchColumn(records: seq<PartRecord>): (t: seq<Row>)
    ensures |t| == |records|
    ensures WellFormed(t)
    ensures forall i :: 0 <= i < |t| ==> t[i].part == records[i]
  {
    seq(|records|, i requires 0 <= i < |records| => Row(i, records[i], Composite(records[i])))
  }
}
