/** The row projection of `CVExtractor.save_to_csv`: each CV Record becomes a
    row over a fixed list of thirteen columns. The CSV serialiser itself
    (quoting, encoding, line endings) is not part of this model; a row is the
    dictionary handed to `csv.DictWriter.writerow`, kept as its list of
    (column, value) pairs in column order. */
module CsvExport {
  import opened CvValues

  /** The columns of the exported table, in order. */
  const Fieldnames: seq<string> := [
    "filename",
    "name",
    "email",
    "phone",
    "location",
    "linkedin",
    "github",
    "professional_summary",
    "current_job_title",
    "current_company",
    "years_experience",
    "education",
    "institution"
  ]

  /** The value written for a key the record lacks: the empty string. */
  const Missing: Json := JString("")

  /** One exported row: (column, value) pairs in column order. */
  type Row = seq<(string, Json)>

  /** `{field: result.get(field, '') for field in fieldnames}`: the row has
      exactly the thirteen columns in the fixed order; a column the record has
      holds its value unchanged, and a column it lacks holds the empty string. */
  function ProjectRow(rec: Record): (r: Row)
    ensures |r| == |Fieldnames|
    ensures forall i :: 0 <= i < |r| ==> r[i].0 == Fieldnames[i]
    ensures forall i :: 0 <= i < |r| && Fieldnames[i] in rec ==> r[i].1 == rec[Fieldnames[i]]
    ensures forall i :: 0 <= i < |r| && Fieldnames[i] !in rec ==> r[i].1 == Missing
  {
    seq(|Fieldnames|, i requires 0 <= i < |Fieldnames| => (Fieldnames[i], Get(rec, Fieldnames[i], Missing)))
  }

  /** The rows written for a Run Result: one per record. */
  function ExportRows(recs: seq<Record>): (r: seq<Row>)
    ensures |r| == |recs|
  {
    seq(|recs|, i requires 0 <= i < |recs| => ProjectRow(recs[i]))
  }

  /** Rows follow the order of the records: exporting two lists of records
      one after the other writes the rows of the first, then those of the
      second. */
  lemma ExportRowsConcat(a: seq<Record>, b: seq<Record>)
    ensures ExportRows(a + b) == ExportRows(a) + ExportRows(b)
  {
    var l, r := ExportRows(a + b), ExportRows(a) + ExportRows(b);
    forall i | 0 <= i < |l| ensures l[i] == r[i] {
      if i < |a| {
        assert (a + b)[i] == a[i];
      } else {
        assert (a + b)[i] == b[i - |a|];
      }
    }
  }

  /** The dictionary a row stands for: `dict(pairs)`, a later pair for the
      same column winning. */
  function RowRecord(row: Row): Record {
    if row == [] then map[]
    else RowRecord(row[..|row| - 1])[row[|row| - 1].0 := row[|row| - 1].1]
  }

  /** The column list has thirteen distinct names and starts with `filename`. */
  lemma FieldnamesShape()
    ensures |Fieldnames| == 13 && Fieldnames[0] == "filename" && NoDuplicates(Fieldnames)
  {
  }

  /** A key that is not a column is dropped: adding or changing it does not
      change the row. */
  lemma ExtraKeyDropped(rec: Record, k: string, v: Json)
    requires k !in Fieldnames
    ensures ProjectRow(rec[k := v]) == ProjectRow(rec)
  {
    var a, b := ProjectRow(rec[k := v]), ProjectRow(rec);
    assert forall i :: 0 <= i < |Fieldnames| ==> Fieldnames[i] != k;
    assert forall i :: 0 <= i < |Fieldnames| ==> a[i] == b[i];
  }

  /** The row depends only on the record's columns. */
  lemma RowDependsOnColumns(a: Record, b: Record)
    requires forall c :: c in Fieldnames ==> Get(a, c, Missing) == Get(b, c, Missing)
    ensures ProjectRow(a) == ProjectRow(b)
  {
    assert forall i :: 0 <= i < |Fieldnames| ==> Fieldnames[i] in Fieldnames;
  }

  /** Keys of the dictionary of a row are its columns, and each column maps to
      the value of its last pair. */
  lemma {:induction false} RowRecordLookup(row: Row, i: nat)
    requires i < |row| && forall j :: i < j < |row| ==> row[j].0 != row[i].0
    ensures row[i].0 in RowRecord(row) && RowRecord(row)[row[i].0] == row[i].1
  {
    var n := |row| - 1;
    if i < n {
      RowRecordLookup(row[..n], i);
    }
  }

  /** The columns of a row's dictionary are those of the row. */
  lemma {:induction false} RowRecordKeys(row: Row, c: string)
    ensures c in RowRecord(row) <==> exists j :: 0 <= j < |row| && row[j].0 == c
  {
    if row != [] {
      var n := |row| - 1;
      RowRecordKeys(row[..n], c);
      if c in RowRecord(row[..n]) {
        var j :| 0 <= j < n && row[..n][j].0 == c;
        assert row[j].0 == c;
      }
      if exists j :: 0 <= j < |row| && row[j].0 == c {
        var j :| 0 <= j < |row| && row[j].0 == c;
        if j < n { assert row[..n][j].0 == c; }
      }
    }
  }

  /** Export round trip: the dictionary of an exported row has exactly the
      thirteen columns, every value present in the record comes back
      unchanged, every missing one as the empty string, and projecting it
      again gives the same row. */
  lemma RowRoundTrip(rec: Record)
    ensures var d := RowRecord(ProjectRow(rec));
            && (forall c :: c in d <==> c in Fieldnames)
            && (forall c :: c in Fieldnames && c in rec ==> d[c] == rec[c])
            && (forall c :: c in Fieldnames && c !in rec ==> d[c] == Missing)
            && ProjectRow(d) == ProjectRow(rec)
  {
    var row := ProjectRow(rec);
    var d := RowRecord(row);
    FieldnamesShape();
    forall c ensures c in d <==> c in Fieldnames {
      RowRecordKeys(row, c);
      if c in Fieldnames {
        var j :| 0 <= j < |Fieldnames| && Fieldnames[j] == c;
        assert row[j].0 == c;
      }
      if c in d {
        var j :| 0 <= j < |row| && row[j].0 == c;
        assert Fieldnames[j] == c;
      }
    }
    forall i | 0 <= i < |Fieldnames| ensures d[Fieldnames[i]] == Get(rec, Fieldnames[i], Missing) {
      RowRecordLookup(row, i);
    }
    RowDependsOnColumns(d, rec);
  }
}
