/**
 * The values of the exported CSV table: the header `cell_id, frame_0, ...`,
 * one row dictionary per cell, and the order in which a dictionary writer
 * lays a row out along the header.
 */
module CsvExport {
  import opened Intensity
  import opened Naming

  /** One CSV cell: the integer cell label or a per-frame entry. */
  datatype Field = CellId(id: nat) | Measure(entry: Entry)

  /** The values one CSV row is built from: the cell label and its entries for frames 0 .. n-1. */
  datatype Row = Row(cellId: nat, values: seq<Entry>)

  const CellIdColumn: string := "cell_id"

  /** The column of frame i: "frame_" followed by digits that read back as i. */
  function ColumnName(i: nat): (c: string)
    ensures |c| > 6 && c[..6] == "frame_"
    ensures AllDigits(c[6..]) && DecimalValue(c[6..]) == i
  {
    DecimalRoundTrip(i);
    var c := "frame_" + Decimal(i);
    assert c[6..] == Decimal(i);
    c
  }

  /** Frame columns are pairwise distinct and never the cell-id column. */
  lemma ColumnNamesDistinct(i: nat, j: nat)
    ensures ColumnName(i) == ColumnName(j) ==> i == j
    ensures ColumnName(i) != CellIdColumn
  {
    if ColumnName(i) == ColumnName(j) {
      assert Decimal(i) == ColumnName(i)[6..];
      assert Decimal(j) == ColumnName(j)[6..];
      DecimalInjective(i, j);
    }
    assert ColumnName(i)[0] == 'f';
  }

  /** The field names: cell_id, then frame_0 .. frame_{n-1} in ascending frame order. */
  function Header(n: nat): (h: seq<string>)
    ensures |h| == n + 1 && h[0] == CellIdColumn
    ensures forall i :: 0 <= i < n ==> h[i + 1] == ColumnName(i)
  {
    [CellIdColumn] + seq(n, i requires 0 <= i < n => ColumnName(i))
  }

  /** No field name occurs twice in the header. */
  lemma HeaderDistinct(n: nat)
    ensures forall a, b :: 0 <= a < b < |Header(n)| ==> Header(n)[a] != Header(n)[b]
  {
    var h := Header(n);
    forall a, b | 0 <= a < b < |h| ensures h[a] != h[b] {
      ColumnNamesDistinct(b - 1, if a == 0 then 0 else a - 1);
    }
  }

  /**
   * ColumnNamesDistinct over all columns below n at once: the quantified
   * form that the map-membership reasoning of RowForFields needs.
   */
  lemma ColumnNamesInjective(n: nat)
    ensures forall i, j :: 0 <= i < n && 0 <= j < n && ColumnName(i) == ColumnName(j) ==> i == j
    ensures forall i :: 0 <= i < n ==> ColumnName(i) != CellIdColumn
  {
    forall i, j | 0 <= i < n && 0 <= j < n ensures ColumnName(i) == ColumnName(j) ==> i == j {
      ColumnNamesDistinct(i, j);
    }
    forall i | 0 <= i < n ensures ColumnName(i) != CellIdColumn {
      ColumnNamesDistinct(i, i);
    }
  }

  lemma HeaderMembers(n: nat)
    ensures forall h :: h in Header(n) <==> h == CellIdColumn || exists i :: 0 <= i < n && ColumnName(i) == h
  {
    forall h ensures h in Header(n) <==> h == CellIdColumn || exists i :: 0 <= i < n && ColumnName(i) == h {
      if h in Header(n) {
        var k :| 0 <= k < |Header(n)| && Header(n)[k] == h;
        if k > 0 { assert ColumnName(k - 1) == h; }
      }
      if exists i :: 0 <= i < n && ColumnName(i) == h {
        var i :| 0 <= i < n && ColumnName(i) == h;
        assert Header(n)[i + 1] == h;
      }
    }
  }

  /** The frame columns of a row, inserted in frame order: frame_i maps to values[i] for i < n. */
  function FrameFields(values: seq<Entry>, n: nat): map<string, Field>
    requires n <= |values|
  {
    if n == 0 then map[] else FrameFields(values, n - 1)[ColumnName(n - 1) := Measure(values[n - 1])]
  }

  lemma {:induction false} FrameFieldsSpec(values: seq<Entry>, n: nat)
    requires n <= |values|
    ensures forall h :: h in FrameFields(values, n) <==> exists i :: 0 <= i < n && ColumnName(i) == h
    ensures forall i :: 0 <= i < n ==> FrameFields(values, n)[ColumnName(i)] == Measure(values[i])
  {
    if n > 0 {
      FrameFieldsSpec(values, n - 1);
      var prev := FrameFields(values, n - 1);
      var m := FrameFields(values, n);
      var c := ColumnName(n - 1);
      assert m == prev[c := Measure(values[n - 1])];
      forall h ensures h in m <==> exists i :: 0 <= i < n && ColumnName(i) == h {
        if h != c && exists i :: 0 <= i < n && ColumnName(i) == h {
          var i :| 0 <= i < n && ColumnName(i) == h;
          assert i < n - 1;
        }
      }
      forall i | 0 <= i < n - 1 ensures m[ColumnName(i)] == Measure(values[i]) {
        ColumnNamesDistinct(i, n - 1);
      }
    }
  }

  /**
   * The row dictionary of one cell: {'cell_id': cellId} updated with
   * frame_i mapped to values[i] for every i < n.
   */
  function RowFor(cellId: nat, values: seq<Entry>, n: nat): map<string, Field>
    requires n <= |values|
  {
    map[CellIdColumn := CellId(cellId)] + FrameFields(values, n)
  }

  /** A row has exactly the header's keys: 'cell_id' holds the label and frame_i holds values[i]. */
  lemma RowForFields(cellId: nat, values: seq<Entry>, n: nat)
    requires n <= |values|
    ensures forall h :: h in RowFor(cellId, values, n) <==> h in Header(n)
    ensures RowFor(cellId, values, n)[CellIdColumn] == CellId(cellId)
    ensures forall i :: 0 <= i < n ==> RowFor(cellId, values, n)[ColumnName(i)] == Measure(values[i])
  {
    var fields := FrameFields(values, n);
    var row := RowFor(cellId, values, n);
    FrameFieldsSpec(values, n);
    HeaderMembers(n);
    assert CellIdColumn !in fields by {
      ColumnNamesInjective(n);
    }
    forall h ensures h in row <==> h in Header(n) {
      assert h in row <==> h == CellIdColumn || h in fields;
    }
    forall i | 0 <= i < n ensures row[ColumnName(i)] == Measure(values[i]) {
      assert ColumnName(i) in fields;
    }
  }

  /** The fields of a row laid out along the field names, as the CSV writer emits them. */
  function RowLine(fieldnames: seq<string>, row: map<string, Field>): seq<Field>
    requires forall k :: 0 <= k < |fieldnames| ==> fieldnames[k] in row
  {
    seq(|fieldnames|, k requires 0 <= k < |fieldnames| => row[fieldnames[k]])
  }

  /** A written row is the cell label followed by its first n entries in frame order. */
  lemma RowLineOrder(cellId: nat, values: seq<Entry>, n: nat)
    requires n <= |values|
    ensures forall k :: 0 <= k < |Header(n)| ==> Header(n)[k] in RowFor(cellId, values, n)
    ensures RowLine(Header(n), RowFor(cellId, values, n))
      == [CellId(cellId)] + seq(n, i requires 0 <= i < n => Measure(values[i]))
  {
    var h := Header(n);
    var row := RowFor(cellId, values, n);
    RowForFields(cellId, values, n);
    assert forall k :: 0 <= k < |h| ==> h[k] in row;
    var line := RowLine(h, row);
    var expected := [CellId(cellId)] + seq(n, i requires 0 <= i < n => Measure(values[i]));
    assert |line| == |expected|;
    forall k | 0 <= k < |line| ensures line[k] == expected[k] {
      if k > 0 {
        assert h[k] == ColumnName(k - 1);
      }
    }
  }
}
