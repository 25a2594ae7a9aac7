/** The metadata manifest: one row per (record, size), numbered by a run-wide
    counter, with a comment header when the counter starts the file. */
module Manifest {
  import opened Catalog

  /** A line of the manifest file: the comment header, or a data row holding
      the manifest id, the record's `tot_id`, `chip`, `x_brad`, `y_brad`, `ra`,
      `dec`, `x_mos` and `y_mos`, and the tile edge `2 * size`. */
  datatype Line =
    | Header
    | Row(id: int, catalogId: real, chip: real, xBrad: real, yBrad: real,
          ra: real, dec: real, xMos: real, yMos: real, edge: int)

  /** The row make_metadata writes for one record and one size under `id`. */
  function RowOf(id: int, r: Record, size: int): (l: Line)
  {
    Row(id, r.totId, r.chip, r.xBrad, r.yBrad, r.ra, r.dec, r.xMos, r.yMos, 2 * size)
  }

  /** The rows for a list of (record, size) pairs, numbered from `first`. */
  function Rows(pairs: seq<(Record, int)>, first: int): (rows: seq<Line>)
    ensures |rows| == |pairs|
  {
    if pairs == [] then []
    else
      var n := |pairs| - 1;
      Rows(pairs[..n], first) + [RowOf(first + n, pairs[n].0, pairs[n].1)]
  }

  lemma {:induction false} RowsSnoc(pairs: seq<(Record, int)>, p: (Record, int), first: int)
    ensures Rows(pairs + [p], first) == Rows(pairs, first) + [RowOf(first + |pairs|, p.0, p.1)]
  {
    assert (pairs + [p])[..|pairs|] == pairs;
  }

  /** The k-th row carries id `first + k` and the k-th pair's record and edge:
      the ids have no gaps. */
  lemma {:induction false} RowsAt(pairs: seq<(Record, int)>, first: int, k: int)
    requires 0 <= k < |pairs|
    ensures Rows(pairs, first)[k] == RowOf(first + k, pairs[k].0, pairs[k].1)
    decreases |pairs|
  {
    var n := |pairs| - 1;
    assert Rows(pairs, first) == Rows(pairs[..n], first) + [RowOf(first + n, pairs[n].0, pairs[n].1)];
    if k < n {
      RowsAt(pairs[..n], first, k);
      assert pairs[..n][k] == pairs[k];
    }
  }

  /** Rows for consecutive pair lists continue the numbering. */
  lemma {:induction false} RowsAppend(p: seq<(Record, int)>, q: seq<(Record, int)>, first: int)
    ensures Rows(p + q, first) == Rows(p, first) + Rows(q, first + |p|)
    decreases |q|
  {
    if q == [] {
      assert p + q == p;
    } else {
      var n := |q| - 1;
      assert p + q == (p + q[..n]) + [q[n]];
      assert q == q[..n] + [q[n]];
      RowsSnoc(p + q[..n], q[n], first);
      RowsSnoc(q[..n], q[n], first + |p|);
      RowsAppend(p, q[..n], first);
    }
  }

  /** make_metadata's layout: the row for record i and size j is at position
      i * |sizes| + j, with id first + i * |sizes| + j, the record's catalog
      columns and edge 2 * sizes[j]. */
  lemma {:induction false} MetadataLayout(records: seq<Record>, sizes: seq<int>, first: int, i: int, j: int)
    requires 0 <= i < |records| && 0 <= j < |sizes|
    ensures var rows := Rows(Pairs(records, sizes), first);
            var k := i * |sizes| + j;
            && 0 <= k < |rows| && rows[k].Row?
            && rows[k].id == first + k && rows[k].edge == 2 * sizes[j]
    ensures var rows := Rows(Pairs(records, sizes), first);
            var k := i * |sizes| + j;
            var r := records[i];
            && 0 <= k < |rows|
            && rows[k].catalogId == r.totId && rows[k].chip == r.chip
            && rows[k].xBrad == r.xBrad && rows[k].yBrad == r.yBrad
            && rows[k].ra == r.ra && rows[k].dec == r.dec
            && rows[k].xMos == r.xMos && rows[k].yMos == r.yMos
  {
    PairsAt(records, sizes, i, j);
    RowsAt(Pairs(records, sizes), first, i * |sizes| + j);
  }

  /** The comment header is written exactly when the incoming counter is 1. */
  function Opening(recordCounter: int): (h: seq<Line>)
    ensures h == [] || h == [Header]
    ensures Header in h <==> recordCounter == 1
  {
    if recordCounter == 1 then [Header] else []
  }

  /** One more record of the outer loop appends its rows, numbered on from the
      rows before it. */
  lemma {:induction false} MetadataStep(records: seq<Record>, sizes: seq<int>, i: int, first: int)
    requires 0 <= i < |records|
    ensures var done := Pairs(records[..i], sizes);
            Rows(Pairs(records[..i + 1], sizes), first)
            == Rows(done, first) + Rows(RecordPairs(records[i], sizes), first + |done|)
            && |Pairs(records[..i + 1], sizes)| == |done| + |sizes|
  {
    var done := Pairs(records[..i], sizes);
    assert Pairs(records[..i + 1], sizes) == done + RecordPairs(records[i], sizes) by {
      PairsStep(records, sizes, i);
      assert sizes[..|sizes|] == sizes;
    }
    RowsAppend(done, RecordPairs(records[i], sizes), first);
  }

  /** make_metadata: what it appends to the manifest file (the header when the
      counter is 1, then one row per record and size, record-major and
      size-minor, numbered from the incoming counter) and the counter it
      returns, which has advanced by one per row. */
  method MakeMetadata(fieldCoords: seq<Record>, sizes: seq<int>, recordCounter: int)
    returns (written: seq<Line>, next: int)
    ensures written == Opening(recordCounter) + Rows(Pairs(fieldCoords, sizes), recordCounter)
    ensures next == recordCounter + |fieldCoords| * |sizes|
  {
    var header := if recordCounter == 1 then [Header] else [];
    var body := [];
    next := recordCounter;
    for i := 0 to |fieldCoords|
      invariant body == Rows(Pairs(fieldCoords[..i], sizes), recordCounter)
      invariant next == recordCounter + |Pairs(fieldCoords[..i], sizes)|
    {
      var rows, next' := RecordRows(fieldCoords[i], sizes, next);
      MetadataStep(fieldCoords, sizes, i, recordCounter);
      body := body + rows;
      next := next';
    }
    written := header + body;
    assert fieldCoords[..|fieldCoords|] == fieldCoords;
    PairsLength(fieldCoords, sizes);
  }

  /** The inner loop of make_metadata: the rows of one record, one per size,
      numbered from the counter `next`. */
  method RecordRows(record: Record, sizes: seq<int>, next: int)
    returns (rows: seq<Line>, next': int)
    ensures rows == Rows(RecordPairs(record, sizes), next)
    ensures next' == next + |sizes|
  {
    rows := [];
    next' := next;
    for j := 0 to |sizes|
      invariant rows == Rows(RecordPairs(record, sizes[..j]), next)
      invariant next' == next + j
    {
      var size := sizes[j];
      var row := Row(next', record.totId, record.chip, record.xBrad, record.yBrad,
                     record.ra, record.dec, record.xMos, record.yMos, size * 2);
      ghost var done := RecordPairs(record, sizes[..j]);
      assert Rows(RecordPairs(record, sizes[..j + 1]), next) == rows + [row] by {
        RecordPairsSnoc(record, sizes, j);
        RowsSnoc(done, (record, size), next);
        assert |done| == j;
      }
      rows := rows + [row];
      next' := next' + 1;
    }
    assert sizes[..|sizes|] == sizes;
  }
}
