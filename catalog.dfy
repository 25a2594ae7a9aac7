/** The parsed source catalog of the M83 tile generator: its records, the
    per-field selection of point sources, Python's int() on a coordinate and the
    record-by-size order in which tiles and manifest rows are produced. */
module Catalog {

  /** One catalog row. The catalog is read as named float columns, so every
      column, the field number `chip` and the identifier `tot_id` included, is a
      real number. */
  datatype Record = Record(
    totId: real,
    chip: real,
    xBrad: real,
    yBrad: real,
    ra: real,
    dec: real,
    xMos: real,
    yMos: real,
    flag: real)

  /** Flags at or above this value mark background galaxies. */
  const FlagLimit: real := 19.5

  /** Python's `int()` on a float: truncation toward zero. */
  function Trunc(v: real): (t: int)
    ensures 0.0 <= v ==> 0 <= t && t as real <= v < t as real + 1.0
    ensures v < 0.0 ==> t <= 0 && t as real - 1.0 < v <= t as real
  {
    if v >= 0.0 then v.Floor else -((-v).Floor)
  }

  /** A boolean mask applied to the catalog: the rows for which `keep` holds,
      in catalog order. */
  function Where(rows: seq<Record>, keep: Record -> bool): (kept: seq<Record>)
    ensures |kept| <= |rows|
  {
    if rows == [] then []
    else (if keep(rows[0]) then [rows[0]] else []) + Where(rows[1..], keep)
  }

  /** A row is kept exactly when it is in the catalog and the mask holds. */
  lemma {:induction false} WhereMembers(rows: seq<Record>, keep: Record -> bool, r: Record)
    ensures r in Where(rows, keep) <==> r in rows && keep(r)
    decreases |rows|
  {
    if rows != [] {
      WhereMembers(rows[1..], keep, r);
      assert rows == [rows[0]] + rows[1..];
    }
  }

  /** A mask distributes over concatenation, so it keeps catalog order. */
  lemma {:induction false} WhereAppend(a: seq<Record>, b: seq<Record>, keep: Record -> bool)
    ensures Where(a + b, keep) == Where(a, keep) + Where(b, keep)
  {
    if a == [] {
      assert a + b == b;
    } else {
      var head := if keep(a[0]) then [a[0]] else [];
      assert (a + b)[0] == a[0] && (a + b)[1..] == a[1..] + b;
      assert Where(a + b, keep) == head + Where(a[1..] + b, keep);
      assert Where(a, keep) == head + Where(a[1..], keep);
      WhereAppend(a[1..], b, keep);
    }
  }

  /** The rows of one field that are point sources, in catalog order: the rows
      whose `chip` equals the field number and whose `flag` is below 19.5. */
  function Survivors(catalog: seq<Record>, field: int): (s: seq<Record>)
    ensures |s| <= |catalog|
    ensures forall i :: 0 <= i < |s| ==> OnField(s[i], field) && s[i].flag < FlagLimit
  {
    if catalog == [] then []
    else (if OnField(catalog[0], field) && catalog[0].flag < FlagLimit then [catalog[0]] else [])
         + Survivors(catalog[1..], field)
  }

  predicate OnField(r: Record, field: int) { r.chip == field as real }

  /** The survivors are what the two masks leave when applied in turn: first
      `chip == field`, then `flag < 19.5` on what is left. */
  lemma {:induction false} SurvivorsAreMasks(catalog: seq<Record>, field: int)
    ensures Survivors(catalog, field)
         == Where(Where(catalog, (r: Record) => OnField(r, field)), (r: Record) => r.flag < FlagLimit)
    decreases |catalog|
  {
    var onField := (r: Record) => OnField(r, field);
    var pointSource := (r: Record) => r.flag < FlagLimit;
    if catalog != [] {
      SurvivorsAreMasks(catalog[1..], field);
      var head := if onField(catalog[0]) then [catalog[0]] else [];
      assert Where(catalog, onField) == head + Where(catalog[1..], onField);
      WhereAppend(head, Where(catalog[1..], onField), pointSource);
    }
  }

  /** The survivors are exactly the catalog rows of the field that are not
      flagged as galaxies. */
  lemma {:induction false} SurvivorsMembers(catalog: seq<Record>, field: int, r: Record)
    ensures r in Survivors(catalog, field) <==> r in catalog && r.chip == field as real && r.flag < FlagLimit
    decreases |catalog|
  {
    if catalog != [] {
      SurvivorsMembers(catalog[1..], field, r);
      assert catalog == [catalog[0]] + catalog[1..];
    }
  }

  /** The pairs one record contributes, one per configured size, in list order. */
  function RecordPairs(r: Record, sizes: seq<int>): (p: seq<(Record, int)>)
  {
    seq(|sizes|, j requires 0 <= j < |sizes| => (r, sizes[j]))
  }

  /** The (record, size) pairs in the order of the nested loops over records
      (outer) and configured sizes (inner). */
  function Pairs(records: seq<Record>, sizes: seq<int>): (p: seq<(Record, int)>)
  {
    if records == [] then []
    else
      var n := |records| - 1;
      Pairs(records[..n], sizes) + RecordPairs(records[n], sizes)
  }

  /** There is one pair per record and size. */
  lemma {:induction false} PairsLength(records: seq<Record>, sizes: seq<int>)
    ensures |Pairs(records, sizes)| == |records| * |sizes|
    decreases |records|
  {
    if records != [] {
      var n := |records| - 1;
      PairsLength(records[..n], sizes);
      assert |records| * |sizes| == n * |sizes| + |sizes|;
    }
  }

  /** Adding a record at the end adds its pairs at the end. */
  lemma {:induction false} PairsSnoc(records: seq<Record>, r: Record, sizes: seq<int>)
    ensures Pairs(records + [r], sizes) == Pairs(records, sizes) + RecordPairs(r, sizes)
  {
    assert (records + [r])[..|records|] == records;
  }

  /** Growing the size prefix by one adds one pair at the end. */
  lemma {:induction false} RecordPairsSnoc(r: Record, sizes: seq<int>, j: int)
    requires 0 <= j < |sizes|
    ensures RecordPairs(r, sizes[..j + 1]) == RecordPairs(r, sizes[..j]) + [(r, sizes[j])]
  {
  }

  /** Growing the record prefix by one adds that record's pairs at the end. */
  lemma {:induction false} PairsStep(records: seq<Record>, sizes: seq<int>, i: int)
    requires 0 <= i < |records|
    ensures Pairs(records[..i + 1], sizes) == Pairs(records[..i], sizes) + RecordPairs(records[i], sizes[..|sizes|])
  {
    assert records[..i + 1] == records[..i] + [records[i]];
    assert sizes[..|sizes|] == sizes;
    PairsSnoc(records[..i], records[i], sizes);
  }

  /** The pair at position `i * |sizes| + j` is record `i` with size `j`:
      record-major, size-minor order. */
  lemma {:induction false} PairsAt(records: seq<Record>, sizes: seq<int>, i: int, j: int)
    requires 0 <= i < |records| && 0 <= j < |sizes|
    ensures 0 <= i * |sizes| + j < |Pairs(records, sizes)|
    ensures Pairs(records, sizes)[i * |sizes| + j] == (records[i], sizes[j])
  {
    var n := |records| - 1;
    var m := |sizes|;
    var init := Pairs(records[..n], sizes);
    assert Pairs(records, sizes) == init + RecordPairs(records[n], sizes);
    PairsLength(records[..n], sizes);
    assert |init| == n * m;
    assert i * m + j < (i + 1) * m <= (n + 1) * m by {
      MulMonotone(i + 1, n + 1, m);
    }
    if i == n {
      assert (init + RecordPairs(records[n], sizes))[n * m + j] == RecordPairs(records[n], sizes)[j];
    } else {
      assert i * m + j < n * m by {
        MulMonotone(i + 1, n, m);
      }
      PairsAt(records[..n], sizes, i, j);
    }
  }

  lemma {:induction false} MulMonotone(a: nat, b: nat, m: nat)
    requires a <= b
    ensures a * m <= b * m
  {
  }

  /** Every pair holds one of the records and one of the sizes. */
  lemma {:induction false} PairsMember(records: seq<Record>, sizes: seq<int>, k: int)
    requires 0 <= k < |Pairs(records, sizes)|
    ensures Pairs(records, sizes)[k].0 in records && Pairs(records, sizes)[k].1 in sizes
  {
    var n := |records| - 1;
    var init := Pairs(records[..n], sizes);
    if k < |init| {
      PairsMember(records[..n], sizes, k);
    } else {
      assert Pairs(records, sizes)[k] == RecordPairs(records[n], sizes)[k - |init|];
    }
  }

  /** Pairs of two record lists laid end to end are the two pair lists laid end
      to end. */
  lemma {:induction false} PairsAppend(a: seq<Record>, b: seq<Record>, sizes: seq<int>)
    ensures Pairs(a + b, sizes) == Pairs(a, sizes) + Pairs(b, sizes)
    decreases |b|
  {
    if b == [] {
      assert a + b == a;
    } else {
      var n := |b| - 1;
      assert a + b == (a + b[..n]) + [b[n]];
      assert b == b[..n] + [b[n]];
      PairsSnoc(a + b[..n], b[n], sizes);
      PairsSnoc(b[..n], b[n], sizes);
      PairsAppend(a, b[..n], sizes);
    }
  }
}
