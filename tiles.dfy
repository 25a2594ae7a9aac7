/** Tile extraction: the crop window around a catalog source, the way the image
    array's slicing reads it, and the make_images loop that crops, names and
    saves one tile per (record, size). */
module Tiles {
  import opened Catalog
  import opened Coordinates
  import opened Naming

  /** The height (rows) and width (columns) of a field image array. */
  datatype Shape = Shape(height: nat, width: nat)

  /** The index range [start, stop) a slice selects along one axis. */
  datatype Span = Span(start: int, stop: int)

  predicate InSpan(s: Span, i: int) { s.start <= i < s.stop }

  function Length(s: Span): (l: int) { s.stop - s.start }

  function Max(a: int, b: int): (m: int) { if a < b then b else a }

  function Min(a: int, b: int): (m: int) { if a < b then a else b }

  /** How a slice bound is read on an axis of length n: a negative bound counts
      from the end, and the result is clipped to [0, n]. */
  function SliceIndex(i: int, n: nat): (r: int)
    ensures 0 <= r <= n
    ensures 0 <= i ==> r == Min(i, n)
    ensures i < 0 ==> r == Max(n + i, 0)
  {
    if i < 0 then (if n + i < 0 then 0 else n + i)
    else if i > n then n else i
  }

  /** The indices `a[lo:hi]` selects on an axis of length n. */
  function Slice(lo: int, hi: int, n: nat): (r: Span)
    ensures 0 <= r.start <= r.stop <= n
    ensures forall i :: InSpan(r, i) <==> SliceIndex(lo, n) <= i < SliceIndex(hi, n)
  {
    var start := SliceIndex(lo, n);
    var stop := SliceIndex(hi, n);
    Span(start, if stop < start then start else stop)
  }

  /** A slice with bounds inside the axis selects exactly those bounds. */
  lemma {:induction false} SliceInRange(lo: int, hi: int, n: nat)
    requires 0 <= lo <= hi <= n
    ensures Slice(lo, hi, n) == Span(lo, hi)
  {
  }

  /** The rows (or columns) make_images slices, as written:
      `[max(c - size, 0) : min(c + size, n)]`. */
  function CropAsWritten(center: int, size: int, n: nat): (r: Span)
    ensures 0 <= r.start <= r.stop <= n
  {
    Slice(Max(center - size, 0), Min(center + size, n), n)
  }

  /** As written, a center more than `size` before the start of the axis makes
      the stop bound negative, and the slice counts it from the end: on an axis
      of 1000 with center -10 and size 5 the crop is rows 0..994, 995 rows
      instead of none. */
  lemma {:induction false} CropAsWrittenWraps()
    ensures CropAsWritten(-10, 5, 1000) == Span(0, 995)
    ensures Length(CropAsWritten(-10, 5, 1000)) > 2 * 5
  {
  }

  /** The crop window meant: the indices of the axis that lie within `size`
      before or after the center, `[c - size, c + size)` cut to `[0, n)`. */
  function Crop(center: int, size: int, n: nat): (r: Span)
    ensures 0 <= r.start <= r.stop <= n
  {
    var lo := center - size;
    var hi := center + size;
    var start := if lo < 0 then 0 else if lo > n then n else lo;
    var stop := if hi < start then start else if hi > n then n else hi;
    Span(start, stop)
  }

  /** The crop holds exactly the indices of the axis within `size` of the
      center. */
  lemma {:induction false} CropWindow(center: int, size: int, n: nat)
    ensures forall i :: InSpan(Crop(center, size, n), i) <==> 0 <= i < n && center - size <= i < center + size
  {
  }

  /** The crop is never longer than `2 * size`. */
  lemma {:induction false} CropLength(center: int, size: int, n: nat)
    ensures Length(Crop(center, size, n)) <= Max(2 * size, 0)
  {
  }

  /** Whenever the window does not end before the axis starts, the crop as
      written is the crop meant. */
  lemma {:induction false} CropAsWrittenAgrees(center: int, size: int, n: nat)
    requires center + size >= 0
    ensures CropAsWritten(center, size, n) == Crop(center, size, n)
  {
  }

  /** One attempt of make_images: the file name, the rows and columns cropped
      and whether the crop was encoded and saved (false: a ValueError was
      reported and the loop went on). */
  datatype Attempt = Attempt(name: string, rows: Span, cols: Span, saved: bool)

  /** The outcome of encoding and saving a crop under a name: true when no
      ValueError is raised. The imaging library and the file system stand
      behind it. */
  type Encoder = (string, Span, Span) -> bool

  /** The attempt for one record and one size: the truncated catalog pixel is
      mapped to the array, the window around it is cropped, and the tile is
      named after the catalog pixel (not the array index) and the edge 2 * size. */
  function AttemptOf(field: int, shape: Shape, encode: Encoder, r: Record, size: int): (a: Attempt)
    ensures a.saved == encode(a.name, a.rows, a.cols)
  {
    var x := Trunc(r.xBrad);
    var y := Trunc(r.yBrad);
    var center := Fits2Numpy(x, y, shape.height);
    var rows := Crop(center.0, size, shape.height);
    var cols := Crop(center.1, size, shape.width);
    var name := TileName(field, x, y, 2 * size);
    Attempt(name, rows, cols, encode(name, rows, cols))
  }

  /** The rows of an attempt are those of the image within `size` of the
      record's array row, and its columns those within `size` of its array
      column. */
  lemma {:induction false} AttemptOfSpans(field: int, shape: Shape, encode: Encoder, r: Record, size: int)
    ensures var a := AttemptOf(field, shape, encode, r, size);
            forall i :: InSpan(a.rows, i) <==>
              0 <= i < shape.height && shape.height - Trunc(r.yBrad) - size <= i < shape.height - Trunc(r.yBrad) + size
    ensures var a := AttemptOf(field, shape, encode, r, size);
            forall i :: InSpan(a.cols, i) <==> 0 <= i < shape.width && Trunc(r.xBrad) - size <= i < Trunc(r.xBrad) + size
  {
    var center := Fits2Numpy(Trunc(r.xBrad), Trunc(r.yBrad), shape.height);
    CropWindow(center.0, size, shape.height);
    CropWindow(center.1, size, shape.width);
  }

  /** Every attempt crops inside the image, at most `2 * size` rows and
      columns, and is named after the truncated catalog pixel and the edge
      `2 * size`. Along each axis where the window does not end before the
      image starts, the crop is the slice make_images takes as written. */
  lemma {:induction false} AttemptOfWindow(field: int, shape: Shape, encode: Encoder, r: Record, size: int)
    ensures var a := AttemptOf(field, shape, encode, r, size);
            && 0 <= a.rows.start <= a.rows.stop <= shape.height
            && 0 <= a.cols.start <= a.cols.stop <= shape.width
            && Length(a.rows) <= Max(2 * size, 0) && Length(a.cols) <= Max(2 * size, 0)
            && a.name == TileName(field, Trunc(r.xBrad), Trunc(r.yBrad), 2 * size)
    ensures var a := AttemptOf(field, shape, encode, r, size);
            var row := shape.height - Trunc(r.yBrad);
            row + size >= 0 ==> a.rows == CropAsWritten(row, size, shape.height)
    ensures var a := AttemptOf(field, shape, encode, r, size);
            var col := Trunc(r.xBrad);
            col + size >= 0 ==> a.cols == CropAsWritten(col, size, shape.width)
  {
    var center := Fits2Numpy(Trunc(r.xBrad), Trunc(r.yBrad), shape.height);
    CropLength(center.0, size, shape.height);
    CropLength(center.1, size, shape.width);
    if center.0 + size >= 0 {
      CropAsWrittenAgrees(center.0, size, shape.height);
    }
    if center.1 + size >= 0 {
      CropAsWrittenAgrees(center.1, size, shape.width);
    }
  }

  /** The attempts for a list of (record, size) pairs, in order. */
  function Attempts(field: int, shape: Shape, encode: Encoder, pairs: seq<(Record, int)>): (t: seq<Attempt>)
    ensures |t| == |pairs|
  {
    seq(|pairs|, k requires 0 <= k < |pairs| => AttemptOf(field, shape, encode, pairs[k].0, pairs[k].1))
  }

  lemma {:induction false} AttemptsSnoc(field: int, shape: Shape, encode: Encoder, pairs: seq<(Record, int)>, p: (Record, int))
    ensures Attempts(field, shape, encode, pairs + [p])
         == Attempts(field, shape, encode, pairs) + [AttemptOf(field, shape, encode, p.0, p.1)]
  {
    assert (pairs + [p])[..|pairs|] == pairs;
  }

  /** The number of attempts that saved a tile. */
  function SavedCount(attempts: seq<Attempt>): (n: nat)
  {
    if attempts == [] then 0
    else SavedCount(attempts[..|attempts| - 1]) + (if attempts[|attempts| - 1].saved then 1 else 0)
  }

  lemma {:induction false} SavedCountSnoc(attempts: seq<Attempt>, a: Attempt)
    ensures SavedCount(attempts + [a]) == SavedCount(attempts) + (if a.saved then 1 else 0)
  {
    assert (attempts + [a])[..|attempts|] == attempts;
  }

  /** The body of the try block of make_images for the truncated catalog pixel
      (x, y) and one size: map to the array, crop, name, encode and save. */
  method TryTile(shape: Shape, field: int, x: int, y: int, size: int, encode: Encoder) returns (tile: Attempt)
    ensures tile.name == TileName(field, x, y, 2 * size)
    ensures forall i :: InSpan(tile.rows, i) <==> 0 <= i < shape.height && shape.height - y - size <= i < shape.height - y + size
    ensures forall i :: InSpan(tile.cols, i) <==> 0 <= i < shape.width && x - size <= i < x + size
    ensures tile.rows == Crop(Fits2Numpy(x, y, shape.height).0, size, shape.height)
    ensures tile.cols == Crop(Fits2Numpy(x, y, shape.height).1, size, shape.width)
    ensures tile.saved == encode(tile.name, tile.rows, tile.cols)
    ensures shape.height - y + size >= 0 ==> tile.rows == CropAsWritten(shape.height - y, size, shape.height)
    ensures x + size >= 0 ==> tile.cols == CropAsWritten(x, size, shape.width)
  {
    var center := Fits2Numpy(x, y, shape.height);
    var rows := Crop(center.0, size, shape.height);
    var cols := Crop(center.1, size, shape.width);
    CropWindow(center.0, size, shape.height);
    CropWindow(center.1, size, shape.width);
    if center.0 + size >= 0 {
      CropAsWrittenAgrees(center.0, size, shape.height);
    }
    if center.1 + size >= 0 {
      CropAsWrittenAgrees(center.1, size, shape.width);
    }
    var name := TileName(field, x, y, 2 * size);
    var ok := encode(name, rows, cols);
    tile := Attempt(name, rows, cols, ok);
  }

  /** One pass of the inner loop of make_images: the attempts for one record,
      one per configured size, in list order, and how many of them saved. */
  method RecordTiles(shape: Shape, row: Record, field: int, sizes: seq<int>, encode: Encoder)
    returns (tiles: seq<Attempt>, saved: nat)
    ensures tiles == Attempts(field, shape, encode, RecordPairs(row, sizes))
    ensures saved == SavedCount(tiles)
  {
    var x := Trunc(row.xBrad);
    var y := Trunc(row.yBrad);
    tiles, saved := [], 0;
    for j := 0 to |sizes|
      invariant tiles == Attempts(field, shape, encode, RecordPairs(row, sizes[..j]))
      invariant saved == SavedCount(tiles)
    {
      var tile := TryTile(shape, field, x, y, sizes[j], encode);
      RecordPairsSnoc(row, sizes, j);
      AttemptsSnoc(field, shape, encode, RecordPairs(row, sizes[..j]), (row, sizes[j]));
      SavedCountSnoc(tiles, tile);
      tiles := tiles + [tile];
      if tile.saved {
        saved := saved + 1;
      }
    }
    assert sizes[..|sizes|] == sizes;
  }

  /** make_images: for each record (outer) and each size (inner) it crops the
      window around the record's array position, names the tile and tries to
      save it; a failed save is skipped, and `counter` counts the saved tiles. */
  method MakeImages(shape: Shape, coords: seq<Record>, field: int, sizes: seq<int>, encode: Encoder)
    returns (attempts: seq<Attempt>, counter: nat)
    ensures attempts == Attempts(field, shape, encode, Pairs(coords, sizes))
    ensures counter == SavedCount(attempts) <= |attempts|
  {
    attempts, counter := [], 0;
    for i := 0 to |coords|
      invariant attempts == Attempts(field, shape, encode, Pairs(coords[..i], sizes))
      invariant counter == SavedCount(attempts)
    {
      var tiles, saved := RecordTiles(shape, coords[i], field, sizes, encode);
      PairsStep(coords, sizes, i);
      assert sizes[..|sizes|] == sizes;
      AttemptsAppend(field, shape, encode, Pairs(coords[..i], sizes), RecordPairs(coords[i], sizes));
      SavedCountAppend(attempts, tiles);
      attempts := attempts + tiles;
      counter := counter + saved;
    }
    assert coords[..|coords|] == coords;
    SavedCountBound(attempts);
  }

  lemma {:induction false} AttemptsAppend(field: int, shape: Shape, encode: Encoder, p: seq<(Record, int)>, q: seq<(Record, int)>)
    ensures Attempts(field, shape, encode, p + q) == Attempts(field, shape, encode, p) + Attempts(field, shape, encode, q)
    decreases |q|
  {
    if q == [] {
      assert p + q == p;
    } else {
      var n := |q| - 1;
      assert p + q == (p + q[..n]) + [q[n]];
      assert q == q[..n] + [q[n]];
      AttemptsSnoc(field, shape, encode, p + q[..n], q[n]);
      AttemptsSnoc(field, shape, encode, q[..n], q[n]);
      AttemptsAppend(field, shape, encode, p, q[..n]);
    }
  }

  lemma {:induction false} SavedCountAppend(a: seq<Attempt>, b: seq<Attempt>)
    ensures SavedCount(a + b) == SavedCount(a) + SavedCount(b)
    decreases |b|
  {
    if b == [] {
      assert a + b == a;
    } else {
      var n := |b| - 1;
      assert a + b == (a + b[..n]) + [b[n]];
      assert b == b[..n] + [b[n]];
      SavedCountSnoc(a + b[..n], b[n]);
      SavedCountSnoc(b[..n], b[n]);
      SavedCountAppend(a, b[..n]);
    }
  }

  lemma {:induction false} SavedCountBound(attempts: seq<Attempt>)
    ensures SavedCount(attempts) <= |attempts|
  {
    if attempts != [] {
      SavedCountBound(attempts[..|attempts| - 1]);
    }
  }
}
