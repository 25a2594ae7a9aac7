/** make_images_main: fields 1 to 7 in order, each selected from the catalog,
    filtered, transformed, tiled and appended to the manifest, with the
    manifest counter carried from one field to the next. */
module Pipeline {
  import opened Catalog
  import opened Coordinates
  import opened Tiles
  import opened Manifest

  const LastField: nat := 7

  /** What a run has produced so far: the manifest lines appended, the tile
      attempts made, the manifest counter, and whether the run stopped because
      a field image could not be opened. */
  datatype RunState = RunState(manifest: seq<Line>, tiles: seq<Attempt>, counter: int, aborted: bool)

  /** One field processed from state `s`, with the field image of `shape`. */
  function FieldStep(s: RunState, catalog: seq<Record>, sizes: seq<int>, shape: Shape,
                     encode: Encoder, field: int): (t: RunState)
  {
    var pairs := Pairs(Prepared(catalog, field), sizes);
    RunState(s.manifest + Opening(s.counter) + Rows(pairs, s.counter),
             s.tiles + Attempts(field, shape, encode, pairs),
             s.counter + |pairs|,
             false)
  }

  /** Field n taken up by a run in state s: a stopped run stays stopped, a
      field without an image stops it, any other field is processed. */
  function Advance(s: RunState, catalog: seq<Record>, sizes: seq<int>, images: map<int, Shape>,
                   encode: Encoder, n: int): (t: RunState)
  {
    if s.aborted then s
    else if n !in images then s.(aborted := true)
    else FieldStep(s, catalog, sizes, images[n], encode, n)
  }

  /** The state after fields 1..n. `images` holds the shape of each field
      image that can be opened; the first field without one ends the run. */
  function RunUpTo(catalog: seq<Record>, sizes: seq<int>, images: map<int, Shape>,
                   encode: Encoder, n: nat): (r: RunState)
  {
    if n == 0 then RunState([], [], 1, false)
    else Advance(RunUpTo(catalog, sizes, images, encode, n - 1), catalog, sizes, images, encode, n)
  }

  /** What one pass of the field loop appends is one FieldStep. */
  lemma {:induction false} FieldStepOf(s: RunState, catalog: seq<Record>, sizes: seq<int>, shape: Shape, encode: Encoder,
                    field: int, made: seq<Attempt>, written: seq<Line>, next: int)
    requires !s.aborted
    requires made == Attempts(field, shape, encode, Pairs(Prepared(catalog, field), sizes))
    requires written == Opening(s.counter) + Rows(Pairs(Prepared(catalog, field), sizes), s.counter)
    requires next == s.counter + |Prepared(catalog, field)| * |sizes|
    ensures FieldStep(s, catalog, sizes, shape, encode, field) == RunState(s.manifest + written, s.tiles + made, next, false)
  {
    var pairs := Pairs(Prepared(catalog, field), sizes);
    PairsLength(Prepared(catalog, field), sizes);
    assert s.manifest + written == s.manifest + Opening(s.counter) + Rows(pairs, s.counter);
  }

  /** A field whose image exists, reached by a run still going, is processed. */
  lemma {:induction false} RunUpToStep(catalog: seq<Record>, sizes: seq<int>, images: map<int, Shape>, encode: Encoder, n: nat)
    requires n > 0 && n in images && !RunUpTo(catalog, sizes, images, encode, n - 1).aborted
    ensures RunUpTo(catalog, sizes, images, encode, n)
         == FieldStep(RunUpTo(catalog, sizes, images, encode, n - 1), catalog, sizes, images[n], encode, n)
  {
  }

  /** The run up to field m + 1 is the run up to field m taking up field m + 1. */
  lemma {:induction false} RunUpToNext(catalog: seq<Record>, sizes: seq<int>, images: map<int, Shape>, encode: Encoder,
                                       m: nat, n: nat)
    requires n == m + 1
    ensures RunUpTo(catalog, sizes, images, encode, n)
         == Advance(RunUpTo(catalog, sizes, images, encode, m), catalog, sizes, images, encode, n)
  {
  }

  /** A run only appends: the manifest and the tiles after fields 1..m begin
      those after fields 1..n, and the counter never goes back. */
  lemma {:induction false} RunExtends(catalog: seq<Record>, sizes: seq<int>, images: map<int, Shape>,
                                      encode: Encoder, m: nat, n: nat)
    requires m <= n
    ensures var a := RunUpTo(catalog, sizes, images, encode, m);
            var b := RunUpTo(catalog, sizes, images, encode, n);
            a.manifest <= b.manifest && a.tiles <= b.tiles && a.counter <= b.counter
    decreases n
  {
    if m < n {
      var s := RunUpTo(catalog, sizes, images, encode, n - 1);
      RunExtends(catalog, sizes, images, encode, m, n - 1);
      RunUpToNext(catalog, sizes, images, encode, n - 1, n);
      var a := RunUpTo(catalog, sizes, images, encode, m);
      var t := Advance(s, catalog, sizes, images, encode, n);
      assert s.manifest <= t.manifest && s.tiles <= t.tiles && s.counter <= t.counter;
      PrefixTrans(a.manifest, s.manifest, t.manifest);
      PrefixTrans(a.tiles, s.tiles, t.tiles);
      assert a.manifest <= t.manifest && a.tiles <= t.tiles && a.counter <= t.counter;
    } else {
      var a := RunUpTo(catalog, sizes, images, encode, m);
      assert a.manifest[..|a.manifest|] == a.manifest && a.tiles[..|a.tiles|] == a.tiles;
    }
  }

  /** A prefix of a prefix is a prefix. */
  lemma {:induction false} PrefixTrans<T>(a: seq<T>, b: seq<T>, c: seq<T>)
    requires a <= b && b <= c
    ensures a <= c
  {
    assert c[..|b|][..|a|] == c[..|a|];
  }

  /** Once the run has stopped, later fields change nothing. */
  lemma {:induction false} AbortedStays(catalog: seq<Record>, sizes: seq<int>, images: map<int, Shape>,
                                        encode: Encoder, n: nat, m: nat)
    requires n <= m && RunUpTo(catalog, sizes, images, encode, n).aborted
    ensures RunUpTo(catalog, sizes, images, encode, m) == RunUpTo(catalog, sizes, images, encode, n)
    decreases m
  {
    if n < m {
      AbortedStays(catalog, sizes, images, encode, n, m - 1);
    }
  }

  /** One pass of the field loop of make_images_main, for a field whose image
      has the given shape: the rows with `chip == field` and then `flag < 19.5`
      are copied out, their coordinates are transformed in place, the tiles are
      made and the manifest rows appended, and the returned counter is passed
      on. */
  method ProcessField(catalog: seq<Record>, sizes: seq<int>, shape: Shape, encode: Encoder, field: int,
                      manifest: seq<Line>, tiles: seq<Attempt>, recordCounter: int)
    returns (manifest': seq<Line>, tiles': seq<Attempt>, next: int)
    ensures RunState(manifest', tiles', next, false)
         == FieldStep(RunState(manifest, tiles, recordCounter, false), catalog, sizes, shape, encode, field)
  {
    var survivors := Survivors(catalog, field);
    var fieldCoords := new Record[|survivors|](i requires 0 <= i < |survivors| => survivors[i]);
    TransformCoordinates(field, fieldCoords);
    var coords := fieldCoords[..];
    assert coords == Prepared(catalog, field);
    var made, saved := MakeImages(shape, coords, field, sizes, encode);
    var written;
    written, next := MakeMetadata(coords, sizes, recordCounter);
    FieldStepOf(RunState(manifest, tiles, recordCounter, false), catalog, sizes, shape, encode, field,
                made, written, next);
    manifest' := manifest + written;
    tiles' := tiles + made;
  }

  /** make_images_main: the counter starts at 1 and fields 1 to 7 are processed
      in order, each continuing the manifest and the counter of the one before;
      a field image that cannot be opened ends the run. */
  method MakeImagesMain(catalog: seq<Record>, sizes: seq<int>, images: map<int, Shape>, encode: Encoder)
    returns (manifest: seq<Line>, tiles: seq<Attempt>, recordCounter: int, completed: bool)
    ensures RunState(manifest, tiles, recordCounter, !completed) == RunUpTo(catalog, sizes, images, encode, LastField)
  {
    manifest, tiles, recordCounter, completed := FieldLoop(catalog, sizes, images, encode, LastField);
  }

  /** The field loop of make_images_main over fields 1..lastField. */
  method FieldLoop(catalog: seq<Record>, sizes: seq<int>, images: map<int, Shape>, encode: Encoder, lastField: nat)
    returns (manifest: seq<Line>, tiles: seq<Attempt>, recordCounter: int, completed: bool)
    ensures RunState(manifest, tiles, recordCounter, !completed) == RunUpTo(catalog, sizes, images, encode, lastField)
  {
    manifest, tiles := [], [];
    recordCounter := 1;
    completed := true;
    var fieldNumber := 1;
    while fieldNumber <= lastField && completed
      invariant 1 <= fieldNumber <= lastField + 1
      invariant completed ==>
        RunState(manifest, tiles, recordCounter, false) == RunUpTo(catalog, sizes, images, encode, fieldNumber - 1)
      invariant !completed ==>
        fieldNumber <= lastField &&
        RunState(manifest, tiles, recordCounter, true) == RunUpTo(catalog, sizes, images, encode, fieldNumber)
      decreases lastField + 1 - fieldNumber, completed
    {
      if fieldNumber !in images {
        completed := false;
      } else {
        RunUpToStep(catalog, sizes, images, encode, fieldNumber);
        manifest, tiles, recordCounter :=
          ProcessField(catalog, sizes, images[fieldNumber], encode, fieldNumber, manifest, tiles, recordCounter);
        fieldNumber := fieldNumber + 1;
      }
    }
    if !completed {
      AbortedStays(catalog, sizes, images, encode, fieldNumber, lastField);
    }
  }

  /** The number of leading fields 1, 2, ... up to n whose image exists: the
      fields a run gets through. */
  function Reached(images: map<int, Shape>, n: nat): (r: nat)
    ensures r <= n
  {
    if n == 0 then 0
    else
      var r := Reached(images, n - 1);
      if r == n - 1 && n in images then n else r
  }

  /** The records of fields 1..m as they stand when tiled, field after field. */
  function AllPrepared(catalog: seq<Record>, m: nat): (recs: seq<Record>)
  {
    if m == 0 then []
    else AllPrepared(catalog, m - 1) + Prepared(catalog, m)
  }

  lemma {:induction false} AllPreparedNext(catalog: seq<Record>, m: nat, n: nat)
    requires n == m + 1
    ensures AllPrepared(catalog, n) == AllPrepared(catalog, m) + Prepared(catalog, n)
  {
  }

  /** The records of fields 1..m are point sources of those fields. */
  lemma {:induction false} AllPreparedMembers(catalog: seq<Record>, m: nat, r: Record)
    requires r in AllPrepared(catalog, m)
    ensures r.flag < FlagLimit && 1.0 <= r.chip <= m as real
    decreases m
  {
    if r in AllPrepared(catalog, m - 1) {
      AllPreparedMembers(catalog, m - 1, r);
    } else {
      PreparedMembers(catalog, m, r);
    }
  }

  /** The data rows of a manifest, in order, without the header lines. */
  function DataRows(lines: seq<Line>): (rows: seq<Line>)
    ensures |rows| <= |lines|
  {
    if lines == [] then []
    else
      var n := |lines| - 1;
      DataRows(lines[..n]) + (if lines[n].Row? then [lines[n]] else [])
  }

  lemma {:induction false} DataRowsAppend(a: seq<Line>, b: seq<Line>)
    ensures DataRows(a + b) == DataRows(a) + DataRows(b)
    decreases |b|
  {
    if b == [] {
      assert a + b == a;
    } else {
      var n := |b| - 1;
      assert a + b == (a + b[..n]) + [b[n]];
      assert (a + b)[..|a + b| - 1] == a + b[..n];
      assert b[..n] == b[..|b| - 1];
      DataRowsAppend(a, b[..n]);
    }
  }

  /** Lines that are all rows are their own data rows. */
  lemma {:induction false} DataRowsOfRows(lines: seq<Line>)
    requires forall i :: 0 <= i < |lines| ==> lines[i].Row?
    ensures DataRows(lines) == lines
    decreases |lines|
  {
    if lines != [] {
      var n := |lines| - 1;
      DataRowsOfRows(lines[..n]);
      assert lines[..n] + [lines[n]] == lines;
    }
  }

  lemma {:induction false} RowsAreRows(pairs: seq<(Record, int)>, first: int)
    ensures forall i :: 0 <= i < |Rows(pairs, first)| ==> Rows(pairs, first)[i].Row?
  {
    forall i | 0 <= i < |Rows(pairs, first)|
      ensures Rows(pairs, first)[i].Row?
    {
      RowsAt(pairs, first, i);
    }
  }

  /** Appending a field's opening and its rows to a manifest appends exactly
      those rows to its data rows. */
  lemma {:induction false} AppendDataRows(m: seq<Line>, pairs: seq<(Record, int)>, counter: int)
    ensures DataRows(m + Opening(counter) + Rows(pairs, counter)) == DataRows(m) + Rows(pairs, counter)
  {
    var rows := Rows(pairs, counter);
    var o := Opening(counter);
    DataRowsOpening(counter);
    DataRowsAppend(m, o);
    assert DataRows(m + o) == DataRows(m);
    DataRowsAppend(m + o, rows);
    RowsAreRows(pairs, counter);
    DataRowsOfRows(rows);
  }

  /** The opening of a field holds no data row. */
  lemma {:induction false} DataRowsOpening(counter: int)
    ensures DataRows(Opening(counter)) == []
  {
    if counter == 1 {
      assert Opening(counter) == [Header];
      assert Opening(counter)[..0] == [];
    }
  }

  /** The data rows one field appends are its rows numbered from the counter. */
  lemma {:induction false} StepDataRows(s: RunState, catalog: seq<Record>, sizes: seq<int>, shape: Shape, encode: Encoder, field: int)
    ensures DataRows(FieldStep(s, catalog, sizes, shape, encode, field).manifest)
         == DataRows(s.manifest) + Rows(Pairs(Prepared(catalog, field), sizes), s.counter)
  {
    AppendDataRows(s.manifest, Pairs(Prepared(catalog, field), sizes), s.counter);
  }

  /** Taking up a field keeps the counter one past the number of data rows. */
  lemma {:induction false} AdvanceCounter(s: RunState, catalog: seq<Record>, sizes: seq<int>,
                                          images: map<int, Shape>, encode: Encoder, n: int)
    requires s.counter == 1 + |DataRows(s.manifest)|
    ensures var t := Advance(s, catalog, sizes, images, encode, n);
            t.counter == 1 + |DataRows(t.manifest)|
  {
    if !s.aborted && n in images {
      StepDataRows(s, catalog, sizes, images[n], encode, n);
    }
  }

  /** The counter of a run is one past the number of data rows it wrote. */
  lemma {:induction false} RunCounter(catalog: seq<Record>, sizes: seq<int>, images: map<int, Shape>,
                                      encode: Encoder, n: nat)
    ensures RunUpTo(catalog, sizes, images, encode, n).counter
         == 1 + |DataRows(RunUpTo(catalog, sizes, images, encode, n).manifest)|
    decreases n
  {
    if n > 0 {
      RunCounter(catalog, sizes, images, encode, n - 1);
      AdvanceCounter(RunUpTo(catalog, sizes, images, encode, n - 1), catalog, sizes, images, encode, n);
    }
  }

  /** The tile attempts for the records of fields 1..m, field after field, for
      the fields whose image exists. */
  function TilesUpTo(catalog: seq<Record>, sizes: seq<int>, images: map<int, Shape>,
                     encode: Encoder, m: nat): (t: seq<Attempt>)
  {
    if m == 0 then []
    else TilesUpTo(catalog, sizes, images, encode, m - 1) + FieldTiles(catalog, sizes, images, encode, m)
  }

  /** The attempts field m adds when its image exists. */
  function FieldTiles(catalog: seq<Record>, sizes: seq<int>, images: map<int, Shape>,
                      encode: Encoder, m: int): (t: seq<Attempt>)
  {
    if m in images then Attempts(m, images[m], encode, Pairs(Prepared(catalog, m), sizes)) else []
  }

  lemma {:induction false} TilesUpToNext(catalog: seq<Record>, sizes: seq<int>, images: map<int, Shape>,
                                         encode: Encoder, m: nat, n: nat)
    requires n == m + 1
    ensures TilesUpTo(catalog, sizes, images, encode, n)
         == TilesUpTo(catalog, sizes, images, encode, m) + FieldTiles(catalog, sizes, images, encode, n)
  {
  }

  /** A run that has reached field m = k + 1 has reached field k, and field m
      has an image. */
  lemma {:induction false} ReachedPrev(images: map<int, Shape>, k: nat, m: nat)
    requires m == k + 1 && Reached(images, m) == m
    ensures Reached(images, k) == k && m in images
  {
  }

  /** The fields a run reaches are all reached again from there. */
  lemma {:induction false} ReachedFixed(images: map<int, Shape>, n: nat)
    ensures Reached(images, Reached(images, n)) == Reached(images, n)
    decreases n
  {
    if n > 0 {
      ReachedFixed(images, n - 1);
    }
  }

  /** Attempt `t` is the tile a run over fields 1..n makes for the pair `p`:
      the record is a point source of a field f among 1..n whose image exists,
      and `t` is that field's attempt for the record and the size. */
  predicate TileOf(images: map<int, Shape>, encode: Encoder, n: nat, p: (Record, int), t: Attempt)
  {
    var f := p.0.chip.Floor;
    && 1 <= f <= n && f in images && p.0.chip == f as real && p.0.flag < FlagLimit
    && t == AttemptOf(f, images[f], encode, p.0, p.1)
  }

  /** Over fields 1..m that all have an image, there is one attempt per pair of
      their records and the sizes. */
  lemma {:induction false} TilesUpToLength(catalog: seq<Record>, sizes: seq<int>, images: map<int, Shape>,
                                           encode: Encoder, m: nat)
    requires Reached(images, m) == m
    ensures |TilesUpTo(catalog, sizes, images, encode, m)| == |Pairs(AllPrepared(catalog, m), sizes)|
    decreases m
  {
    if m > 0 {
      var k := m - 1;
      ReachedPrev(images, k, m);
      TilesUpToLength(catalog, sizes, images, encode, k);
      TilesUpToNext(catalog, sizes, images, encode, k, m);
      AllPreparedNext(catalog, k, m);
      PairsAppend(AllPrepared(catalog, k), Prepared(catalog, m), sizes);
    }
  }

  /** An index past the first part of a concatenation lands in the second. */
  lemma {:induction false} IndexAfter<T>(a: seq<T>, b: seq<T>, i: int, j: int)
    requires j == |a| + i && 0 <= i < |b|
    ensures j < |a + b| && (a + b)[j] == b[i]
  {
  }

  /** Attempt j of the earlier fields' attempts followed by field m's is the
      tile for pair j of their pairs followed by field m's, when j falls in
      field m. */
  lemma {:induction false} FieldTileAfter(catalog: seq<Record>, sizes: seq<int>, images: map<int, Shape>,
                                          encode: Encoder, m: nat, before: seq<(Record, int)>,
                                          tiles: seq<Attempt>, j: int)
    requires 1 <= m && m in images
    requires |tiles| == |before| <= j < |before| + |Pairs(Prepared(catalog, m), sizes)|
    ensures j < |tiles + FieldTiles(catalog, sizes, images, encode, m)|
    ensures TileOf(images, encode, m, (before + Pairs(Prepared(catalog, m), sizes))[j],
                   (tiles + FieldTiles(catalog, sizes, images, encode, m))[j])
  {
    var q := Pairs(Prepared(catalog, m), sizes);
    var here := FieldTiles(catalog, sizes, images, encode, m);
    var i := j - |before|;
    FieldPair(catalog, sizes, m, i);
    FieldTileAt(images, encode, m, m, before, q, tiles, here, i, j);
  }

  /** Each pair of field m holds a point source of field m. */
  lemma {:induction false} FieldPair(catalog: seq<Record>, sizes: seq<int>, m: nat, i: int)
    requires 0 <= i < |Pairs(Prepared(catalog, m), sizes)|
    ensures var p := Pairs(Prepared(catalog, m), sizes)[i];
            p.0.chip == m as real && p.0.chip.Floor == m && p.0.flag < FlagLimit
  {
    PairsMember(Prepared(catalog, m), sizes, i);
    PreparedMembers(catalog, m, Pairs(Prepared(catalog, m), sizes)[i].0);
    assert (m as real).Floor == m;
  }

  /** Field m's attempt for one of its point sources, placed after the
      attempts and pairs of earlier fields, is a tile of any run that reaches
      field m. */
  lemma {:induction false} FieldTileAt(images: map<int, Shape>, encode: Encoder, n: nat, m: int,
                                       before: seq<(Record, int)>, q: seq<(Record, int)>,
                                       tiles: seq<Attempt>, here: seq<Attempt>, i: int, j: int)
    requires 1 <= m <= n && m in images
    requires |tiles| == |before| && j == |before| + i && 0 <= i < |q| && i < |here|
    requires q[i].0.chip == m as real && q[i].0.chip.Floor == m && q[i].0.flag < FlagLimit
    requires here[i] == AttemptOf(m, images[m], encode, q[i].0, q[i].1)
    ensures j < |tiles + here| && TileOf(images, encode, n, (before + q)[j], (tiles + here)[j])
  {
    IndexAfter(before, q, i, j);
    IndexAfter(tiles, here, i, j);
  }

  /** A tile of a run over fields 1..a is one of a run over fields 1..b. */
  lemma {:induction false} TileOfWiden(images: map<int, Shape>, encode: Encoder, a: nat, b: nat, p: (Record, int), t: Attempt)
    requires a <= b && TileOf(images, encode, a, p, t)
    ensures TileOf(images, encode, b, p, t)
  {
  }

  /** Over fields 1..m that all have an image, attempt j is the tile for pair j
      of their records and the sizes. */
  lemma {:induction false} TilesUpToAt(catalog: seq<Record>, sizes: seq<int>, images: map<int, Shape>,
                                       encode: Encoder, m: nat, j: int)
    requires Reached(images, m) == m && 0 <= j < |Pairs(AllPrepared(catalog, m), sizes)|
    ensures j < |TilesUpTo(catalog, sizes, images, encode, m)|
    ensures TileOf(images, encode, m, Pairs(AllPrepared(catalog, m), sizes)[j], TilesUpTo(catalog, sizes, images, encode, m)[j])
    decreases m
  {
    var k := m - 1;
    ReachedPrev(images, k, m);
    var before := Pairs(AllPrepared(catalog, k), sizes);
    var q := Pairs(Prepared(catalog, m), sizes);
    var tiles := TilesUpTo(catalog, sizes, images, encode, k);
    var here := FieldTiles(catalog, sizes, images, encode, m);
    assert Pairs(AllPrepared(catalog, m), sizes) == before + q by {
      AllPreparedNext(catalog, k, m);
      PairsAppend(AllPrepared(catalog, k), Prepared(catalog, m), sizes);
    }
    assert TilesUpTo(catalog, sizes, images, encode, m) == tiles + here by {
      TilesUpToNext(catalog, sizes, images, encode, k, m);
    }
    assert |tiles| == |before| by {
      TilesUpToLength(catalog, sizes, images, encode, k);
    }
    if j < |before| {
      TilesUpToAt(catalog, sizes, images, encode, k, j);
      TileOfWiden(images, encode, k, m, before[j], tiles[j]);
      assert (before + q)[j] == before[j] && (tiles + here)[j] == tiles[j];
    } else {
      FieldTileAfter(catalog, sizes, images, encode, m, before, tiles, j);
    }
  }

  /** Taking up field n = m + 1 appends that field's attempts when it is
      processed, and nothing otherwise. */
  lemma {:induction false} AdvanceTiles(s: RunState, catalog: seq<Record>, sizes: seq<int>,
                                        images: map<int, Shape>, encode: Encoder, m: nat, n: nat)
    requires n == m + 1 && (s.aborted <==> Reached(images, m) < m)
    requires s.tiles == TilesUpTo(catalog, sizes, images, encode, Reached(images, m))
    ensures Advance(s, catalog, sizes, images, encode, n).tiles
         == TilesUpTo(catalog, sizes, images, encode, Reached(images, n))
  {
    if !s.aborted && n in images {
      assert Reached(images, m) == m && Reached(images, n) == n;
      TilesUpToNext(catalog, sizes, images, encode, m, n);
    } else {
      assert Reached(images, n) == Reached(images, m);
    }
  }

  /** The attempts of a run over fields 1..n are those of the fields reached. */
  lemma {:induction false} RunTilesAre(catalog: seq<Record>, sizes: seq<int>, images: map<int, Shape>,
                                       encode: Encoder, n: nat)
    ensures RunUpTo(catalog, sizes, images, encode, n).tiles == TilesUpTo(catalog, sizes, images, encode, Reached(images, n))
    decreases n, 1
  {
    if n > 0 {
      RunTilesStep(catalog, sizes, images, encode, n - 1, n);
    }
  }

  /** The inductive step of RunTilesAre, from field m to field n = m + 1. */
  lemma {:induction false} RunTilesStep(catalog: seq<Record>, sizes: seq<int>, images: map<int, Shape>,
                                        encode: Encoder, m: nat, n: nat)
    requires n == m + 1
    ensures RunUpTo(catalog, sizes, images, encode, n).tiles == TilesUpTo(catalog, sizes, images, encode, Reached(images, n))
    decreases n, 0
  {
    RunTilesAre(catalog, sizes, images, encode, m);
    RunAborted(catalog, sizes, images, encode, m);
    AdvanceTiles(RunUpTo(catalog, sizes, images, encode, m), catalog, sizes, images, encode, m, n);
    RunUpToNext(catalog, sizes, images, encode, m, n);
  }

  /** A run makes one tile attempt per manifest row, whether or not the tile
      was saved, and attempt k is the tile for the record and size of row k:
      the record is a point source of one of the fields 1..n, and the attempt
      crops that field's image. */
  lemma {:induction false} RunTiles(catalog: seq<Record>, sizes: seq<int>, images: map<int, Shape>,
                                    encode: Encoder, n: nat)
    ensures var s := RunUpTo(catalog, sizes, images, encode, n);
            var pairs := Pairs(AllPrepared(catalog, Reached(images, n)), sizes);
            && |s.tiles| == |DataRows(s.manifest)| == |pairs|
            && forall k :: 0 <= k < |pairs| ==>
                 DataRows(s.manifest)[k] == RowOf(1 + k, pairs[k].0, pairs[k].1)
                 && TileOf(images, encode, n, pairs[k], s.tiles[k])
  {
    var s := RunUpTo(catalog, sizes, images, encode, n);
    var r := Reached(images, n);
    var pairs := Pairs(AllPrepared(catalog, r), sizes);
    RunTilesAre(catalog, sizes, images, encode, n);
    RunRows(catalog, sizes, images, encode, n);
    ReachedFixed(images, n);
    TilesUpToLength(catalog, sizes, images, encode, r);
    forall k | 0 <= k < |pairs|
      ensures DataRows(s.manifest)[k] == RowOf(1 + k, pairs[k].0, pairs[k].1)
      ensures TileOf(images, encode, n, pairs[k], s.tiles[k])
    {
      RowsAt(pairs, 1, k);
      TilesUpToAt(catalog, sizes, images, encode, r, k);
    }
  }

  /** A run stops at field n exactly when it had stopped before or field n
      has no image. */
  lemma {:induction false} AdvanceAborted(s: RunState, catalog: seq<Record>, sizes: seq<int>,
                                          images: map<int, Shape>, encode: Encoder, n: nat)
    requires n > 0 && (s.aborted <==> Reached(images, n - 1) < n - 1)
    ensures Advance(s, catalog, sizes, images, encode, n).aborted <==> Reached(images, n) < n
  {
    if !s.aborted && n in images {
      assert !FieldStep(s, catalog, sizes, images[n], encode, n).aborted;
    }
  }

  /** The run has stopped after field n exactly when one of the fields 1..n
      has no image. */
  lemma {:induction false} RunAborted(catalog: seq<Record>, sizes: seq<int>, images: map<int, Shape>,
                                      encode: Encoder, n: nat)
    ensures RunUpTo(catalog, sizes, images, encode, n).aborted <==> Reached(images, n) < n
    decreases n
  {
    if n > 0 {
      RunAborted(catalog, sizes, images, encode, n - 1);
      AdvanceAborted(RunUpTo(catalog, sizes, images, encode, n - 1), catalog, sizes, images, encode, n);
    }
  }

  /** Taking up field n = m + 1 continues the rows of the fields reached
      before it with the rows of its own records. */
  lemma {:induction false} AdvanceRows(s: RunState, catalog: seq<Record>, sizes: seq<int>,
                                       images: map<int, Shape>, encode: Encoder, m: nat, n: nat)
    requires n == m + 1 && (s.aborted <==> Reached(images, m) < m)
    requires s.counter == 1 + |DataRows(s.manifest)|
    requires DataRows(s.manifest) == Rows(Pairs(AllPrepared(catalog, Reached(images, m)), sizes), 1)
    ensures DataRows(Advance(s, catalog, sizes, images, encode, n).manifest)
         == Rows(Pairs(AllPrepared(catalog, Reached(images, n)), sizes), 1)
  {
    if !s.aborted && n in images {
      assert Reached(images, m) == m && Reached(images, n) == n;
      assert Advance(s, catalog, sizes, images, encode, n) == FieldStep(s, catalog, sizes, images[n], encode, n);
      StepDataRows(s, catalog, sizes, images[n], encode, n);
      RowsContinue(DataRows(s.manifest), AllPrepared(catalog, m), Prepared(catalog, n), sizes, s.counter);
      AllPreparedNext(catalog, m, n);
    } else {
      assert Reached(images, n) == Reached(images, m);
    }
  }

  /** Over fields 1..n the data rows are exactly the rows for the records of
      the fields reached, record by record and size by size, numbered 1, 2, ...
      without a reset between fields. */
  lemma {:induction false} RunRows(catalog: seq<Record>, sizes: seq<int>, images: map<int, Shape>,
                                   encode: Encoder, n: nat)
    ensures DataRows(RunUpTo(catalog, sizes, images, encode, n).manifest)
         == Rows(Pairs(AllPrepared(catalog, Reached(images, n)), sizes), 1)
    decreases n, 1
  {
    if n > 0 {
      RunRowsStep(catalog, sizes, images, encode, n - 1, n);
    }
  }

  /** The inductive step of RunRows, from field m to field n = m + 1. */
  lemma {:induction false} RunRowsStep(catalog: seq<Record>, sizes: seq<int>, images: map<int, Shape>,
                                       encode: Encoder, m: nat, n: nat)
    requires n == m + 1
    ensures DataRows(RunUpTo(catalog, sizes, images, encode, n).manifest)
         == Rows(Pairs(AllPrepared(catalog, Reached(images, n)), sizes), 1)
    decreases n, 0
  {
    var s := RunUpTo(catalog, sizes, images, encode, m);
    RunRows(catalog, sizes, images, encode, m);
    RunAborted(catalog, sizes, images, encode, m);
    RunCounter(catalog, sizes, images, encode, m);
    AdvanceRows(s, catalog, sizes, images, encode, m, n);
    RunUpToNext(catalog, sizes, images, encode, m, n);
  }

  /** Rows numbered on from the end of earlier rows are the rows of all the
      records together. */
  lemma {:induction false} RowsContinue(d: seq<Line>, recs: seq<Record>, here: seq<Record>, sizes: seq<int>, counter: int)
    requires d == Rows(Pairs(recs, sizes), 1) && counter == 1 + |d|
    ensures d + Rows(Pairs(here, sizes), counter) == Rows(Pairs(recs + here, sizes), 1)
  {
    PairsAppend(recs, here, sizes);
    RowsAppend(Pairs(recs, sizes), Pairs(here, sizes), 1);
  }

  /** The ids of the run's data rows are 1, 2, ..., N in manifest order, and
      the counter the run ends with is N + 1. */
  lemma {:induction false} RunIdsConsecutive(catalog: seq<Record>, sizes: seq<int>, images: map<int, Shape>, encode: Encoder, n: nat)
    ensures var s := RunUpTo(catalog, sizes, images, encode, n);
            && s.counter == 1 + |DataRows(s.manifest)|
            && forall k :: 0 <= k < |DataRows(s.manifest)| ==> DataRows(s.manifest)[k].Row? && DataRows(s.manifest)[k].id == 1 + k
  {
    RunCounter(catalog, sizes, images, encode, n);
    RunRows(catalog, sizes, images, encode, n);
    var s := RunUpTo(catalog, sizes, images, encode, n);
    var pairs := Pairs(AllPrepared(catalog, Reached(images, n)), sizes);
    forall k | 0 <= k < |DataRows(s.manifest)|
      ensures DataRows(s.manifest)[k].Row? && DataRows(s.manifest)[k].id == 1 + k
    {
      RowsAt(pairs, 1, k);
    }
  }

  /** Every manifest row of the run comes from a record of one of the fields
      1..n with `flag < 19.5`; galaxies never reach the manifest. */
  lemma {:induction false} RunRowsArePointSources(catalog: seq<Record>, sizes: seq<int>, images: map<int, Shape>,
                               encode: Encoder, n: nat, k: int)
    requires 0 <= k < |DataRows(RunUpTo(catalog, sizes, images, encode, n).manifest)|
    ensures var row := DataRows(RunUpTo(catalog, sizes, images, encode, n).manifest)[k];
            row.Row? &&
            exists r {:trigger r in AllPrepared(catalog, n)} :: r in AllPrepared(catalog, n) && r.flag < FlagLimit && 1.0 <= r.chip <= n as real
                        && row.catalogId == r.totId && row.chip == r.chip && row.xBrad == r.xBrad && row.yBrad == r.yBrad
  {
    RunRows(catalog, sizes, images, encode, n);
    var recs := AllPrepared(catalog, Reached(images, n));
    var pairs := Pairs(recs, sizes);
    RowsAt(pairs, 1, k);
    PairsMember(recs, sizes, k);
    AllPreparedPrefix(catalog, Reached(images, n), n);
    var i :| 0 <= i < |recs| && recs[i] == pairs[k].0;
    assert AllPrepared(catalog, n)[i] == pairs[k].0;
    AllPreparedMembers(catalog, n, pairs[k].0);
  }

  /** The records of the first m fields come first among those of the first n. */
  lemma {:induction false} AllPreparedPrefix(catalog: seq<Record>, m: nat, n: nat)
    requires m <= n
    ensures AllPrepared(catalog, m) <= AllPrepared(catalog, n)
    decreases n
  {
    if m < n {
      var k := n - 1;
      AllPreparedPrefix(catalog, m, k);
      AllPreparedNext(catalog, k, n);
      var a := AllPrepared(catalog, m);
      var b := AllPrepared(catalog, k);
      assert a == b[..|a|];
      assert a == (b + Prepared(catalog, n))[..|a|];
    }
  }

  /** No header line follows a data row. */
  predicate HeadersFirst(lines: seq<Line>)
  {
    forall i, j :: 0 <= i < j < |lines| && lines[j].Header? ==> lines[i].Header?
  }

  lemma {:induction false} NoDataRowsAllHeaders(lines: seq<Line>)
    requires DataRows(lines) == []
    ensures forall i :: 0 <= i < |lines| ==> lines[i].Header?
    decreases |lines|
  {
    if lines != [] {
      var n := |lines| - 1;
      assert DataRows(lines[..n]) == [];
      NoDataRowsAllHeaders(lines[..n]);
      assert forall i :: 0 <= i < n ==> lines[..n][i] == lines[i];
    }
  }

  /** Processing a field keeps the headers in front: it adds a header only
      while the counter is 1, that is before any data row. */
  lemma {:induction false} StepHeadersFirst(s: RunState, catalog: seq<Record>, sizes: seq<int>, shape: Shape, encode: Encoder,
                         field: int)
    requires HeadersFirst(s.manifest) && s.counter == 1 + |DataRows(s.manifest)|
    ensures HeadersFirst(FieldStep(s, catalog, sizes, shape, encode, field).manifest)
  {
    var q := Pairs(Prepared(catalog, field), sizes);
    var rows := Rows(q, s.counter);
    RowsAreRows(q, s.counter);
    var m := s.manifest + Opening(s.counter) + rows;
    var h := |s.manifest| + |Opening(s.counter)|;
    if s.counter == 1 {
      NoDataRowsAllHeaders(s.manifest);
    }
    assert forall i :: 0 <= i < h ==> m[i].Header? || s.counter != 1;
    assert forall i :: h <= i < |m| ==> m[i] == rows[i - h];
  }

  /** Taking up a field keeps the headers in front. */
  lemma {:induction false} AdvanceHeadersFirst(s: RunState, catalog: seq<Record>, sizes: seq<int>,
                                               images: map<int, Shape>, encode: Encoder, n: int)
    requires HeadersFirst(s.manifest) && s.counter == 1 + |DataRows(s.manifest)|
    ensures HeadersFirst(Advance(s, catalog, sizes, images, encode, n).manifest)
  {
    if !s.aborted && n in images {
      StepHeadersFirst(s, catalog, sizes, images[n], encode, n);
    }
  }

  /** All header lines of the run's manifest come before all its data rows. */
  lemma {:induction false} RunHeadersFirst(catalog: seq<Record>, sizes: seq<int>, images: map<int, Shape>,
                                           encode: Encoder, n: nat)
    ensures HeadersFirst(RunUpTo(catalog, sizes, images, encode, n).manifest)
    decreases n
  {
    if n > 0 {
      RunHeadersFirst(catalog, sizes, images, encode, n - 1);
      RunCounter(catalog, sizes, images, encode, n - 1);
      AdvanceHeadersFirst(RunUpTo(catalog, sizes, images, encode, n - 1), catalog, sizes, images, encode, n);
    }
  }

  /** The header is written a second time when field 1 contributes no row (no
      surviving record, or no size configured) and field 2's image exists. */
  lemma {:induction false} HeaderRepeats(catalog: seq<Record>, sizes: seq<int>, images: map<int, Shape>, encode: Encoder)
    requires 1 in images && 2 in images
    requires |Prepared(catalog, 1)| == 0 || |sizes| == 0
    ensures var lines := RunUpTo(catalog, sizes, images, encode, 2).manifest;
            |lines| >= 2 && lines[0] == Header && lines[1] == Header
  {
    var s0 := RunUpTo(catalog, sizes, images, encode, 0);
    var s1 := RunUpTo(catalog, sizes, images, encode, 1);
    var s2 := RunUpTo(catalog, sizes, images, encode, 2);
    var p1 := Pairs(Prepared(catalog, 1), sizes);
    var p2 := Pairs(Prepared(catalog, 2), sizes);
    PairsLength(Prepared(catalog, 1), sizes);
    assert |p1| == 0;
    assert s0 == RunState([], [], 1, false);
    assert s1 == FieldStep(s0, catalog, sizes, images[1], encode, 1);
    assert Rows(p1, 1) == [];
    assert s1.manifest == [Header] && s1.counter == 1 && !s1.aborted;
    assert s2 == FieldStep(s1, catalog, sizes, images[2], encode, 2);
    assert s2.manifest == [Header] + [Header] + Rows(p2, 1);
  }
}
