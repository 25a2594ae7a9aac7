/** Coordinate reconciliation: the per-field correction of the catalog's
    `x_brad`/`y_brad` columns and the map from the catalog's lower-left
    (column, row) pixel convention to the image array's upper-left
    (row, column) convention. */
module Coordinates {
  import opened Catalog

  /** fits2numpycoords: the catalog pixel (x, y), counted from the lower-left
      corner as (column, row), becomes the array index (row, column) counted
      from the upper-left corner of an image `ymax` rows high. The array index
      determines the catalog pixel again. */
  function Fits2Numpy(x: int, y: int, ymax: int): (p: (int, int))
    ensures Numpy2Fits(p.0, p.1, ymax) == (x, y)
  {
    (ymax - y, x)
  }

  /** The inverse direction: array (row, column) back to catalog (x, y). */
  function Numpy2Fits(row: int, col: int, ymax: int): (p: (int, int))
  {
    (col, ymax - row)
  }

  /** Every array index comes from exactly one catalog pixel. */
  lemma {:induction false} Numpy2FitsRoundTrip(row: int, col: int, ymax: int)
    ensures Fits2Numpy(Numpy2Fits(row, col, ymax).0, Numpy2Fits(row, col, ymax).1, ymax) == (row, col)
  {
  }

  /** Two catalog pixels that land on the same array index are the same pixel. */
  lemma {:induction false} Fits2NumpyInjective(x: int, y: int, x': int, y': int, ymax: int)
    requires Fits2Numpy(x, y, ymax) == Fits2Numpy(x', y', ymax)
    ensures x == x' && y == y'
  {
    assert (x, y) == Numpy2Fits(Fits2Numpy(x, y, ymax).0, Fits2Numpy(x, y, ymax).1, ymax);
  }

  /** The map is a quarter turn: applied twice it reflects both axes, applied
      four times it is the identity. */
  lemma {:induction false} Fits2NumpyQuarterTurn(x: int, y: int, ymax: int)
    ensures var p := Fits2Numpy(x, y, ymax);
            var q := Fits2Numpy(p.0, p.1, ymax);
            q == (ymax - x, ymax - y) && Fits2Numpy(Fits2Numpy(q.0, q.1, ymax).0, Fits2Numpy(q.0, q.1, ymax).1, ymax) == (x, y)
  {
  }

  /** So it is not an involution: with ymax = 1000 the pixel (5, 3) goes to
      (997, 5) and then to (995, 997), not back to (5, 3). */
  lemma {:induction false} Fits2NumpyNotInvolution()
    ensures Fits2Numpy(5, 3, 1000) == (997, 5)
    ensures Fits2Numpy(997, 5, 1000) == (995, 997) != (5, 3)
  {
  }

  /** The coefficients of the fitted field-1 relation in get_f1_delta. */
  const F1X0: real := 25.8228520
  const F1X1: real := -0.0100916521
  const F1Y0: real := -72.6563777
  const F1Y1: real := -0.0100990683

  /** get_f1_delta: the field-1 shift is the negated fitted linear relation of
      each coordinate, so the corrected coordinate is an affine function of the
      raw one alone, with slope 1 - x1 (resp. 1 - y1). */
  function F1Delta(xBrad: real, yBrad: real): (d: (real, real))
    ensures xBrad + d.0 == (1.0 - F1X1) * xBrad - F1X0
    ensures yBrad + d.1 == (1.0 - F1Y1) * yBrad - F1Y0
  {
    (-(F1X1 * xBrad + F1X0), -(F1Y1 * yBrad + F1Y0))
  }

  /** The field-1 correction keeps the order of the sources along x: the
      corrected `x_brad` is a strictly increasing function of the raw one,
      whatever the `y_brad` values. */
  lemma {:induction false} F1CorrectionMonotoneX(x: real, x': real, y: real, y': real)
    requires x < x'
    ensures x + F1Delta(x, y).0 < x' + F1Delta(x', y').0
  {
  }

  /** The same along y, whatever the `x_brad` values. */
  lemma {:induction false} F1CorrectionMonotoneY(x: real, x': real, y: real, y': real)
    requires y < y'
    ensures y + F1Delta(x, y).1 < y' + F1Delta(x', y').1
  {
  }

  /** The offset transform_coordinates adds to a record of `field`: the fitted
      shift for field 1, the constant (75, -3643) for field 2, nothing otherwise. */
  function Delta(field: int, xBrad: real, yBrad: real): (d: (real, real))
  {
    if field == 1 then F1Delta(xBrad, yBrad)
    else if field == 2 then (75.0, -3643.0)
    else (0.0, 0.0)
  }

  /** Outside field 1 the offset does not depend on the record: every record
      of the field moves by the same amount. */
  lemma {:induction false} OffsetConstantOutsideField1(field: int, x: real, y: real, x': real, y': real)
    requires field != 1
    ensures Delta(field, x, y) == Delta(field, x', y')
  {
  }

  /** One record after transform_coordinates: only `x_brad` and `y_brad` move,
      by the offset of the field; records of fields other than 1 and 2 do not
      change at all. */
  function Shifted(field: int, r: Record): (s: Record)
    ensures s.(xBrad := r.xBrad, yBrad := r.yBrad) == r
    ensures field == 2 ==> s.xBrad == r.xBrad + 75.0 && s.yBrad == r.yBrad - 3643.0
    ensures field != 1 && field != 2 ==> s == r
  {
    var d := Delta(field, r.xBrad, r.yBrad);
    r.(xBrad := r.xBrad + d.0, yBrad := r.yBrad + d.1)
  }

  /** transform_coordinates: adds the field's offset to the `x_brad` and
      `y_brad` columns of the selected records, in place. */
  method TransformCoordinates(field: int, coords: array<Record>)
    modifies coords
    ensures forall i :: 0 <= i < coords.Length ==> coords[i] == Shifted(field, old(coords[i]))
  {
    forall i | 0 <= i < coords.Length {
      coords[i] := Shifted(field, coords[i]);
    }
  }

  /** The records of one field as they stand after selection and transform. */
  function Prepared(catalog: seq<Record>, field: int): (p: seq<Record>)
    ensures |p| == |Survivors(catalog, field)|
  {
    ShiftAll(field, Survivors(catalog, field))
  }

  /** Every prepared record lies in its field and is a point source: the
      transform moves only the coordinates. */
  lemma PreparedMembers(catalog: seq<Record>, field: int, r: Record)
    requires r in Prepared(catalog, field)
    ensures r.chip == field as real && r.flag < FlagLimit
  {
    var s := Survivors(catalog, field);
    var i :| 0 <= i < |s| && Prepared(catalog, field)[i] == r;
    assert r == Shifted(field, s[i]);
    SurvivorsMembers(catalog, field, s[i]);
  }

  /** Every record of a list shifted by the offset of `field`, in order. */
  function ShiftAll(field: int, rs: seq<Record>): (p: seq<Record>)
    ensures |p| == |rs|
    ensures forall i {:trigger p[i]} :: 0 <= i < |rs| ==> p[i] == Shifted(field, rs[i])
  {
    if rs == [] then [] else [Shifted(field, rs[0])] + ShiftAll(field, rs[1..])
  }
}
