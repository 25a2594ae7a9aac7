# M83 tile generator, modelled in Dafny

This project models the core of the M83 image-tile generator in `make_images.py`. For each of the fields 1 to 7, the generator:

- selects the catalog rows of that field;
- drops rows flagged as background galaxies (`flag >= 19.5`);
- corrects the `x_brad`/`y_brad` coordinates of the remaining rows with a per-field offset;
- crops a square tile around every source for every configured half-size, and saves it under a name built from the field, the pixel and the edge length;
- appends one manifest row per (record, size) to a metadata file, numbered by a counter that runs across all fields.

The modules follow the program's parts:

- `Catalog` (catalog.dfy) holds:
  - the parsed catalog records;
  - Python's `int()` on a float;
  - the `chip`/`flag` selection;
  - the record-major, size-minor order of (record, size) pairs.
- `Coordinates` (coordinates.dfy) holds `fits2numpycoords`, the offsets of `get_f1_delta` and `transform_coordinates`, and the in-place transform of the selected rows (an `array`).
- `Naming` (naming.dfy) holds Python's `str()` of an integer and the tile file name, with a proof that a name determines its field, pixel and edge.
- `Tiles` (tiles.dfy) holds:
  - NumPy's reading of slice bounds;
  - the crop window, both as written and as meant;
  - the record/size loops of `make_images`.
- `Manifest` (manifest.dfy) holds `make_metadata`: the optional header, the rows, and the returned counter.
- `Pipeline` (pipeline.dfy) holds the field loop of `make_images_main`.
  - `RunUpTo` is its specification: the run after fields 1..n.
  - The lemmas state what a whole run produces.

The outside world enters as parameters:

- The catalog is a parsed `seq<Record>`, and the configured size list is `sizes`.
- Each field image that can be opened is given by its `Shape` (height, width) in the map `images`.
- Encoding and saving one tile is an oracle `encode`. It returns whether the save went through, or whether a `ValueError` was caught and reported instead.

Some behaviour of the code that the model states explicitly:

- `fits2numpycoords` (make_images.py:110-117) is a quarter turn, not an involution. Applied twice it gives (ymax - x, ymax - y), and it returns to its input only after four applications (`Fits2NumpyQuarterTurn`, `Fits2NumpyNotInvolution`).
- The galaxy exclusion keeps the rows with `flag < 19.5` (make_images.py:225), and so does the model.
- The header is written whenever the incoming counter is 1 (make_images.py:169-171). So it is written a second time when field 1 contributes no rows (`HeaderRepeats`).
- An empty crop goes to the imaging library like any other. It fails only if the library raises a `ValueError`, and the model leaves that outcome to `encode`.
- A failed tile save does not stop the run: the `ValueError` raised around the save is caught and reported, and the loop goes on (make_images.py:151-154).

## Model

| member | source | states |
|---|---|---|
| Catalog.Trunc | make_images.py:138-139 | `int()` truncates toward zero: for v >= 0 the result is the largest integer at most v, and for v < 0 the smallest at least v |
| Catalog.WhereMembers | make_images.py:223 | a row survives a boolean mask exactly when it is in the catalog and the mask holds for it |
| Catalog.WhereAppend | make_images.py:223 | a mask distributes over concatenation, so it keeps catalog order |
| Catalog.Survivors | make_images.py:223-225 | the rows kept for a field are no more than the catalog, and each has `chip` equal to the field and `flag` below 19.5 |
| Catalog.SurvivorsAreMasks | make_images.py:223-225 | the field's survivors are the `chip == field` mask followed by the `flag < 19.5` mask |
| Catalog.SurvivorsMembers | make_images.py:223-225 | a record survives exactly when it is in the catalog, its `chip` equals the field number and its `flag` is below 19.5 |
| Catalog.PairsLength | make_images.py:137-140 | there is one (record, size) pair per record and per size |
| Catalog.PairsAt | make_images.py:137-140 | the pair at position i * \|sizes\| + j is record i with size j (records outer, sizes inner) |
| Catalog.PairsMember | make_images.py:137-140 | every pair holds one of the records and one of the sizes |
| Catalog.PairsAppend | make_images.py:172-173 | the pairs of two record lists laid end to end are their pair lists laid end to end |
| Coordinates.Fits2Numpy | make_images.py:110-117 | the array index of catalog pixel (x, y) is (ymax - y, x), and mapping it back gives (x, y) |
| Coordinates.Numpy2FitsRoundTrip | make_images.py:110-117 | every array index comes from the catalog pixel the inverse map gives |
| Coordinates.Fits2NumpyInjective | make_images.py:110-117 | two catalog pixels with the same array index are equal |
| Coordinates.Fits2NumpyQuarterTurn | make_images.py:110-117 | applied twice, the map gives (ymax - x, ymax - y); applied four times, it is the identity |
| Coordinates.Fits2NumpyNotInvolution | make_images.py:110-117 | with ymax = 1000, (5, 3) goes to (997, 5) and then to (995, 997), not back to (5, 3) |
| Coordinates.F1Delta | make_images.py:91-107 | the field-1 shift moves a coordinate v to (1 - x1) * v - x0 along x and (1 - y1) * v - y0 along y, with the fitted constants |
| Coordinates.F1CorrectionMonotoneX | make_images.py:91-107 | after the field-1 correction, a source with a smaller `x_brad` still has the smaller corrected `x_brad`, whatever the `y_brad` values |
| Coordinates.F1CorrectionMonotoneY | make_images.py:91-107 | the same along `y_brad`, whatever the `x_brad` values |
| Coordinates.OffsetConstantOutsideField1 | make_images.py:187-194 | outside field 1 every record of a field is moved by the same offset |
| Coordinates.Shifted | make_images.py:187-196 | the transform changes only `x_brad` and `y_brad`: by (75, -3643) in field 2, not at all outside fields 1 and 2 |
| Coordinates.TransformCoordinates | make_images.py:183-198 | every element of the selected rows is replaced, in place, by itself shifted by its field's offset |
| Coordinates.ShiftAll | make_images.py:195-196 | shifting a list keeps its length, and element i of the result is element i shifted |
| Coordinates.PreparedMembers | make_images.py:223-227 | every transformed record of a field has that field's `chip` and a `flag` below 19.5 |
| Naming.IntStr | make_images.py:149 | `str()` of an integer is a non-empty numeral that starts with `-` exactly when the integer is negative |
| Naming.NatStrRoundTrip | make_images.py:149 | reading back the decimal digits written for a natural number gives that number |
| Naming.IntStrInjective | make_images.py:149 | different integers are written as different strings |
| Naming.SplitAtSeparator | make_images.py:149 | a numeral followed by a non-numeral separator splits back uniquely |
| Naming.TileNameLayout | make_images.py:147-149 | a tile name starts with `f{field}/`, so every tile lies in the directory of its field |
| Naming.TileNameInjective | make_images.py:147-149 | a tile name determines the field, the x and y pixel and the edge length |
| Naming.DistinctSizesDistinctNames | make_images.py:140-149 | for one record, two different sizes give different file names |
| Naming.TileNameExample | make_images.py:147-149 | field 3, pixel (42, -7) and edge 10 give `f3/f3_42_-7_10pix.jpg` |
| Tiles.SliceIndex | make_images.py:143-145 | a slice bound lands in [0, n]: a non-negative bound is capped at n, and a negative one counts from the end |
| Tiles.Slice | make_images.py:143-145 | `a[lo:hi]` on an axis of length n selects exactly the indices between the two read bounds, inside [0, n] |
| Tiles.SliceInRange | make_images.py:143-145 | bounds inside the axis are selected as they are |
| Tiles.CropAsWritten | make_images.py:143-145 | the slice as written, `max(c - size, 0):min(c + size, n)` read by NumPy, lies inside [0, n] |
| Tiles.CropAsWrittenWraps | make_images.py:143-145 | as written, center -10 and size 5 on an axis of 1000 crop 995 rows instead of none |
| Tiles.CropAsWrittenAgrees | make_images.py:143-145 | when center + size >= 0, the crop as written equals the corrected crop |
| Tiles.Crop | make_images.py:143-145 | the corrected crop, with the stop bound kept at or above the start, lies inside [0, n] |
| Tiles.CropWindow | make_images.py:143-145 | the corrected crop holds exactly the indices of [0, n) that lie in [center - size, center + size) |
| Tiles.CropLength | make_images.py:143-145 | the crop is at most max(2 * size, 0) long |
| Tiles.AttemptOf | make_images.py:141-151 | an attempt is saved exactly when the encoder accepts its name and window |
| Tiles.AttemptOfSpans | make_images.py:138-145 | with the corrected window, an attempt's rows are those of [0, H) within size of H - int(y_brad), and its columns those of [0, W) within size of int(x_brad) |
| Tiles.AttemptOfWindow | make_images.py:138-149 | with the corrected window, every attempt crops inside the image, at most 2 * size rows and columns, and is named after the truncated catalog pixel and 2 * size; along an axis whose window does not end before the axis starts, its span is the slice as written |
| Tiles.TryTile | make_images.py:141-149 | the tile name uses the catalog pixel; with the corrected window, the rows are those of [0, H) within size of H - y and the columns those of [0, W) within size of x, the rows equal the slice as written when H - y + size >= 0, and the columns when x + size >= 0; saved is the encoder's verdict |
| Tiles.RecordTiles | make_images.py:140-154 | the inner loop makes one attempt per size, in list order, and counts the ones saved |
| Tiles.MakeImages | make_images.py:132-154 | one attempt per (record, size), records outer and sizes inner; a failed save does not stop the loop; the counter counts the saved tiles and is at most the number of attempts |
| Tiles.SavedCountBound | make_images.py:150 | no more tiles are counted than were attempted |
| Manifest.Rows | make_images.py:172-179 | there is one row per (record, size) pair |
| Manifest.RowsAt | make_images.py:172-179 | row k of a list of rows numbered from `first` has id first + k and holds pair k |
| Manifest.RowsAppend | make_images.py:179-180 | rows for consecutive pair lists continue the numbering |
| Manifest.MetadataLayout | make_images.py:172-179 | the row for record i and size j sits at k = i * \|sizes\| + j; it has id first + k, edge 2 * sizes[j], and the record's `tot_id`, `chip`, `x_brad`, `y_brad`, `ra`, `dec`, `x_mos` and `y_mos` |
| Manifest.Opening | make_images.py:169-171 | the header is written exactly when the incoming counter is 1 |
| Manifest.MetadataStep | make_images.py:172-179 | one more record appends its rows, numbered on from the rows before it |
| Manifest.RecordRows | make_images.py:173-179 | the inner loop writes one row per size, numbered from the counter, which advances by \|sizes\| |
| Manifest.MakeMetadata | make_images.py:157-180 | what is appended is the header when the counter is 1, then the rows record by record and size by size with ids counter, counter + 1, ...; the returned counter is counter + \|records\| * \|sizes\| |
| Pipeline.ProcessField | make_images.py:223-234 | one field pass: select, filter, transform in place, tile, and extend the manifest, yielding one FieldStep |
| Pipeline.FieldLoop | make_images.py:213-234 | the loop over fields from 1 yields the run state of RunUpTo, stopping at the first field whose image cannot be opened |
| Pipeline.MakeImagesMain | make_images.py:205-234 | the whole run is RunUpTo over fields 1 to 7, starting from counter 1 |
| Pipeline.RunExtends | make_images.py:213-234 | a run only appends: the manifest and the tiles after fields 1..m begin those after fields 1..n for m <= n, and the counter never goes back |
| Pipeline.StepDataRows | make_images.py:233-234 | one field pass appends to the data rows exactly that field's rows, numbered on from the counter |
| Pipeline.AdvanceCounter | make_images.py:233-234 | taking up a field keeps the counter one past the number of data rows |
| Pipeline.AbortedStays | make_images.py:232 | after a missing field image, later fields change nothing |
| Pipeline.RunAborted | make_images.py:218-232 | the run has stopped after field n exactly when one of the fields 1..n has no image |
| Pipeline.RunCounter | make_images.py:213-234 | the counter after any number of fields is one past the number of manifest rows written |
| Pipeline.RunTiles | make_images.py:213-234 | a run makes one tile attempt per manifest row, saved or not; for every k, row k is the row of the k-th (record, size) pair of the fields reached, and attempt k is that field's attempt, with the corrected window, for the same record and size, where the record has `chip` equal to a field f among 1..n whose image exists and `flag` below 19.5 |
| Pipeline.TilesUpToAt | make_images.py:218-234 | over fields 1..m that all have an image, attempt j is the tile, with the corrected window, for pair j of their records and sizes |
| Pipeline.RunRows | make_images.py:218-234 | the manifest rows of a run are the rows of the transformed survivors of the fields reached, field by field, record by record and size by size, numbered from 1 without reset |
| Pipeline.RunIdsConsecutive | make_images.py:213-234 | the manifest row ids of a run are 1, 2, ..., N in order, and the final counter is N + 1 |
| Pipeline.RunRowsArePointSources | make_images.py:223-225 | every manifest row comes from a record of fields 1..n with `flag < 19.5`, and carries its `tot_id`, `chip` and corrected coordinates |
| Pipeline.AllPreparedMembers | make_images.py:218-227 | the records tiled up to field m are point sources with `chip` in 1..m |
| Pipeline.AllPreparedPrefix | make_images.py:218 | the records of the first m fields come first among those of the first n |
| Pipeline.StepHeadersFirst | make_images.py:169-171 | a field pass adds a header only before any data row |
| Pipeline.RunHeadersFirst | make_images.py:213-234 | every header line of a run's manifest comes before every data row |
| Pipeline.HeaderRepeats | make_images.py:169-171 | when field 1 contributes no row and field 2's image exists, the header is written twice |

## Left out

- The YAML settings and module-level globals (make_images.py:31-45) are left out. The size list is the parameter `sizes`, and paths are not modelled.
- Logging (make_images.py:48-69, 197, 222-231) and console output are left out because they have no effect on the results. This includes the progress message every 100 tiles and the `ValueError` report (make_images.py:151-154).
- `clean_up` (make_images.py:76-88) is left out. It deletes earlier outputs from the file system.
- `get_coords` (make_images.py:120-129) is left out because CSV parsing happens in NumPy. The catalog enters as a parsed sequence of records.
- The imaging library is left out: `Image.open`, `Image.fromarray`, the `uint8` cast and JPEG encoding.
  - A field image is given by its shape, or is absent, which ends the run.
  - Encoding and saving a tile is the oracle `encode`.
  - Pixel contents and the bytes written are not modelled.
- Exceptions other than `ValueError` during a save (an `IOError` on a full disk, say) are left out. They end the run in the source, but the model gives the encoder only the two outcomes.
- The file system is left out. The manifest is the sequence of lines appended and the tiles are the sequence of attempts. That files are overwritten, and that the manifest is appended to across runs, is not modelled.
- Coordinates.F1CorrectionMonotoneX is stated over exact reals, so it does not model float64 rounding of the field-1 correction. NaN values in the catalog are not modelled.
- Coordinates.F1CorrectionMonotoneY is stated over exact reals for the same reason.
- Coordinates.F1Delta and Coordinates.Shifted are stated over exact reals for the same reason.
- Coordinates.Shifted states field 1's new coordinates only through `F1Delta`, the closed form of the fitted relation. It proves no numeric property of the calibration beyond `F1CorrectionMonotoneX` and `F1CorrectionMonotoneY`.
- Tiles.TryTile crops with the corrected window `Crop`. It agrees with the slice as written along each axis whose window does not end before the axis starts; the wrap-around beyond that is not modelled here (see Findings).
- Tiles.AttemptOfWindow describes the corrected window, for the same reason as `TryTile`. It equates an axis with the slice as written only where the window does not end before the axis starts.
- Tiles.AttemptOfSpans describes the corrected window, for the same reason as `TryTile`.
- Tiles.AttemptOf crops with the corrected window, for the same reason as `TryTile`.
- Tiles.MakeImages crops with the corrected window `Crop` rather than the window as written. The two agree whenever the center is no more than `size` before the start of the axis (`CropAsWrittenAgrees`). The difference is under Findings.
- Pipeline.RunUpTo is the specification of the run, so it is kept as a function over the map of field images. Closing the image array after each field is not modelled.

## Findings

| source | as written | input that shows it | evidently intended | confidence | as-written member | corrected member |
|---|---|---|---|---|---|---|
| make_images.py:143-145 | the stop bound `min(numpy_x + size, data.shape[0])` is not kept at or above 0. NumPy reads a negative stop from the end of the axis, so a source more than `size` beyond the image edge crops most of the image | image height 1000, array row -10 (catalog y = 1010), size 5: the rows are 0..994, 995 rows instead of none | a crop holding only the indices of the axis within `size` of the center: empty here, and never longer than 2 * size | high; not executed | Tiles.CropAsWritten, Tiles.CropAsWrittenWraps | Tiles.Crop, Tiles.CropWindow, Tiles.CropLength |
