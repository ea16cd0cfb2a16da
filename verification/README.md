# Sentinel image-analysis pipeline: a Dafny model of its bookkeeping

The pipeline takes Sentinel-1 radar scenes and Sentinel-2 optical scenes from
`data/raw`, speckle-filters the VV radar scenes and measures their texture,
and computes a cloud-masked NDVI raster from the Sentinel-2 red (B04),
near-infrared (B08) and scene-classification (SCL) bands. The numerical work
is delegated to SciPy, scikit-image and rasterio; this project models the
logic the repository itself owns, and proves what it promises:

- **Ingestion** (`src/ingestion.py`): the case-insensitive raster-extension
  filter over a directory walk, the substring tests that sort paths into
  VV/VH and B04/B08/SCL lists, and the fixed-key result dictionaries.
  Every list is the order-preserving selection of the discovered paths that
  pass its test (`Selects`), which is shown to be the one and only such
  subsequence (`Seqs.FilterUnique`).
- **Cloud masking** (`src/sentinel2_processing.py`): NDVI over `real`, the
  mask of scene-classification codes {3, 8, 9, 10}, the zero-filled
  resampled class grid of the red band's shape, the `index[mask] = nan`
  assignment (NaN is `None`), and the whole `process_sentinel2` step with
  its read, shape and write errors.
- **Batch driver** (`main.py`): one record per VV file in order, failures
  recorded as `None` metrics, the `str.replace` output name (shown equal to
  a split on ".tif" joined with "_lee_filtered.tif"), the top-left
  2000 × 2000 crop, the Sentinel-2 gate, the FAILED/metrics summary, and
  `main` as a method over the ingestion inputs.

Files: `results.dfy` (Option, Result, error kinds), `seqs.dfy` (filter,
count, subsequence), `strings.dfy` (lower-casing, substring test, replace,
split, join), `paths.dfy` (`os.path.join`, `os.path.basename`), `grids.dfy`
(2-D grids and the crop), `ingestion.dfy`, `sentinel2.dfy`, `pipeline.dfy`.

Inputs the model takes instead of performing I/O: the `(directory, file
name)` pairs an `os.walk` visits, and whether each sensor sub-directory
exists; band reading, reprojection and raster writing for Sentinel-2
(`S2Io`); and reading, speckle filtering, saving and texture computation for
Sentinel-1 (`SarStages`). Each may fail except the speckle filter; a
failing reprojection, which nothing catches, ends the Sentinel-2 step and the
run with a reprojection error.

The code has no guard for a flat image in the speckle filter or for a zero
intensity range in the texture step (both left out below); the resampled
class grid is filled with 0; masked pixels become NaN.

## Model

| member | source | states |
|---|---|---|
| Seqs.Filter | src/ingestion.py:43-45 | A list comprehension keeps exactly the elements passing the test, as a subsequence of its input, as many as pass. |
| Seqs.FilterUnique | src/ingestion.py:28-29 | Any subsequence made only of passing elements and missing none of them is the comprehension's result. |
| Seqs.FilterAppend | src/ingestion.py:14-17 | Appending an element to the input appends it to the selection exactly when it passes. |
| Strings.Lower | src/ingestion.py:16 | Lower-casing keeps the length, maps each ASCII capital to its small letter (code + 32) and leaves every other character as it is, so no capital remains. |
| Strings.Contains | src/ingestion.py:28 | The substring test `sub in s` holds exactly when `sub` occurs at some index of `s`. |
| Strings.Replace | main.py:36 | A string without the pattern is unchanged, and the result holds only characters of the input or of the replacement. |
| Strings.LowerIdempotent | src/ingestion.py:16 | Lower-casing an already lower-cased string changes nothing. |
| Strings.ReplaceIsSplitJoin | main.py:36 | `s.replace(p, r)` equals `r.join(s.split(p))`: every left-to-right occurrence is replaced. |
| Strings.SplitPiecesFree | main.py:36 | No piece between replaced occurrences still contains the pattern. |
| Strings.SplitJoinRoundTrip | main.py:36 | Joining the pieces of a split with the separator restores the string. |
| Paths.Basename | main.py:21 | The basename is the longest slash-free suffix of the path. |
| Paths.BasenameOfJoin | src/ingestion.py:17 | The basename of a directory joined with a file name is that file name. |
| Paths.Join | src/ingestion.py:17 | An absolute second part replaces the first; otherwise the parts are concatenated, with one "/" between them exactly when the first is non-empty and does not already end in "/". |
| Paths.JoinInsertsSeparator | src/ingestion.py:17 | Joining a relative name onto a directory without a trailing slash inserts exactly one "/". |
| Ingestion.DiscoverRasters | src/ingestion.py:8-19 | A path is discovered iff it joins a walked directory and a file name with a raster extension; one path per such file. |
| Ingestion.HasRasterExtension | src/ingestion.py:5-16 | A name is kept iff its lower-cased form ends with ".tif", ".tiff" or ".jp2"; a kept name has at least four characters. |
| Ingestion.DiscoverRastersAppend | src/ingestion.py:12-19 | An empty walk discovers nothing; one more walked file appends its joined path at the end iff its name has a raster extension, so paths come in walk order. |
| Ingestion.RasterExtensionIgnoresCase | src/ingestion.py:16 | Names equal after lower-casing are both kept or both dropped. |
| Ingestion.RasterExtensionExamples | src/ingestion.py:5-16 | "X.TIF", "scene.Tiff" and a ".jp2" name are kept. |
| Ingestion.SidecarFileNotRaster | src/ingestion.py:16 | "x.tif.aux.xml" is not kept: the test is on the ending. |
| Ingestion.DiscoveredBasenamesAreRasters | src/ingestion.py:14-17 | Every discovered path's basename carries a raster extension. |
| Ingestion.IsVv | src/ingestion.py:28 | A path is VV iff its lower-cased form has "grd" at some position and "vv" at some position. |
| Ingestion.IsVh | src/ingestion.py:29 | A path is VH iff its lower-cased form has "grd" at some position and "vh" at some position. |
| Ingestion.IsB04 | src/ingestion.py:43 | A path is a red band iff its lower-cased form has "_b04_" at some position. |
| Ingestion.IsB08 | src/ingestion.py:44 | A path is a near-infrared band iff its lower-cased form has "_b08_" at some position. |
| Ingestion.IsScl | src/ingestion.py:45 | A path is a class band iff its lower-cased form has "_scl_" at some position. |
| Ingestion.SelectsIsFilter | src/ingestion.py:28-29 | A bucket list meets the selection characterisation iff it is the comprehension over the discovered paths. |
| Ingestion.SelectsMembership | src/ingestion.py:43-45 | A path is in a bucket iff it was discovered and passes that bucket's test. |
| Ingestion.IngestSentinel1Grd | src/ingestion.py:22-34 | Exactly the keys VV and VH; each list is the in-order selection of discovered paths naming "grd" and the polarisation. |
| Ingestion.IngestSentinel2L2a | src/ingestion.py:37-51 | Exactly the keys B04, B08 and SCL; each list is the in-order selection of discovered paths containing "_b04_", "_b08_" or "_scl_". |
| Ingestion.IngestPipeline | src/ingestion.py:54-78 | Always exactly the keys sentinel1 and sentinel2; a missing sub-directory yields an empty dictionary. |
| Ingestion.PolarisationBucketsOverlap | src/ingestion.py:28-29 | A path naming both "vv" and "vh" is in both lists. |
| Ingestion.DirectoryNameDecidesBucket | src/ingestion.py:28 | A directory name alone can place a file in the VV list. |
| Grids.CropTopLeft | main.py:29 | The crop has min(rows, 2000) rows of min(row length, 2000) cells, each equal to the source cell at the same index. |
| Grids.CropShape | main.py:29 | An h × w array crops to min(h, n) × min(w, n). |
| Grids.CropIdempotent | main.py:29 | Cropping a cropped array changes nothing. |
| Grids.CropOfSmallGrid | main.py:29 | An array within the bound on both axes is returned whole. |
| Sentinel2Processing.Ndvi | src/sentinel2_processing.py:16-18 | The index times the ε-shifted band sum is the band difference; with a positive denominator it is positive iff the near-infrared exceeds the red and zero iff they are equal. |
| Sentinel2Processing.NdviOfEqualBands | src/sentinel2_processing.py:16-18 | Identical bands give an index of exactly 0. |
| Sentinel2Processing.NdviAntisymmetric | src/sentinel2_processing.py:18 | Swapping the bands negates the index exactly. |
| Sentinel2Processing.NdviBounded | src/sentinel2_processing.py:18 | For non-negative bands the index lies strictly between -1 and 1. |
| Sentinel2Processing.NdviExample | src/sentinel2_processing.py:18 | Bands 0.8 and 0.2 give an index within 1e-5 of 0.6. |
| Sentinel2Processing.NdviGrid | src/sentinel2_processing.py:85 | Bands of equal shape give a grid of their shape holding the NDVI of each pixel pair; unequal shapes are a shape error. |
| Sentinel2Processing.GenerateCloudMask | src/sentinel2_processing.py:21-24 | The mask has the class grid's shape and is true exactly at cloud-class codes. |
| Sentinel2Processing.CloudClassesExactly | src/sentinel2_processing.py:23 | The cloud classes are exactly 3, 8, 9 and 10; 0 and 11 are never masked. |
| Sentinel2Processing.ResampleSclToMatch | src/sentinel2_processing.py:27-48 | The result is target height × width whatever the source, every cell a byte, written cells hold the reprojected value and others 0. |
| Sentinel2Processing.UnwrittenCellNeverMasked | src/sentinel2_processing.py:33-36 | A cell the reprojection does not write is never masked. |
| Sentinel2Processing.ApplyCloudMask | src/sentinel2_processing.py:88 | Masked pixels become NaN and every other pixel is unchanged; a mask of another shape is an error. |
| Sentinel2Processing.ApplyCloudMaskIdempotent | src/sentinel2_processing.py:88 | Applying the same mask twice equals applying it once. |
| Sentinel2Processing.NdviOutputPath | src/sentinel2_processing.py:90 | The output path lies under the output directory and its basename is "sentinel2_ndvi_cloudmasked.tif"; for a directory without a trailing "/" it is the directory, one "/" and that name, and for an empty or "/"-terminated directory it is the directory followed directly by that name. |
| Sentinel2Processing.CloudMaskedNdvi | src/sentinel2_processing.py:81-88 | On the red band's grid, each pixel is NaN under a cloud class (0 where unwritten) and the NDVI elsewhere; fails iff shapes disagree. |
| Sentinel2Processing.ProcessSentinel2 | src/sentinel2_processing.py:68-94 | Reads in B04, B08, SCL order and reports the first unreadable path; with all bands read, a failing reprojection of the class band is a reprojection error for its path, taking precedence over a shape error; with the reprojection done and shapes agreeing it succeeds iff saving the masked NDVI at the fixed output path succeeds, a failed save being a write error for that path; other shapes are a shape error; on success the saved grid is the masked NDVI. |
| Pipeline.FilteredName | main.py:36 | A name without ".tif" (such as "*.jp2") is unchanged; the new name holds only characters of the old one or of "_lee_filtered.tif", so a slash-free name stays slash-free. |
| Pipeline.FilteredNameRewritesEveryOccurrence | main.py:34-37 | The output name is the split on ".tif" joined with "_lee_filtered.tif", and no piece keeps a ".tif". |
| Pipeline.FilteredNameOfTiff | main.py:36 | A one-character name before ".tiff" (such as "x.tiff") becomes that character followed by "_lee_filtered.tiff": ".tiff" contains ".tif". |
| Pipeline.FilteredNameOfDoubleTif | main.py:36 | A one-character name before a doubled ".tif.tif", whatever the character, is rewritten at both occurrences. |
| Pipeline.SarOutputPath | main.py:34-37 | For a slash-free file name the output path is "data/processed/sentinel1/" followed by the rewritten name, which is also its basename. |
| Pipeline.ProcessSarFile | main.py:20-57 | The record's file is the path's basename; metrics are present iff read, save and texture all succeed, both or neither, equal to the texture result of the filtered 2000 × 2000 crop. |
| Pipeline.ProcessSentinel1 | main.py:13-59 | One record per input path in input order, each the per-file outcome, so one failure does not affect the others. |
| Pipeline.Summary | main.py:96-104 | Fails only on a record with contrast but no homogeneity; otherwise one line per record, FAILED exactly when contrast is None. |
| Pipeline.SummaryOfPairedRecords | main.py:96-104 | Records whose metrics are both present or both absent always summarise. |
| Pipeline.Sentinel2Inputs | main.py:79-91 | The step runs iff B04, B08 and SCL are all non-empty, missing keys as empty, on the first path of each. |
| Pipeline.NoSentinel2DirectorySkipsStep | main.py:79-84 | Without a sentinel2 directory the step never runs. |
| Pipeline.Sentinel2UsesEarliestRedBand | main.py:86-89 | The red band used is the earliest discovered path containing "_b04_". |
| Pipeline.VvFiles | main.py:68-69 | The VV list of the sentinel1 entry when both keys are present, the empty list when either is missing. |
| Pipeline.VvFilesOfIngestion | main.py:68-69 | The VV files processed are the in-order selection of discovered "grd"/"vv" paths, none without a sentinel1 directory. |
| Pipeline.RunPipeline | main.py:61-106 | The run fails iff the gated Sentinel-2 step runs and fails; a failed run reports that step's own error; otherwise it reports one record per VV file, a summary that is the summary of those records (FAILED lines and metric values alike), and the NDVI path iff the step ran. |

## Left out

- Directory walking, band reading, raster writing, `ensure_dir` / `os.makedirs` and logging are I/O; the walk and directory existence are inputs, and reading, writing and reprojection are opaque functions.
- `apply_lee_filter` and `compute_glcm_texture` (src/sentinel1_processing.py) are SciPy and scikit-image numerics; they are opaque stages. The code has no zero-denominator guard in either, so none is modelled.
- The nearest-neighbour reprojection (src/sentinel2_processing.py:38-46) is a rasterio call; it is an opaque function that either fails or gives the value written at each destination cell, and only the zero-filled target grid around it is modelled.
- Float32 rounding and the printed `:.3f` formatting of metrics are not modelled; NDVI is over `real` and a summary line carries the metric values.
- Strings.Lower: maps only ASCII letters, whereas Python's `str.lower` is Unicode-wide; the substrings the classification looks for are ASCII.
- Strings.Replace: requires a non-empty pattern; the one call site passes ".tif".
- Sentinel2Processing.Ndvi: requires a non-zero denominator, where float arithmetic would give an infinity or NaN; band samples are non-negative (`Sample`), so the step always meets it.
- Sentinel2Processing.NdviGrid: reports bands of different shape as a shape error, whereas numpy would broadcast a dimension of size 1.
- Paths.Join: models the two-argument POSIX `os.path.join` only.
