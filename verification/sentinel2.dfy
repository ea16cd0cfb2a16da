/** Cloud-masked NDVI from Sentinel-2 L2A bands (src/sentinel2_processing.py).

    Pixel values of the index grid are `Option<real>`: `None` is NaN.
    Arithmetic is over `real`; the float32 representation is not modelled. */
module Sentinel2Processing {
  import opened Results
  import opened Grids
  import opened Paths

  /** The constant added to the NDVI denominator. */
  const Eps: real := 0.000001

  /** Scene-classification codes treated as cloud: cloud shadow (3), cloud
      medium probability (8), cloud high probability (9), thin cirrus (10). */
  const CloudClasses: set<int> := {3, 8, 9, 10}

  /** Name of the single output raster of the Sentinel-2 step. */
  const NdviFileName: string := "sentinel2_ndvi_cloudmasked.tif"

  /** A band sample: the L2A reflectance bands hold unsigned digital numbers. */
  type Sample = x: real | 0.0 <= x

  /** A value the resampled class grid can hold: it is a uint8 array. */
  type Byte = x: int | 0 <= x < 256

  /** One pixel of the index grid; `None` is NaN. */
  type Pixel = Option<real>

  /** `calculate_ndvi` for one pixel. */
  function Ndvi(nir: real, red: real): (r: real)
    requires nir + red + Eps != 0.0
    ensures r * (nir + red + Eps) == nir - red
    ensures nir + red + Eps > 0.0 ==> (r > 0.0 <==> nir > red) && (r == 0.0 <==> nir == red)
  {
    (nir - red) / (nir + red + Eps)
  }

  /** Identical bands give an index of exactly 0. */
  lemma NdviOfEqualBands(x: real)
    requires x + x + Eps != 0.0
    ensures Ndvi(x, x) == 0.0
  {
  }

  /** Swapping the bands negates the index exactly: the denominator is
      symmetric in the two bands, so the ε shifts both results alike. */
  lemma NdviAntisymmetric(nir: real, red: real)
    requires nir + red + Eps != 0.0
    ensures Ndvi(nir, red) == -Ndvi(red, nir)
  {
    assert red + nir + Eps == nir + red + Eps;
  }

  /** For non-negative bands the index lies strictly between -1 and 1. */
  lemma NdviBounded(nir: Sample, red: Sample)
    ensures -1.0 < Ndvi(nir, red) < 1.0
  {
    var d := nir + red + Eps;
    assert d > 0.0;
    assert -d < nir - red < d;
    DivBelowOne(nir - red, d);
    DivBelowOne(red - nir, d);
    assert (red - nir) / d == -((nir - red) / d);
  }

  lemma DivBelowOne(a: real, d: real)
    requires d > 0.0 && a < d
    ensures a / d < 1.0
  {
    assert a / d * d == a;
  }

  /** Bands of 0.8 and 0.2 give an index within 1e-5 of 0.6. */
  lemma NdviExample()
    ensures 0.6 - 0.00001 < Ndvi(0.8, 0.2) <= 0.6
  {
    var d := 0.8 + 0.2 + Eps;
    assert d == 1.000001;
    assert Ndvi(0.8, 0.2) == 0.6 / d;
    assert (0.6 - 0.00001) * d < 0.6;
    assert 0.6 / d * d == 0.6;
  }

  /** `calculate_ndvi` on whole bands. Bands of different shape are a
      shape error. */
  function NdviGrid(nir: Grid<Sample>, red: Grid<Sample>): (r: Result<Grid<Pixel>>)
    ensures r.Success? <==> SameShape(nir, red)
    ensures r.Success? ==> SameShape(r.value, red)
    ensures r.Success? ==> forall i, j :: 0 <= i < |red| && 0 <= j < |red[i]| ==>
              r.value[i][j] == Some(Ndvi(nir[i][j], red[i][j]))
  {
    if !SameShape(nir, red) then Failure(ShapeMismatch)
    else
      Success(seq(|red|, i requires 0 <= i < |red| =>
        seq(|red[i]|, j requires 0 <= j < |red[i]| => Some(Ndvi(nir[i][j], red[i][j])))))
  }

  predicate IsCloudClass(code: int)
  {
    code in CloudClasses
  }

  /** `generate_cloud_mask`: marks every cell whose class is a cloud class. */
  function GenerateCloudMask(scl: Grid<int>): (m: Grid<bool>)
    ensures SameShape(m, scl)
    ensures forall i, j :: 0 <= i < |scl| && 0 <= j < |scl[i]| ==> (m[i][j] <==> IsCloudClass(scl[i][j]))
  {
    seq(|scl|, i requires 0 <= i < |scl| =>
      seq(|scl[i]|, j requires 0 <= j < |scl[i]| => IsCloudClass(scl[i][j])))
  }

  /** The mask tests exactly the four cloud codes: other classes, such as
      "no data" (0) and "snow or ice" (11), are never masked. */
  lemma CloudClassesExactly(code: int)
    ensures IsCloudClass(code) <==> code == 3 || code == 8 || code == 9 || code == 10
    ensures !IsCloudClass(0) && !IsCloudClass(11)
  {
  }

  /** The class the resampled grid holds at a cell: the value the
      reprojection wrote there, or the initial 0 when it wrote nothing. */
  function CellClass(reprojected: (nat, nat) -> Option<Byte>, i: nat, j: nat): Byte
  {
    match reprojected(i, j)
    case Some(v) => v
    case None => 0
  }

  /** `resample_scl_to_match`: a `height` by `width` zero-filled uint8 grid
      into which the nearest-neighbour reprojection writes. The
      reprojection is given as the value it writes at each destination
      cell, or `None` where it writes nothing. */
  function ResampleSclToMatch(height: nat, width: nat, reprojected: (nat, nat) -> Option<Byte>): (r: Grid<int>)
    ensures HasShape(r, height, width)
    ensures forall i, j :: 0 <= i < height && 0 <= j < width ==> 0 <= r[i][j] < 256
    ensures forall i, j :: 0 <= i < height && 0 <= j < width && reprojected(i, j).None? ==> r[i][j] == 0
    ensures forall i, j :: 0 <= i < height && 0 <= j < width && reprojected(i, j).Some? ==>
              r[i][j] == reprojected(i, j).value
  {
    seq(height, i requires 0 <= i < height =>
      seq(width, j requires 0 <= j < width => CellClass(reprojected, i, j)))
  }

  /** A cell the reprojection did not write keeps the fill value 0, which
      is not a cloud class, so it is never masked. */
  lemma UnwrittenCellNeverMasked(height: nat, width: nat, reprojected: (nat, nat) -> Option<Byte>, i: nat, j: nat)
    requires i < height && j < width
    requires reprojected(i, j).None?
    ensures !GenerateCloudMask(ResampleSclToMatch(height, width, reprojected))[i][j]
  {
  }

  /** `index[mask] = nan`: masked pixels become NaN, others are kept. A mask
      whose shape differs from the grid's is an indexing error. */
  function ApplyCloudMask(index: Grid<Pixel>, mask: Grid<bool>): (r: Result<Grid<Pixel>>)
    ensures r.Success? <==> SameShape(index, mask)
    ensures r.Success? ==> SameShape(r.value, index)
    ensures r.Success? ==> forall i, j :: 0 <= i < |index| && 0 <= j < |index[i]| ==>
              (mask[i][j] ==> r.value[i][j] == None) && (!mask[i][j] ==> r.value[i][j] == index[i][j])
  {
    if !SameShape(index, mask) then Failure(ShapeMismatch)
    else
      Success(seq(|index|, i requires 0 <= i < |index| =>
        seq(|index[i]|, j requires 0 <= j < |index[i]| => if mask[i][j] then None else index[i][j])))
  }

  /** Masking twice with the same mask is masking once. */
  lemma ApplyCloudMaskIdempotent(index: Grid<Pixel>, mask: Grid<bool>)
    requires SameShape(index, mask)
    ensures ApplyCloudMask(ApplyCloudMask(index, mask).value, mask) == ApplyCloudMask(index, mask)
  {
    var once := ApplyCloudMask(index, mask).value;
    var twice := ApplyCloudMask(once, mask).value;
    forall i | 0 <= i < |once| ensures twice[i] == once[i] {
      assert |twice[i]| == |once[i]|;
      forall j | 0 <= j < |once[i]| ensures twice[i][j] == once[i][j] {
        if mask[i][j] {
          assert once[i][j] == None;
        }
      }
    }
    assert twice == once;
  }

  /** `os.path.join(output_dir, "sentinel2_ndvi_cloudmasked.tif")`. */
  function NdviOutputPath(outputDir: string): (path: string)
    ensures Basename(path) == NdviFileName
    ensures Strings.IsPrefix(outputDir, path)
    ensures |outputDir| > 0 && outputDir[|outputDir| - 1] != '/' ==> path == outputDir + "/" + NdviFileName
    ensures |outputDir| == 0 || outputDir[|outputDir| - 1] == '/' ==> path == outputDir + NdviFileName
  {
    assert NdviFileName[0] == 's';
    assert !Strings.IsPrefix("/", NdviFileName) by {
      assert NdviFileName[..1][0] == 's';
    }
    assert |outputDir| > 0 && outputDir[|outputDir| - 1] != '/' ==>
             Join(outputDir, NdviFileName) == outputDir + "/" + NdviFileName by {
      if |outputDir| > 0 && outputDir[|outputDir| - 1] != '/' {
        JoinInsertsSeparator(outputDir, NdviFileName);
      }
    }
    BasenameOfJoin(outputDir, NdviFileName);
    JoinKeepsDirectory(outputDir, NdviFileName);
    Join(outputDir, NdviFileName)
  }

  /** The file-system side of the Sentinel-2 step, which the model does not
      look inside: reading a band (`None` when unreadable), the
      nearest-neighbour reprojection of the class raster at the first path
      onto the pixel grid of the raster at the second path (`None` when it
      raises; otherwise the value written at each destination cell, `None`
      where nothing is written), and writing the result (`false` when the
      write fails). */
  datatype S2Io = S2Io(
    readBand: string -> Option<Grid<Sample>>,
    reproject: (string, string) -> Option<(nat, nat) -> Option<Byte>>,
    save: (string, Grid<Pixel>) -> bool)

  datatype S2Output = S2Output(path: string, ndvi: Grid<Pixel>)

  /** The index value the Sentinel-2 step promises at one pixel: NaN under
      a cloud class, the NDVI of the two bands elsewhere. */
  function MaskedNdviAt(nir: Grid<Sample>, red: Grid<Sample>, classOf: (nat, nat) -> Option<Byte>, i: nat, j: nat): Pixel
    requires i < |red| && j < |red[i]| && SameShape(nir, red)
  {
    if IsCloudClass(CellClass(classOf, i, j)) then None else Some(Ndvi(nir[i][j], red[i][j]))
  }

  /** The computing part of `process_sentinel2`: resample the classes onto
      the red band's grid, compute the index and mask cloud pixels. It
      fails when the bands differ in shape, or when the red band is not a
      proper 2-D array (its mask would not match it). */
  function CloudMaskedNdvi(nir: Grid<Sample>, red: Grid<Sample>, classOf: (nat, nat) -> Option<Byte>): (r: Result<Grid<Pixel>>)
    ensures r.Success? <==> SameShape(nir, red) && IsRectangular(red)
    ensures r.Success? ==> HasShape(r.value, |red|, Width(red))
    ensures r.Success? ==> forall i, j :: 0 <= i < |red| && 0 <= j < |red[i]| ==>
              r.value[i][j] == MaskedNdviAt(nir, red, classOf, i, j)
  {
    var classes := ResampleSclToMatch(|red|, Width(red), classOf);
    var mask := GenerateCloudMask(classes);
    match NdviGrid(nir, red)
    case Failure(e) => Failure(e)
    case Success(ndvi) =>
      assert SameShape(ndvi, mask) <==> IsRectangular(red) by {
        if |red| > 0 && SameShape(ndvi, mask) {
          assert forall i :: 0 <= i < |red| ==> |red[i]| == |ndvi[i]| == |mask[i]| == Width(red);
        }
      }
      ApplyCloudMask(ndvi, mask)
  }

  /** `process_sentinel2`: reads red, near-infrared and class bands in that
      order, reprojects the classes onto the red band's grid, computes the
      cloud-masked index there and writes it to the fixed file name under
      `outputDir`. Each failure ends the step with the first error met. */
  function ProcessSentinel2(b04Path: string, b08Path: string, sclPath: string, outputDir: string, io: S2Io): (r: Result<S2Output>)
    ensures io.readBand(b04Path).None? ==> r == Failure(ReadError(b04Path))
    ensures io.readBand(b04Path).Some? && io.readBand(b08Path).None? ==> r == Failure(ReadError(b08Path))
    ensures io.readBand(b04Path).Some? && io.readBand(b08Path).Some? && io.readBand(sclPath).None? ==>
              r == Failure(ReadError(sclPath))
    ensures io.readBand(b04Path).Some? && io.readBand(b08Path).Some? && io.readBand(sclPath).Some?
            && io.reproject(sclPath, b04Path).None? ==>
              r == Failure(ReprojectError(sclPath))
    ensures io.readBand(b04Path).Some? && io.readBand(b08Path).Some? && io.readBand(sclPath).Some?
            && io.reproject(sclPath, b04Path).Some? ==>
              var red := io.readBand(b04Path).value;
              var nir := io.readBand(b08Path).value;
              if SameShape(nir, red) && IsRectangular(red)
              then
                var saved := io.save(NdviOutputPath(outputDir), CloudMaskedNdvi(nir, red, io.reproject(sclPath, b04Path).value).value);
                (saved ==> r.Success?) && (!saved ==> r == Failure(WriteError(NdviOutputPath(outputDir))))
              else r == Failure(ShapeMismatch)
    ensures r.Success? ==>
              && io.readBand(b04Path).Some? && io.readBand(b08Path).Some? && io.readBand(sclPath).Some?
              && io.reproject(sclPath, b04Path).Some?
              && io.save(r.value.path, r.value.ndvi)
    ensures r.Success? ==>
              var red := io.readBand(b04Path).value;
              var nir := io.readBand(b08Path).value;
              && SameShape(nir, red)
              && r.value.path == NdviOutputPath(outputDir)
              && HasShape(r.value.ndvi, |red|, Width(red))
              && forall i, j :: 0 <= i < |red| && 0 <= j < |red[i]| ==>
                   r.value.ndvi[i][j] == MaskedNdviAt(nir, red, io.reproject(sclPath, b04Path).value, i, j)
  {
    match io.readBand(b04Path)
    case None => Failure(ReadError(b04Path))
    case Some(red) =>
      match io.readBand(b08Path)
      case None => Failure(ReadError(b08Path))
      case Some(nir) =>
        match io.readBand(sclPath)
        case None => Failure(ReadError(sclPath))
        case Some(_) =>
          match io.reproject(sclPath, b04Path)
          case None => Failure(ReprojectError(sclPath))
          case Some(classOf) =>
            match CloudMaskedNdvi(nir, red, classOf)
            case Failure(e) => Failure(e)
            case Success(masked) =>
              var path := NdviOutputPath(outputDir);
              if io.save(path, masked) then Success(S2Output(path, masked))
              else Failure(WriteError(path))
  }
}
