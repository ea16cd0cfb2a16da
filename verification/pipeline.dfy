/** The batch driver (main.py): per-file Sentinel-1 processing with failures
    recorded rather than raised, the Sentinel-2 gate, and the summary.

    Logging, directory creation and the numerical steps (speckle filter,
    texture metrics) are outside the model: the numerical steps are given
    as opaque stages that may fail. */
module Pipeline {
  import opened Results
  import opened Grids
  import opened Strings
  import opened Paths
  import Ingestion
  import Seqs
  import S2 = Sentinel2Processing

  const Sentinel1OutputDir: string := "data/processed/sentinel1"
  const Sentinel2OutputDir: string := "data/processed/sentinel2"

  /** Side of the top-left block of a SAR scene that is processed. */
  const CropSize: nat := 2000

  const TifPattern: string := ".tif"
  const FilteredSuffix: string := "_lee_filtered.tif"

  /** One entry of the Sentinel-1 result list; failed files carry `None`
      for both metrics. */
  datatype SarRecord = SarRecord(file: string, contrast: Option<real>, homogeneity: Option<real>)

  /** The per-file Sentinel-1 steps the model does not look inside: read
      the band (`None` on failure), speckle-filter it, save the filtered
      grid for (input path, output path) (`false` on failure), and compute
      (contrast, homogeneity) (`None` on failure). */
  datatype SarStages = SarStages(
    read: string -> Option<Grid<real>>,
    leeFilter: Grid<real> -> Grid<real>,
    save: (string, string, Grid<real>) -> bool,
    texture: Grid<real> -> Option<(real, real)>)

  /** `filename.replace(".tif", "_lee_filtered.tif")`: a name without
      ".tif" (a ".jp2" scene, say) keeps its name, and the rewrite brings
      in no character that is in neither the name nor the suffix, so a
      slash-free name stays a single path component. */
  function FilteredName(filename: string): (r: string)
    ensures !Contains(filename, TifPattern) ==> r == filename
    ensures forall c :: c in r ==> c in filename || c in FilteredSuffix
    ensures '/' !in filename ==> '/' !in r
  {
    Replace(filename, TifPattern, FilteredSuffix)
  }

  /** The rewrite is a split on ".tif" joined back with the new suffix:
      every occurrence is rewritten, and no ".tif" of the input survives
      outside the inserted suffixes. */
  lemma FilteredNameRewritesEveryOccurrence(filename: string)
    ensures FilteredName(filename) == JoinWith(Split(filename, TifPattern), FilteredSuffix)
    ensures forall k :: 0 <= k < |Split(filename, TifPattern)| ==> !Contains(Split(filename, TifPattern)[k], TifPattern)
  {
    ReplaceIsSplitJoin(filename, TifPattern, FilteredSuffix);
    SplitPiecesFree(filename, TifPattern);
  }

  /** ".tiff" contains ".tif", so the rewrite lands before the last "f":
      "x.tiff" becomes "x_lee_filtered.tiff". */
  lemma FilteredNameOfTiff(c: char)
    ensures FilteredName([c] + TifPattern + "f") == [c] + FilteredSuffix + "f"
  {
    assert [c] + TifPattern + "f" == [c] + (TifPattern + "f");
    // The pattern cannot start at `c`: the character after `c` is '.', not 't'.
    assert ([c] + (TifPattern + "f"))[1] != TifPattern[1];
    ReplaceSkipsChar(c, TifPattern + "f", TifPattern, FilteredSuffix);
    ReplaceAtPattern("f", TifPattern, FilteredSuffix);
    assert |"f"| < |TifPattern|;
  }

  /** A doubled extension is rewritten at both occurrences:
      "a.tif.tif" becomes "a_lee_filtered.tif_lee_filtered.tif". */
  lemma FilteredNameOfDoubleTif(c: char)
    ensures FilteredName([c] + TifPattern + TifPattern) == [c] + FilteredSuffix + FilteredSuffix
  {
    assert [c] + TifPattern + TifPattern == [c] + (TifPattern + (TifPattern + ""));
    // The pattern cannot start at `c`: the character after `c` is '.', not 't'.
    assert ([c] + (TifPattern + (TifPattern + "")))[1] != TifPattern[1];
    ReplaceSkipsChar(c, TifPattern + (TifPattern + ""), TifPattern, FilteredSuffix);
    ReplaceAtPattern(TifPattern + "", TifPattern, FilteredSuffix);
    ReplaceAtPattern("", TifPattern, FilteredSuffix);
    assert FilteredSuffix + "" == FilteredSuffix;
  }

  /** `os.path.join(output_dir, filename.replace(...))`: for a plain file
      name the output lands directly in the Sentinel-1 output directory
      under the rewritten name. */
  function SarOutputPath(filename: string): (r: string)
    ensures '/' !in filename ==> r == Sentinel1OutputDir + "/" + FilteredName(filename)
    ensures '/' !in filename ==> Basename(r) == FilteredName(filename)
  {
    assert Sentinel1OutputDir[|Sentinel1OutputDir| - 1] == '1';
    assert '/' !in filename ==>
             var name := FilteredName(filename);
             Join(Sentinel1OutputDir, name) == Sentinel1OutputDir + "/" + name
             && Basename(Join(Sentinel1OutputDir, name)) == name by {
      if '/' !in filename {
        var name := FilteredName(filename);
        assert |name| == 0 || name[0] != '/' by {
          if |name| > 0 { assert name[0] in name; }
        }
        JoinInsertsSeparator(Sentinel1OutputDir, name);
        BasenameOfJoin(Sentinel1OutputDir, name);
      }
    }
    Join(Sentinel1OutputDir, FilteredName(filename))
  }

  /** The body of the per-file `try` block, with every exception turned into
      a record of `None` metrics. */
  function ProcessSarFile(path: string, st: SarStages): (rec: SarRecord)
    ensures rec.file == Basename(path)
    ensures rec.contrast.None? <==> rec.homogeneity.None?
    ensures rec.contrast.Some? <==>
              && st.read(path).Some?
              && var filtered := st.leeFilter(CropTopLeft(st.read(path).value, CropSize));
                 st.save(path, SarOutputPath(Basename(path)), filtered) && st.texture(filtered).Some?
    ensures rec.contrast.Some? ==>
              var filtered := st.leeFilter(CropTopLeft(st.read(path).value, CropSize));
              (rec.contrast.value, rec.homogeneity.value) == st.texture(filtered).value
  {
    var filename := Basename(path);
    var failed := SarRecord(filename, None, None);
    match st.read(path)
    case None => failed
    case Some(sar) =>
      var filtered := st.leeFilter(CropTopLeft(sar, CropSize));
      if !st.save(path, SarOutputPath(filename), filtered) then failed
      else
        match st.texture(filtered)
        case None => failed
        case Some((contrast, homogeneity)) => SarRecord(filename, Some(contrast), Some(homogeneity))
  }

  /** In every record the two metrics are both present or both absent. */
  predicate MetricsPaired(results: seq<SarRecord>)
  {
    forall k :: 0 <= k < |results| ==> (results[k].contrast.None? <==> results[k].homogeneity.None?)
  }

  /** `process_sentinel1`: one record per input path, in input order; a
      failing file yields a `None` record and the loop carries on. */
  method ProcessSentinel1(vvFiles: seq<string>, st: SarStages) returns (results: seq<SarRecord>)
    ensures |results| == |vvFiles|
    ensures forall k :: 0 <= k < |vvFiles| ==> results[k] == ProcessSarFile(vvFiles[k], st)
    ensures forall k :: 0 <= k < |vvFiles| ==> results[k].file == Basename(vvFiles[k])
    ensures MetricsPaired(results)
  {
    results := [];
    var n := 0;
    while n < |vvFiles|
      invariant n <= |vvFiles|
      invariant |results| == n
      invariant forall k :: 0 <= k < n ==> results[k] == ProcessSarFile(vvFiles[k], st)
    {
      results := results + [ProcessSarFile(vvFiles[n], st)];
      n := n + 1;
    }
  }

  /** One line of the printed summary. */
  datatype SummaryLine = Metrics(file: string, contrast: real, homogeneity: real) | Failed(file: string)

  /** The summary loop: "FAILED" for a record without contrast, the metrics
      otherwise. Formatting a `None` homogeneity as a number raises, which
      is `FormatError` here. */
  function Summary(results: seq<SarRecord>): (r: Result<seq<SummaryLine>>)
    ensures r.Success? <==> forall k :: 0 <= k < |results| ==>
              (results[k].contrast.Some? ==> results[k].homogeneity.Some?)
    ensures r.Success? ==> |r.value| == |results|
    ensures r.Success? ==> forall k :: 0 <= k < |results| ==>
              && r.value[k].file == results[k].file
              && (r.value[k].Failed? <==> results[k].contrast.None?)
              && (r.value[k].Metrics? ==> r.value[k].contrast == results[k].contrast.value
                                          && r.value[k].homogeneity == results[k].homogeneity.value)
    decreases |results|
  {
    if |results| == 0 then Success([])
    else
      var head := results[0];
      var line :=
        if head.contrast.None? then Success(Failed(head.file))
        else if head.homogeneity.None? then Failure(FormatError)
        else Success(Metrics(head.file, head.contrast.value, head.homogeneity.value));
      match line
      case Failure(e) => Failure(e)
      case Success(l) =>
        match Summary(results[1..])
        case Failure(e) =>
          assert exists k :: 1 <= k < |results| && results[k].contrast.Some? && results[k].homogeneity.None? by {
            var k :| 0 <= k < |results[1..]| && results[1..][k].contrast.Some? && results[1..][k].homogeneity.None?;
            assert results[k + 1] == results[1..][k];
          }
          Failure(e)
        case Success(rest) =>
          assert forall k :: 1 <= k < |results| ==> results[k] == results[1..][k - 1];
          Success([l] + rest)
  }

  /** Records produced by `ProcessSentinel1` always print: the summary
      never meets a half-present pair of metrics. */
  lemma SummaryOfPairedRecords(results: seq<SarRecord>)
    requires MetricsPaired(results)
    ensures Summary(results).Success?
  {
  }

  /** `d.get(k, default)`. */
  function Get<K, V>(m: map<K, V>, k: K, default: V): V
  {
    if k in m then m[k] else default
  }

  /** The VV list `main` takes from the ingestion result, missing keys
      reading as empty. */
  function VvFiles(ingestion: map<string, map<string, seq<string>>>): (r: seq<string>)
    ensures "sentinel1" in ingestion && "VV" in ingestion["sentinel1"] ==> r == ingestion["sentinel1"]["VV"]
    ensures "sentinel1" !in ingestion ==> r == []
    ensures "sentinel1" in ingestion && "VV" !in ingestion["sentinel1"] ==> r == []
  {
    Get(Get(ingestion, "sentinel1", map[]), "VV", [])
  }

  /** The Sentinel-2 gate of `main`: the step runs only when the B04, B08 and
      SCL lists are all non-empty, and then on the first path of each. */
  function Sentinel2Inputs(ingestion: map<string, map<string, seq<string>>>): (r: Option<(string, string, string)>)
    ensures var s2 := Get(ingestion, "sentinel2", map[]);
            var b04 := Get(s2, "B04", []);
            var b08 := Get(s2, "B08", []);
            var scl := Get(s2, "SCL", []);
            && (r.Some? <==> |b04| > 0 && |b08| > 0 && |scl| > 0)
            && (r.Some? ==> r.value == (b04[0], b08[0], scl[0]))
  {
    var s2 := Get(ingestion, "sentinel2", map[]);
    var b04 := Get(s2, "B04", []);
    var b08 := Get(s2, "B08", []);
    var scl := Get(s2, "SCL", []);
    if |b04| > 0 && |b08| > 0 && |scl| > 0 then Some((b04[0], b08[0], scl[0])) else None
  }

  /** Without a sentinel2 directory the Sentinel-2 step never runs. */
  lemma NoSentinel2DirectorySkipsStep(s1Exists: bool, s1Walk: seq<Ingestion.WalkEntry>, s2Walk: seq<Ingestion.WalkEntry>)
    ensures Sentinel2Inputs(Ingestion.IngestPipeline(s1Exists, s1Walk, false, s2Walk)).None?
  {
  }

  /** With a sentinel2 directory, the red band used is the earliest
      discovered raster whose path contains "_b04_". */
  lemma Sentinel2UsesEarliestRedBand(s1Exists: bool, s1Walk: seq<Ingestion.WalkEntry>, s2Walk: seq<Ingestion.WalkEntry>)
    ensures var inputs := Sentinel2Inputs(Ingestion.IngestPipeline(s1Exists, s1Walk, true, s2Walk));
            var rasters := Ingestion.DiscoverRasters(s2Walk);
            inputs.Some? ==>
              exists k :: 0 <= k < |rasters| && rasters[k] == inputs.value.0 && Ingestion.IsB04(rasters[k])
                          && forall j :: 0 <= j < k ==> !Ingestion.IsB04(rasters[j])
  {
    var inputs := Sentinel2Inputs(Ingestion.IngestPipeline(s1Exists, s1Walk, true, s2Walk));
    if inputs.Some? {
      var rasters := Ingestion.DiscoverRasters(s2Walk);
      var s2 := Ingestion.IngestSentinel2L2a(s2Walk);
      Ingestion.SelectsIsFilter(s2["B04"], rasters, Ingestion.IsB04);
      Seqs.FilterHeadIsFirst(Ingestion.IsB04, rasters);
    }
  }

  /** The VV files `main` processes are the discovered Sentinel-1 rasters
      whose path names "grd" and "vv", in discovery order, or none at all
      without a sentinel1 directory. */
  lemma VvFilesOfIngestion(s1Exists: bool, s1Walk: seq<Ingestion.WalkEntry>, s2Exists: bool, s2Walk: seq<Ingestion.WalkEntry>)
    ensures var vv := VvFiles(Ingestion.IngestPipeline(s1Exists, s1Walk, s2Exists, s2Walk));
            && (!s1Exists ==> vv == [])
            && (s1Exists ==> Ingestion.Selects(vv, Ingestion.DiscoverRasters(s1Walk), Ingestion.IsVv))
  {
  }

  /** What one run of `main` produces. */
  datatype PipelineReport = PipelineReport(
    s1Results: seq<SarRecord>,
    s2Output: Option<string>,
    summary: seq<SummaryLine>)

  /** `main`: ingest, process the VV files, run the gated Sentinel-2 step
      (whose failure is not caught and ends the run before the summary),
      then summarise. */
  method RunPipeline(s1Exists: bool, s1Walk: seq<Ingestion.WalkEntry>,
                     s2Exists: bool, s2Walk: seq<Ingestion.WalkEntry>,
                     st: SarStages, io: S2.S2Io) returns (outcome: Result<PipelineReport>)
    ensures var ingestion := Ingestion.IngestPipeline(s1Exists, s1Walk, s2Exists, s2Walk);
            var inputs := Sentinel2Inputs(ingestion);
            outcome.Failure? <==>
              inputs.Some? && S2.ProcessSentinel2(inputs.value.0, inputs.value.1, inputs.value.2, Sentinel2OutputDir, io).Failure?
    ensures outcome.Failure? ==>
              var inputs := Sentinel2Inputs(Ingestion.IngestPipeline(s1Exists, s1Walk, s2Exists, s2Walk));
              inputs.Some? &&
              outcome.error == S2.ProcessSentinel2(inputs.value.0, inputs.value.1, inputs.value.2, Sentinel2OutputDir, io).error
    ensures outcome.Success? ==>
              var ingestion := Ingestion.IngestPipeline(s1Exists, s1Walk, s2Exists, s2Walk);
              var vv := VvFiles(ingestion);
              var report := outcome.value;
              && |report.s1Results| == |vv|
              && (forall k :: 0 <= k < |vv| ==> report.s1Results[k] == ProcessSarFile(vv[k], st))
              && Summary(report.s1Results).Success?
              && report.summary == Summary(report.s1Results).value
              && |report.summary| == |vv|
              && (forall k :: 0 <= k < |vv| ==>
                    report.summary[k].file == Basename(vv[k])
                    && (report.summary[k].Failed? <==> report.s1Results[k].contrast.None?))
              && (report.s2Output.Some? <==> Sentinel2Inputs(ingestion).Some?)
              && (report.s2Output.Some? ==> report.s2Output.value == S2.NdviOutputPath(Sentinel2OutputDir))
  {
    var ingestion := Ingestion.IngestPipeline(s1Exists, s1Walk, s2Exists, s2Walk);
    var vv := VvFiles(ingestion);
    var s1Results: seq<SarRecord>;
    if |vv| > 0 {
      s1Results := ProcessSentinel1(vv, st);
    } else {
      s1Results := [];
    }

    var s2Output: Option<string> := None;
    match Sentinel2Inputs(ingestion) {
      case Some((b04, b08, scl)) =>
        var processed := S2.ProcessSentinel2(b04, b08, scl, Sentinel2OutputDir, io);
        match processed {
          case Failure(e) =>
            return Failure(e);
          case Success(out) =>
            s2Output := Some(out.path);
        }
      case None =>
    }

    SummaryOfPairedRecords(s1Results);
    var summary := Summary(s1Results).value;
    outcome := Success(PipelineReport(s1Results, s2Output, summary));
  }
}
