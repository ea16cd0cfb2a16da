/** Discovery and classification of input rasters (src/ingestion.py).

    The directory walk itself is not modelled: a walk is given as the
    sequence of (directory, file name) pairs that `os.walk` visits, in
    visiting order, and "the sub-directory exists" is a boolean input. The
    driver starts the two walks at `data/raw/sentinel1` and
    `data/raw/sentinel2`; the directory names themselves are not modelled. */
module Ingestion {
  import opened Seqs
  import opened Strings
  import opened Paths

  /** File-name endings accepted as rasters, compared after lower-casing. */
  const RasterExtensions: seq<string> := [".tif", ".tiff", ".jp2"]

  /** One file seen by the directory walk. */
  datatype WalkEntry = WalkEntry(root: string, name: string)

  /** `name.lower().endswith(RASTER_EXTENSIONS)`: the lower-cased name ends
      with one of the three extensions. */
  predicate HasRasterExtension(name: string)
    ensures HasRasterExtension(name) <==>
              IsSuffix(".tif", Lower(name)) || IsSuffix(".tiff", Lower(name)) || IsSuffix(".jp2", Lower(name))
    ensures HasRasterExtension(name) ==> |name| >= 4
  {
    assert RasterExtensions[0] == ".tif" && RasterExtensions[1] == ".tiff" && RasterExtensions[2] == ".jp2";
    assert (exists k :: 0 <= k < |RasterExtensions| && IsSuffix(RasterExtensions[k], Lower(name))) <==>
             IsSuffix(RasterExtensions[0], Lower(name)) || IsSuffix(RasterExtensions[1], Lower(name))
             || IsSuffix(RasterExtensions[2], Lower(name));
    exists k :: 0 <= k < |RasterExtensions| && IsSuffix(RasterExtensions[k], Lower(name))
  }

  predicate IsRasterEntry(e: WalkEntry)
  {
    HasRasterExtension(e.name)
  }

  function EntryPath(e: WalkEntry): string
  {
    Join(e.root, e.name)
  }

  /** `discover_rasters` over a given walk: the joined path of every walked
      file whose name carries a raster extension, in walk order. */
  function DiscoverRasters(walk: seq<WalkEntry>): (r: seq<string>)
    ensures |r| == Count(IsRasterEntry, walk)
    ensures forall p :: p in r <==> exists e :: e in walk && IsRasterEntry(e) && p == EntryPath(e)
  {
    var kept := Filter(IsRasterEntry, walk);
    var r := Map(EntryPath, kept);
    assert forall p :: p in r <==> exists e :: e in kept && p == EntryPath(e) by {
      forall p | p in r ensures exists e :: e in kept && p == EntryPath(e) {
        var i :| 0 <= i < |r| && r[i] == p;
        assert kept[i] in kept;
      }
      forall e | e in kept ensures EntryPath(e) in r {
        var i :| 0 <= i < |kept| && kept[i] == e;
        assert r[i] == EntryPath(e);
      }
    }
    r
  }

  /** The append loop over the walk: an empty walk discovers nothing, and
      one more walked file appends its path at the end exactly when its
      name carries a raster extension, so paths come in walk order. */
  lemma DiscoverRastersAppend(walk: seq<WalkEntry>, e: WalkEntry)
    ensures DiscoverRasters([]) == []
    ensures DiscoverRasters(walk + [e]) ==
              DiscoverRasters(walk) + (if IsRasterEntry(e) then [EntryPath(e)] else [])
  {
    FilterAppend(IsRasterEntry, walk, e);
    var kept := Filter(IsRasterEntry, walk);
    var tail: seq<WalkEntry> := if IsRasterEntry(e) then [e] else [];
    assert Map(EntryPath, kept + tail) == Map(EntryPath, kept) + Map(EntryPath, tail);
  }

  /** The extension test looks only at the lower-cased name, so it ignores case. */
  lemma RasterExtensionIgnoresCase(a: string, b: string)
    requires Lower(a) == Lower(b)
    ensures HasRasterExtension(a) <==> HasRasterExtension(b)
  {
  }

  /** Upper- and mixed-case extensions are kept. */
  lemma RasterExtensionExamples()
    ensures HasRasterExtension("X.TIF")
    ensures HasRasterExtension("scene.Tiff")
    ensures HasRasterExtension("T33_B04_10m.jp2")
  {
    assert IsSuffix(RasterExtensions[0], Lower("X.TIF"));
    assert IsSuffix(RasterExtensions[1], Lower("scene.Tiff"));
    assert IsSuffix(RasterExtensions[2], Lower("T33_B04_10m.jp2"));
  }

  /** A side-car file whose name merely contains ".tif" is not a raster. */
  lemma SidecarFileNotRaster()
    ensures !HasRasterExtension("x.tif.aux.xml")
  {
    var l := Lower("x.tif.aux.xml");
    assert l[|l| - 1] == 'l';
    forall k | 0 <= k < |RasterExtensions| ensures !IsSuffix(RasterExtensions[k], l) {
      var ext := RasterExtensions[k];
      assert ext[|ext| - 1] != 'l';
      if IsSuffix(ext, l) {
        SuffixLastChar(ext, l);
      }
    }
  }

  /** When walked names are plain file names, every discovered path has a
      raster file name as its basename. */
  lemma DiscoveredBasenamesAreRasters(walk: seq<WalkEntry>)
    requires forall e :: e in walk ==> '/' !in e.name
    ensures forall p :: p in DiscoverRasters(walk) ==> HasRasterExtension(Basename(p))
  {
    forall p | p in DiscoverRasters(walk) ensures HasRasterExtension(Basename(p)) {
      var e :| e in walk && IsRasterEntry(e) && p == EntryPath(e);
      BasenameOfJoin(e.root, e.name);
    }
  }

  /** The bucket tests of the two ingestion functions: each asks whether
      the lower-cased path has the given markers at some position, so they
      read the whole path, directories included, and ignore case. */
  predicate IsVv(p: string)
    ensures IsVv(p) <==> (exists i :: OccursAt(Lower(p), "grd", i)) && (exists j :: OccursAt(Lower(p), "vv", j))
  {
    Contains(Lower(p), "grd") && Contains(Lower(p), "vv")
  }

  predicate IsVh(p: string)
    ensures IsVh(p) <==> (exists i :: OccursAt(Lower(p), "grd", i)) && (exists j :: OccursAt(Lower(p), "vh", j))
  {
    Contains(Lower(p), "grd") && Contains(Lower(p), "vh")
  }

  predicate IsB04(p: string)
    ensures IsB04(p) <==> exists i :: OccursAt(Lower(p), "_b04_", i)
  {
    Contains(Lower(p), "_b04_")
  }

  predicate IsB08(p: string)
    ensures IsB08(p) <==> exists i :: OccursAt(Lower(p), "_b08_", i)
  {
    Contains(Lower(p), "_b08_")
  }

  predicate IsScl(p: string)
    ensures IsScl(p) <==> exists i :: OccursAt(Lower(p), "_scl_", i)
  {
    Contains(Lower(p), "_scl_")
  }

  /** `t` is the order-preserving selection from `s` of the paths satisfying
      `p`: a subsequence of `s`, made only of `p`-paths, and missing none. */
  predicate Selects(t: seq<string>, s: seq<string>, p: string -> bool)
  {
    IsSubsequence(t, s) && (forall i :: 0 <= i < |t| ==> p(t[i])) && |t| == Count(p, s)
  }

  /** A selection is exactly the list comprehension `[x for x in s if p(x)]`. */
  lemma SelectsIsFilter(t: seq<string>, s: seq<string>, p: string -> bool)
    ensures Selects(t, s, p) <==> t == Filter(p, s)
  {
    if Selects(t, s, p) {
      FilterUnique(p, t, s);
    }
  }

  /** A path is selected exactly when it was discovered and passes the test. */
  lemma SelectsMembership(t: seq<string>, s: seq<string>, p: string -> bool)
    requires Selects(t, s, p)
    ensures forall x :: x in t <==> x in s && p(x)
  {
    SelectsIsFilter(t, s, p);
  }

  /** `ingest_sentinel1_grd`: VV and VH lists of the discovered rasters. */
  function IngestSentinel1Grd(walk: seq<WalkEntry>): (r: map<string, seq<string>>)
    ensures r.Keys == {"VV", "VH"}
    ensures Selects(r["VV"], DiscoverRasters(walk), IsVv)
    ensures Selects(r["VH"], DiscoverRasters(walk), IsVh)
  {
    var rasters := DiscoverRasters(walk);
    map["VV" := Filter(IsVv, rasters), "VH" := Filter(IsVh, rasters)]
  }

  /** `ingest_sentinel2_l2a`: red, near-infrared and scene-classification lists. */
  function IngestSentinel2L2a(walk: seq<WalkEntry>): (r: map<string, seq<string>>)
    ensures r.Keys == {"B04", "B08", "SCL"}
    ensures Selects(r["B04"], DiscoverRasters(walk), IsB04)
    ensures Selects(r["B08"], DiscoverRasters(walk), IsB08)
    ensures Selects(r["SCL"], DiscoverRasters(walk), IsScl)
  {
    var rasters := DiscoverRasters(walk);
    map["B04" := Filter(IsB04, rasters), "B08" := Filter(IsB08, rasters), "SCL" := Filter(IsScl, rasters)]
  }

  /** `ingest_pipeline`: both sensor keys are always present; a missing
      sub-directory contributes an empty dictionary. */
  function IngestPipeline(s1Exists: bool, s1Walk: seq<WalkEntry>,
                          s2Exists: bool, s2Walk: seq<WalkEntry>): (r: map<string, map<string, seq<string>>>)
    ensures r.Keys == {"sentinel1", "sentinel2"}
    ensures !s1Exists ==> r["sentinel1"] == map[]
    ensures !s2Exists ==> r["sentinel2"] == map[]
    ensures s1Exists ==> r["sentinel1"] == IngestSentinel1Grd(s1Walk)
    ensures s2Exists ==> r["sentinel2"] == IngestSentinel2L2a(s2Walk)
  {
    map["sentinel1" := if s1Exists then IngestSentinel1Grd(s1Walk) else map[],
        "sentinel2" := if s2Exists then IngestSentinel2L2a(s2Walk) else map[]]
  }

  /** A walk of one raster file discovers exactly that file's path. */
  lemma SingleRasterWalk(e: WalkEntry)
    requires IsRasterEntry(e)
    ensures DiscoverRasters([e]) == [EntryPath(e)]
  {
    assert Filter(IsRasterEntry, [e]) == [e];
  }

  /** Selecting from a one-path list keeps the path exactly when it passes. */
  lemma SelectFromSingle(p: string, test: string -> bool)
    ensures Filter(test, [p]) == if test(p) then [p] else []
  {
  }

  /** A walk of one raster file in a directory without a trailing "/". */
  lemma DiscoverSingleFile(root: string, name: string, path: string)
    requires IsRasterEntry(WalkEntry(root, name))
    requires |root| > 0 && root[|root| - 1] != '/'
    requires |name| > 0 && name[0] != '/'
    requires path == root + "/" + name
    ensures DiscoverRasters([WalkEntry(root, name)]) == [path]
  {
    JoinInsertsSeparator(root, name);
    SingleRasterWalk(WalkEntry(root, name));
  }

  lemma OverlapPathTests()
    ensures IsVv("grd/vv_vh.tif") && IsVh("grd/vv_vh.tif")
  {
    var p := "grd/vv_vh.tif";
    assert Lower(p) == p;
    assert p[0..3] == "grd" && p[4..6] == "vv" && p[7..9] == "vh";
    assert OccursAt(p, "grd", 0) && OccursAt(p, "vv", 4) && OccursAt(p, "vh", 7);
  }

  /** The polarisation buckets are not exclusive: a path naming both "vv"
      and "vh" lands in both lists. */
  lemma PolarisationBucketsOverlap()
    ensures IngestSentinel1Grd([WalkEntry("grd", "vv_vh.tif")])["VV"] == ["grd/vv_vh.tif"]
    ensures IngestSentinel1Grd([WalkEntry("grd", "vv_vh.tif")])["VH"] == ["grd/vv_vh.tif"]
  {
    assert IsSuffix(RasterExtensions[0], Lower("vv_vh.tif"));
    assert "grd" + "/" + "vv_vh.tif" == "grd/vv_vh.tif";
    DiscoverSingleFile("grd", "vv_vh.tif", "grd/vv_vh.tif");
    OverlapPathTests();
    SelectFromSingle("grd/vv_vh.tif", IsVv);
    SelectFromSingle("grd/vv_vh.tif", IsVh);
  }

  lemma DirectoryPathTests()
    ensures IsVv("s1_grd_vv/a.tif")
  {
    var p := "s1_grd_vv/a.tif";
    assert Lower(p) == p;
    assert p[3..6] == "grd" && p[7..9] == "vv";
    assert OccursAt(p, "grd", 3) && OccursAt(p, "vv", 7);
  }

  /** The bucket tests read the whole path, so a directory name decides the
      bucket of a file whose own name says nothing about it. */
  lemma DirectoryNameDecidesBucket()
    ensures IngestSentinel1Grd([WalkEntry("s1_grd_vv", "a.tif")])["VV"] == ["s1_grd_vv/a.tif"]
  {
    assert IsSuffix(RasterExtensions[0], Lower("a.tif"));
    assert "s1_grd_vv" + "/" + "a.tif" == "s1_grd_vv/a.tif";
    DiscoverSingleFile("s1_grd_vv", "a.tif", "s1_grd_vv/a.tif");
    DirectoryPathTests();
    SelectFromSingle("s1_grd_vv/a.tif", IsVv);
  }
}
