/** Extraction (Application.iter_regions and Application.do_extract): walk
    the sorted region listing, read each region's chunks through the world-data
    reader and append one (rx, rz, maxInhabited) record per region to the
    registry, resuming after the records already present. */
module Extraction {
  import opened Geometry
  import opened Chunks

  datatype Option<T> = None | Some(value: T)

  /** What the world-data reader gives for one stored chunk: the chunk's
      Level.InhabitedTime, or an error (unreadable data or a failed decode). */
  datatype ChunkRead = Stored(inhabitedTime: int) | Corrupt

  /** A region file the reader could load: its region coordinates, its offset
      table (1024 entries in the file format) and what reading each stored chunk
      gives. A chunk coordinate missing from `stored` is one the reader reports
      as not contained in the region. */
  datatype Region = Region(rx: int, rz: int, offsets: seq<int>, stored: map<Coord, ChunkRead>)

  /** One entry of the region directory, listed in sorted filename order:
      either a file the reader cannot load, or a loaded region. */
  datatype RegionFile = Unloadable | Loaded(region: Region)

  /** What happens at one chunk that iter_chunks yields. */
  datatype Visit = Skipped | Read(value: int) | Failed

  /** The interrupt flag as the extraction loop sees it: never set, or first
      seen at the top of the iteration after `regions` regions of this run. */
  datatype StopSignal = NoSignal | SignalAfter(regions: nat)

  /** offsets.any(): the region file holds at least one chunk. */
  predicate HasChunks(r: Region)
  {
    exists i :: 0 <= i < |r.offsets| && r.offsets[i] != 0
  }

  /** The regions iter_regions yields from a listing: loadable files with at
      least one chunk, in listing order. */
  function Yielded(files: seq<RegionFile>): (ys: seq<Region>)
    ensures |ys| <= |files|
  {
    if files == [] then []
    else
      var n := |files| - 1;
      Yielded(files[..n]) + (if files[n].Loaded? && HasChunks(files[n].region) then [files[n].region] else [])
  }

  /** iter_regions(folder, skip): the skip is taken off the raw listing, before
      unloadable and empty files are dropped. */
  function IterRegions(listing: seq<RegionFile>, skip: nat): (rs: seq<Region>)
    ensures skip <= |listing| ==> |rs| <= |listing| - skip
    ensures skip > |listing| ==> rs == []
  {
    if skip <= |listing| then Yielded(listing[skip..]) else []
  }

  /** containsChunk, then readChunk and the decode of InhabitedTime. */
  function VisitOf(r: Region, c: Coord): Visit
  {
    if c !in r.stored then Skipped
    else
      match r.stored[c]
      case Stored(t) => Read(t)
      case Corrupt => Failed
  }

  /** The visits of a region's chunks in iter_chunks order. */
  function Visits(r: Region): seq<Visit>
  {
    var cs := IterChunks(r.rx, r.rz, r.offsets);
    seq(|cs|, j requires 0 <= j < |cs| => VisitOf(r, cs[j]))
  }

  /** The position of the first failing visit, or |vs| when none fails. */
  function FirstFailure(vs: seq<Visit>): (k: nat)
    ensures k <= |vs|
    ensures k < |vs| ==> vs[k] == Failed
    ensures forall j :: 0 <= j < k ==> vs[j] != Failed
  {
    if vs == [] then 0
    else if vs[0] == Failed then 0
    else 1 + FirstFailure(vs[1..])
  }

  /** The running max(inhabited, max_inhabited) over the values read, from 0. */
  function MaxRead(vs: seq<Visit>): (m: int)
    ensures m >= 0
    ensures (forall j :: 0 <= j < |vs| ==> !vs[j].Read?) ==> m == 0
  {
    if vs == [] then 0
    else
      var m := MaxRead(vs[..|vs| - 1]);
      match vs[|vs| - 1]
      case Read(v) => if m < v then v else m
      case _ => m
  }

  /** The value recorded for a region: the running maximum over the chunks
      read before the first failure. */
  function MaxInhabited(r: Region): (m: int)
    ensures m >= 0
    ensures (forall j :: 0 <= j < FirstFailure(Visits(r)) ==> !Visits(r)[j].Read?) ==> m == 0
  {
    var vs := Visits(r);
    MaxRead(vs[..FirstFailure(vs)])
  }

  function RecordOf(r: Region): Record
  {
    Record(Coord(r.rx, r.rz), MaxInhabited(r))
  }

  function Records(rs: seq<Region>): seq<Record>
  {
    seq(|rs|, j requires 0 <= j < |rs| => RecordOf(rs[j]))
  }

  /** The flag is seen set at the top of iteration i. */
  predicate StopSeen(stop: StopSignal, i: nat)
  {
    stop.SignalAfter? && i >= stop.regions
  }

  /** How many of the available regions one run processes. */
  function Processed(available: nat, stop: StopSignal): nat
  {
    match stop
    case NoSignal => available
    case SignalAfter(n) => if n < available then n else available
  }

  /** do_extract returns early, writing nothing, when the registry is
      non-empty and already has as many records as there are regions. */
  predicate AlreadyComplete(prior: seq<Record>, listing: seq<RegionFile>)
  {
    |prior| != 0 && |prior| == |IterRegions(listing, 0)|
  }

  /** The registry after one do_extract run on `listing` that starts from
      `prior`. */
  function Extracted(prior: seq<Record>, listing: seq<RegionFile>, stop: StopSignal): seq<Record>
  {
    if AlreadyComplete(prior, listing) then prior
    else
      var regions := IterRegions(listing, |prior|);
      prior + Records(regions[..Processed(|regions|, stop)])
  }

  /** The chunk loop of do_extract for one region: the maximum InhabitedTime
      read, and how many yielded chunks were visited; the first failure ends
      the loop, so no chunk after it is visited. */
  method ScanRegion(r: Region) returns (maxInhabited: int, visited: nat)
    ensures maxInhabited == MaxInhabited(r)
    ensures visited == if FirstFailure(Visits(r)) < |Visits(r)| then FirstFailure(Visits(r)) + 1 else |Visits(r)|
  {
    var chunks := IterChunks(r.rx, r.rz, r.offsets);
    ghost var vs := Visits(r);
    maxInhabited, visited := 0, 0;
    var j := 0;
    while j < |chunks|
      invariant 0 <= j <= |chunks|
      invariant visited == j
      invariant forall l :: 0 <= l < j ==> vs[l] != Failed
      invariant maxInhabited == MaxRead(vs[..j])
    {
      assert vs[..j + 1][..j] == vs[..j];
      var c := chunks[j];
      visited := visited + 1;
      if c in r.stored {
        match r.stored[c]
        case Corrupt =>
          assert vs[j] == Failed;
          break;
        case Stored(t) =>
          maxInhabited := if maxInhabited < t then t else maxInhabited;
      }
      j := j + 1;
    }
    assert vs[..|vs|] == vs;
  }

  /** The recorded value is 0 or a value read before the first failure, and
      no value read before the first failure exceeds it. */
  lemma {:induction false} MaxReadIsMax(vs: seq<Visit>)
    ensures MaxRead(vs) >= 0
    ensures forall j :: 0 <= j < |vs| && vs[j].Read? ==> vs[j].value <= MaxRead(vs)
    ensures MaxRead(vs) == 0 || exists j :: 0 <= j < |vs| && vs[j] == Read(MaxRead(vs))
  {
    if vs != [] {
      var n := |vs| - 1;
      var front := vs[..n];
      MaxReadIsMax(front);
      forall j | 0 <= j < n && vs[j].Read?
        ensures vs[j].value <= MaxRead(vs)
      {
        assert front[j] == vs[j];
      }
      if MaxRead(vs) != 0 && MaxRead(vs) == MaxRead(front) {
        var j :| 0 <= j < n && front[j] == Read(MaxRead(front));
        assert vs[j] == front[j];
      }
    }
  }

  /** The per-region property: the recorded value is the maximum of 0 and
      every value read before the region's first failing chunk. */
  lemma MaxInhabitedIsMax(r: Region)
    ensures var vs := Visits(r);
      && MaxInhabited(r) >= 0
      && (forall j :: 0 <= j < FirstFailure(vs) && vs[j].Read? ==> vs[j].value <= MaxInhabited(r))
      && (MaxInhabited(r) == 0 || exists j :: 0 <= j < FirstFailure(vs) && vs[j] == Read(MaxInhabited(r)))
  {
    var vs := Visits(r);
    var pre := vs[..FirstFailure(vs)];
    MaxReadIsMax(pre);
    if MaxInhabited(r) != 0 {
      var j :| 0 <= j < |pre| && pre[j] == Read(MaxRead(pre));
      assert vs[j] == pre[j];
    }
  }

  /** The registry of a run, held by the application object, and the
      contents of world.json. */
  class Application {
    /** self.region_data: None until loaded or first extracted. */
    var regionData: Option<seq<Record>>
    /** The records stored in world.json; None when the file does not exist. */
    var dataFile: Option<seq<Record>>

    /** run() loads the registry from world.json when the file exists. */
    constructor (stored: Option<seq<Record>>)
      ensures regionData == stored && dataFile == stored
    {
      regionData := stored;
      dataFile := stored;
    }

    /** do_extract: count the regions, skip as many listing entries as there
        are records, append one record per region until the listing ends or
        the interrupt flag is seen, then write the registry. */
    method DoExtract(listing: seq<RegionFile>, stop: StopSignal)
      modifies this
      ensures var prior := if old(regionData).Some? then old(regionData).value else [];
        && regionData == Some(Extracted(prior, listing, stop))
        && dataFile == if AlreadyComplete(prior, listing) then old(dataFile) else regionData
    {
      var numRegions := |IterRegions(listing, 0)|;
      if regionData.None? {
        regionData := Some([]);
      }
      var prior := regionData.value;
      var skip := |prior|;
      if skip != 0 && skip == numRegions {
        return;
      }
      var regions := IterRegions(listing, skip);
      assert prior + Records(regions[..0]) == prior;
      var i := 0;
      while i < |regions|
        invariant 0 <= i <= |regions|
        invariant i <= Processed(|regions|, stop)
        invariant regionData == Some(prior + Records(regions[..i]))
      {
        if StopSeen(stop, i) {
          break;
        }
        var r := regions[i];
        var m, _ := ScanRegion(r);
        RecordsStep(regions, i);
        assert prior + Records(regions[..i + 1]) == prior + Records(regions[..i]) + [RecordOf(r)];
        regionData := Some(regionData.value + [Record(Coord(r.rx, r.rz), m)]);
        i := i + 1;
      }
      assert i == Processed(|regions|, stop);
      dataFile := regionData;
    }
  }

  /** Processing one more region appends its record. */
  lemma RecordsStep(rs: seq<Region>, i: nat)
    requires i < |rs|
    ensures Records(rs[..i + 1]) == Records(rs[..i]) + [RecordOf(rs[i])]
  {
    assert Records(rs[..i + 1])[i] == RecordOf(rs[i]);
  }

  /** One run keeps the earlier records, appends at most as many records as
      regions are available, and at most `n` when the flag is seen after n
      regions; an uninterrupted run that is not already complete appends a
      record for every region after the skip. */
  lemma ExtractionAppends(prior: seq<Record>, listing: seq<RegionFile>, stop: StopSignal)
    ensures var after := Extracted(prior, listing, stop);
      && prior <= after
      && |after| <= |prior| + |IterRegions(listing, |prior|)|
      && (stop.SignalAfter? ==> |after| <= |prior| + stop.regions)
      && (stop == NoSignal && !AlreadyComplete(prior, listing) ==>
            after == prior + Records(IterRegions(listing, |prior|)))
  {

  }

  /** Every entry of the listing loads and holds chunks. */
  predicate EveryFileYields(listing: seq<RegionFile>)
  {
    forall k :: 0 <= k < |listing| ==> listing[k].Loaded? && HasChunks(listing[k].region)
  }

  lemma {:induction false} YieldedEvery(listing: seq<RegionFile>)
    requires EveryFileYields(listing)
    ensures |Yielded(listing)| == |listing|
    ensures forall k :: 0 <= k < |listing| ==> Yielded(listing)[k] == listing[k].region
  {
    if listing != [] {
      var n := |listing| - 1;
      var front := listing[..n];
      assert EveryFileYields(front) by {
        forall k | 0 <= k < |front| ensures front[k].Loaded? && HasChunks(front[k].region) {
          assert front[k] == listing[k];
        }
      }
      YieldedEvery(front);
      assert listing[n].Loaded? && HasChunks(listing[n].region);
      assert Yielded(listing) == Yielded(front) + [listing[n].region];
      forall k | 0 <= k < |listing| ensures Yielded(listing)[k] == listing[k].region {
        if k < n {
          assert Yielded(listing)[k] == Yielded(front)[k];
          assert front[k] == listing[k];
        }
      }
    }
  }

  /** The registry a single uninterrupted run over the whole listing builds. */
  function FullRegistry(listing: seq<RegionFile>): seq<Record>
  {
    Records(Yielded(listing))
  }

  /** A region is yielded iff its file is in the listing, loads and holds
      chunks. */
  lemma {:induction false} YieldedMembers(files: seq<RegionFile>, r: Region)
    ensures r in Yielded(files) <==> Loaded(r) in files && HasChunks(r)
  {
    if files != [] {
      var n := |files| - 1;
      YieldedMembers(files[..n], r);
      assert files == files[..n] + [files[n]];
    }
  }

  /** The listing holds one file per region: two loadable entries with the
      same region coordinate are the same region. */
  predicate OneFilePerRegion(listing: seq<RegionFile>)
  {
    forall i, j ::
      (0 <= i < |listing| && 0 <= j < |listing| && listing[i].Loaded? && listing[j].Loaded? &&
       listing[i].region.rx == listing[j].region.rx && listing[i].region.rz == listing[j].region.rz) ==>
      listing[i] == listing[j]
  }

  /** The records any run over the listing can write. */
  function ListingRecords(listing: seq<RegionFile>): set<Record>
  {
    set r | r in Yielded(listing) :: RecordOf(r)
  }

  /** Records written from a listing with one file per region agree on the
      value of each coordinate, duplicates included. */
  lemma ListingRecordsConsistent(listing: seq<RegionFile>, rs: seq<Record>)
    requires OneFilePerRegion(listing)
    requires forall k :: 0 <= k < |rs| ==> rs[k] in ListingRecords(listing)
    ensures Consistent(rs)
  {
    forall i, j | 0 <= i < |rs| && 0 <= j < |rs| && rs[i].pos == rs[j].pos
      ensures rs[i].maxInhabited == rs[j].maxInhabited
    {
      var r1 :| r1 in Yielded(listing) && rs[i] == RecordOf(r1);
      var r2 :| r2 in Yielded(listing) && rs[j] == RecordOf(r2);
      YieldedMembers(listing, r1);
      YieldedMembers(listing, r2);
      var a :| 0 <= a < |listing| && listing[a] == Loaded(r1);
      var b :| 0 <= b < |listing| && listing[b] == Loaded(r2);
    }
  }

  /** A region yielded after any skip is a region of the whole listing. */
  lemma SkippedRegionRecorded(listing: seq<RegionFile>, skip: nat, r: Region)
    requires r in IterRegions(listing, skip)
    ensures RecordOf(r) in ListingRecords(listing)
  {
    var tail := listing[skip..];
    YieldedMembers(tail, r);
    var t :| 0 <= t < |tail| && tail[t] == Loaded(r);
    assert listing[skip + t] == Loaded(r);
    YieldedMembers(listing, r);
  }

  /** A run over a listing with one file per region, started from records of
      the same listing, writes only records of that listing, so the registry
      stays consistent, even when the skip makes it record a region twice. */
  lemma ExtractedConsistent(prior: seq<Record>, listing: seq<RegionFile>, stop: StopSignal)
    requires OneFilePerRegion(listing)
    requires forall k :: 0 <= k < |prior| ==> prior[k] in ListingRecords(listing)
    ensures var after := Extracted(prior, listing, stop);
      (forall k :: 0 <= k < |after| ==> after[k] in ListingRecords(listing)) && Consistent(after)
  {
    var after := Extracted(prior, listing, stop);
    if !AlreadyComplete(prior, listing) {
      var regions := IterRegions(listing, |prior|);
      var taken := regions[..Processed(|regions|, stop)];
      assert after == prior + Records(taken);
      forall k | |prior| <= k < |after|
        ensures after[k] in ListingRecords(listing)
      {
        var r := taken[k - |prior|];
        assert after[k] == RecordOf(r);
        assert r in regions;
        SkippedRegionRecorded(listing, |prior|, r);
      }
    }
    ListingRecordsConsistent(listing, after);
  }

  /** An interrupted run from an empty registry followed by a resumed run
      leaves a consistent registry when the listing has one file per region
      and reads the same on both runs. */
  lemma ResumedRegistryConsistent(listing: seq<RegionFile>, stop: StopSignal)
    requires OneFilePerRegion(listing)
    ensures Consistent(Extracted(Extracted([], listing, stop), listing, NoSignal))
  {
    ExtractedConsistent([], listing, stop);
    ExtractedConsistent(Extracted([], listing, stop), listing, NoSignal);
  }

  /** When every listed file loads and holds chunks, skipping raw listing
      entries and skipping yielded regions are the same. */
  lemma SkipAgreesWhenEveryFileYields(listing: seq<RegionFile>, skip: nat)
    requires EveryFileYields(listing)
    ensures IterRegions(listing, skip) == IterRegionsFixed(listing, skip)
  {
    YieldedEvery(listing);
    if skip <= |listing| {
      var tail := listing[skip..];
      assert EveryFileYields(tail) by {
        forall k | 0 <= k < |tail| ensures tail[k].Loaded? && HasChunks(tail[k].region) {
          assert tail[k] == listing[skip + k];
        }
      }
      YieldedEvery(tail);
    }
  }

  /** When every listed file loads and holds chunks, a run that starts from a
      prefix of the full registry leaves a prefix of it, and an uninterrupted
      run completes it. */
  lemma ResumeWhenEveryFileYields(prior: seq<Record>, listing: seq<RegionFile>, stop: StopSignal)
    requires EveryFileYields(listing)
    requires prior <= FullRegistry(listing)
    ensures Extracted(prior, listing, stop) <= FullRegistry(listing)
    ensures stop == NoSignal ==> Extracted(prior, listing, stop) == FullRegistry(listing)
  {
    SkipAgreesWhenEveryFileYields(listing, |prior|);
    assert Extracted(prior, listing, stop) == ExtractedFixed(prior, listing, stop);
    ResumeFixed(prior, listing, stop);
  }

  /** Interrupted after any number of regions and resumed, extraction of
      such a listing ends with the registry of one uninterrupted run. */
  lemma ResumeCompletesWhenEveryFileYields(listing: seq<RegionFile>, stop: StopSignal)
    requires EveryFileYields(listing)
    ensures Extracted(Extracted([], listing, stop), listing, NoSignal) == Extracted([], listing, NoSignal)
  {
    ResumeWhenEveryFileYields([], listing, stop);
    ResumeWhenEveryFileYields(Extracted([], listing, stop), listing, NoSignal);
    ResumeWhenEveryFileYields([], listing, NoSignal);
  }

  /** The three-entry listing of the counterexample: both regions are
      yielded, both from the whole listing and after skipping one entry. */
  lemma ExampleListing(a: Region, b: Region)
    requires a.offsets == [1] && b.offsets == [1]
    ensures Yielded([Unloadable, Loaded(a), Loaded(b)]) == [a, b]
    ensures Yielded([Unloadable, Loaded(a), Loaded(b)][1..]) == [a, b]
  {
    var listing := [Unloadable, Loaded(a), Loaded(b)];
    assert a.offsets[0] != 0 && b.offsets[0] != 0;
    assert HasChunks(a) && HasChunks(b);
    assert listing[..2] == [Unloadable, Loaded(a)];
    assert listing[..2][..1] == [Unloadable];
    assert listing[..2][..1][..0] == [];
    assert Yielded(listing[..2][..1]) == [];
    assert Yielded(listing[..2]) == [a];
    assert listing[1..] == [Loaded(a), Loaded(b)];
    assert listing[1..][..1] == [Loaded(a)];
    assert listing[1..][..1][..0] == [];
    assert Yielded(listing[1..][..1]) == [a];
  }

  /** A region with one chunk that the reader reports missing records 0. */
  lemma ExampleRecord(r: Region)
    requires r.offsets == [1] && r.stored == map[]
    ensures RecordOf(r) == Record(Coord(r.rx, r.rz), 0)
  {
    assert r.offsets[..0] == [];
    assert |IterChunks(r.rx, r.rz, r.offsets)| == 1;
    var vs := Visits(r);
    assert vs == [Skipped];
    assert FirstFailure(vs) == 1;
    assert vs[..1][..0] == [];
    assert MaxRead(vs[..1]) == 0;
  }

  /** With an unloadable file first in the listing, a run interrupted after
      one region and then resumed processes region (0,0) twice: the skip of
      one raw listing entry lands on the unloadable file instead of the region
      already recorded. */
  lemma ResumeRevisitsRegion()
    ensures var listing := [Unloadable, Loaded(Region(0, 0, [1], map[])), Loaded(Region(1, 0, [1], map[]))];
      var first := Extracted([], listing, SignalAfter(1));
      && first == [Record(Coord(0, 0), 0)]
      && Extracted(first, listing, NoSignal) == [Record(Coord(0, 0), 0), Record(Coord(0, 0), 0), Record(Coord(1, 0), 0)]
      && Extracted([], listing, NoSignal) == [Record(Coord(0, 0), 0), Record(Coord(1, 0), 0)]
  {
    var a := Region(0, 0, [1], map[]);
    var b := Region(1, 0, [1], map[]);
    ExampleListing(a, b);
    ExampleRecord(a);
    ExampleRecord(b);
    assert Records([a, b]) == [RecordOf(a), RecordOf(b)];
    assert Records([a, b][..1]) == [RecordOf(a)];
  }

  /** iter_regions with the skip applied to the yielded regions, which is
      what the record count measures. */
  function IterRegionsFixed(listing: seq<RegionFile>, skip: nat): seq<Region>
  {
    var ys := Yielded(listing);
    if skip <= |ys| then ys[skip..] else []
  }

  function ExtractedFixed(prior: seq<Record>, listing: seq<RegionFile>, stop: StopSignal): seq<Record>
  {
    if AlreadyComplete(prior, listing) then prior
    else
      var regions := IterRegionsFixed(listing, |prior|);
      prior + Records(regions[..Processed(|regions|, stop)])
  }

  /** With the skip counted in yielded regions, for every listing, a run that
      starts from a prefix of the full registry leaves a prefix of it, and an
      uninterrupted run completes it. */
  lemma ResumeFixed(prior: seq<Record>, listing: seq<RegionFile>, stop: StopSignal)
    requires prior <= FullRegistry(listing)
    ensures ExtractedFixed(prior, listing, stop) <= FullRegistry(listing)
    ensures stop == NoSignal ==> ExtractedFixed(prior, listing, stop) == FullRegistry(listing)
  {
    var ys := Yielded(listing);
    var full := FullRegistry(listing);
    var m := |prior|;
    assert prior == full[..m];
    if AlreadyComplete(prior, listing) {
      assert listing[0..] == listing;
    } else {
      var regions := IterRegionsFixed(listing, m);
      var n := Processed(|regions|, stop);
      assert regions == ys[m..];
      assert Records(regions[..n]) == full[m..m + n];
      assert ExtractedFixed(prior, listing, stop) == full[..m + n];
    }
  }

  /** With the corrected skip, any interrupted run followed by an
      uninterrupted one gives the registry of one uninterrupted run. */
  lemma ResumeCompletesFixed(listing: seq<RegionFile>, stop: StopSignal)
    ensures ExtractedFixed(ExtractedFixed([], listing, stop), listing, NoSignal) == ExtractedFixed([], listing, NoSignal)
  {

  }
}
