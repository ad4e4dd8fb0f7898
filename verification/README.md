# worldtrim decision core in Dafny

This project models the decision logic of the Minecraft world trimmer
`worldtrim.py`. The trimmer does four things:

- **Extraction.** It scans the world's region files and records, per region,
  the largest `InhabitedTime` of its chunks. The registry is kept in
  `world.json`, and an interrupted run can be resumed.
- **Classification.** It sorts every recorded region into one of five sets
  by Chebyshev distance from a centre and by activity: spawn, inhabited,
  connected, uninhabited or outside the border.
- **Map.** It paints the first four sets into a `(2*border+1)²` RGBA map.
- **Trim.** It removes or archives the files of the uninhabited regions and
  of the regions outside the border, when those files are older than a
  number of days.

Modules, one per component of the script:

- `geometry.dfy` (`Geometry`): region coordinates, registry records, the
  classification parameters (`center`, `border`, `spawn`, `inhabited`
  threshold) and Chebyshev distance.
- `analysis.dfy` (`Analysis`): `Application.analyze`. It is a method with the
  marking loop and the neighbour loop, proved equal to the specification
  function `AnalysisOf`. Lemmas cover the boundary cases, coverage,
  disjointness, where each record lands, and the non-transitive rescue.
- `chunks.dfy` (`Chunks`): the slot-to-chunk arithmetic of
  `Application.iter_chunks`, its inverse, bounds and injectivity.
- `extraction.dfy` (`Extraction`): `iter_regions` as a filter over the
  sorted listing, and the per-region chunk loop. It also holds class
  `Application` with `region_data` and the `world.json` contents, whose
  `DoExtract` appends records in place. The resume behaviour is proved
  both ways (see Findings).
- `show.dfy` (`Show`): `paint` on an `array2`, and the raster `do_show`
  builds.
- `trim.dfy` (`Trim`): the `do_trim` selection and count over a region
  directory modelled as a map from coordinate to modification time.

The world-data reader is a value. A listing entry is either a file that does
not load, or a region with its offset table and a map from chunk coordinate
to what reading that chunk gives: a value, or a failure. A chunk missing from
the map is one the reader reports as not contained. The interrupt flag is a
`StopSignal`: either never seen, or first seen at the top of the iteration
after `n` regions. Time is an integer number of seconds, and `now` is a
parameter.

Points of the script's behaviour the model keeps:

- The age test removes a file only when its mtime is strictly less than
  `now - old days` (worldtrim.py:178). A file exactly `old` days old is kept.
- `uninhabited` is returned as a list built from a set. It is modelled as a
  set: it has no duplicates, and the order of a set iteration is not
  specified.
- For every registry, spawn and outside share no coordinate with any other
  set, and connected none with uninhabited (`Analysis.DistanceSetsDisjoint`),
  so a spawn or connected region is never walked by `do_trim`. Inhabited is
  disjoint from connected and uninhabited when the registry is consistent,
  meaning records with the same coordinate have the same value (see
  `Geometry.Consistent`). The code never checks this. An inconsistent
  registry can put one coordinate in both inhabited and uninhabited
  (`Analysis.InconsistentOverlap`), and `do_trim` then walks an inhabited
  region.
- Extraction over a listing with one file per region writes a consistent
  registry, also when a resumed run records a region twice (see Findings;
  `Extraction.ExtractedConsistent`). This assumes the world does not change
  between the interrupted run and the resumed one: the reader is one fixed
  value for both runs. If a region is played in between, its second record
  can carry a different value.

## Model

| member | source | states |
|---|---|---|
| Geometry.Chebyshev | worldtrim.py:121 | the distance is the larger of \|dx\| and \|dz\|: it bounds both and equals one of them |
| Analysis.Analyze | worldtrim.py:112-137 | the two loops and the filter return exactly `AnalysisOf`: the first-pass sets, connected = the provisional uninhabited regions with an inhabited axis neighbour, uninhabited = the rest |
| Analysis.Classify | worldtrim.py:120-128 | the first pass's category: outside iff distance > border; spawn iff within the border and distance < spawn; inhabited iff spawn <= distance <= border and value >= threshold; uninhabited iff spawn <= distance <= border and value < threshold |
| Analysis.MarkedMembers | worldtrim.py:120-128 | a coordinate is in a first-pass set iff some record at that coordinate gets that category |
| Analysis.ClassifyBoundaries | worldtrim.py:121-128 | distance exactly `border` is never outside, `border+1` always is; distance exactly `spawn` is never spawn, `spawn-1` is spawn when `spawn <= border`; inhabited means at or above the threshold; uninhabited means within the border and below it |
| Analysis.AnalysisCovers | worldtrim.py:120-137 | the union of the five sets is exactly the set of coordinates in the registry |
| Analysis.DistanceSetsDisjoint | worldtrim.py:120-137 | for every registry, spawn and outside are disjoint from each other and from inhabited, connected and uninhabited, and connected is disjoint from uninhabited |
| Analysis.AnalysisDisjoint | worldtrim.py:120-137 | for a consistent registry inhabited is disjoint from connected and from uninhabited, which completes pairwise disjointness of the five sets |
| Analysis.InconsistentOverlap | worldtrim.py:120-137 | registry (0,0,0), (0,0,20000), (1,0,0) is inconsistent and puts (0,0) in both inhabited and the final uninhabited set |
| Analysis.RecordPlacement | worldtrim.py:120-136 | for a consistent registry, each record is outside iff distance > border; spawn iff within the border and distance < spawn; inhabited iff neither and value >= threshold; connected iff otherwise uninhabited and an axis neighbour is inhabited; uninhabited iff otherwise uninhabited with no inhabited axis neighbour |
| Analysis.RescueSplitsProvisional | worldtrim.py:130-136 | connected and final uninhabited partition the provisional uninhabited set; every connected region touches an inhabited one, no final uninhabited region does |
| Analysis.EndToEndExample | worldtrim.py:112-137 | registry (0,0,20000), (1,0,0), (10,0,0) with border 5, spawn 0, threshold 18000 gives inhabited {(0,0)}, connected {(1,0)}, outside {(10,0)} and no spawn or uninhabited region |
| Analysis.RescueNotTransitive | worldtrim.py:130-136 | with (0,0) inhabited, (1,0) is rescued but (2,0), next only to the rescued (1,0), and the diagonal (1,1) stay uninhabited |
| Chunks.SlotRoundTrip | worldtrim.py:73 | for a slot below 1024 the yielded chunk lies in region (rx, rz) under floor division, and its slot index is recovered from it |
| Chunks.ChunkOfSlot | worldtrim.py:73 | slot i holds chunk (i % 32 + rx*32, i / 32 + rz*32); for a slot below 1024, rx*32 <= cx < rx*32+32 and rz*32 <= cz < rz*32+32 |
| Chunks.ChunkOfSlotInjective | worldtrim.py:73 | distinct slot indices give distinct chunks |
| Chunks.ChunksSlots | worldtrim.py:69-73 | every yielded chunk is the chunk of a slot with a non-zero offset, and every such slot's chunk is yielded |
| Chunks.ChunksDistinct | worldtrim.py:69-73 | iter_chunks never yields a chunk twice |
| Chunks.IterChunks | worldtrim.py:69-73 | the chunks of the slots with a non-zero offset, in slot order: never more chunks than slots |
| Chunks.ChunksInRegion | worldtrim.py:69-73 | for an offset table of at most 1024 entries every yielded chunk lies in the region's own 32x32 block |
| Extraction.Yielded | worldtrim.py:64-67 | the regions of a listing that load and hold chunks, in listing order: never more regions than entries |
| Extraction.IterRegions | worldtrim.py:60-67 | the regions of listing[skip..] that load and hold chunks, in listing order; the skip counts raw listing entries, so at most |listing| - skip regions, and none when skip exceeds the listing |
| Extraction.MaxRead | worldtrim.py:94-101 | the running max(inhabited, max_inhabited) from 0 over the values read: never negative, and 0 when no value is read |
| Extraction.MaxInhabited | worldtrim.py:94-101 | the value recorded for a region: the running maximum from 0 over the chunks read before the first failing one; never negative, and 0 when nothing is read before that failure |
| Extraction.FirstFailure | worldtrim.py:96-102 | the index returned is that of the first failing chunk read, or the number of chunks if none fails |
| Extraction.ScanRegion | worldtrim.py:94-104 | the chunk loop returns the running maximum over the reads before the first failure; it visits chunks up to and including the failing one and none after it |
| Extraction.MaxReadIsMax | worldtrim.py:95-101 | the running max from 0 is non-negative, no smaller than any value read, and is 0 or one of the values read |
| Extraction.MaxInhabitedIsMax | worldtrim.py:94-104 | the recorded value is the maximum of 0 and every value read before the region's first failing read |
| Extraction.Application.constructor | worldtrim.py:40-43 | region data starts as the contents of `world.json`, or none when the file is absent |
| Extraction.Application.DoExtract | worldtrim.py:75-110 | the registry becomes `Extracted(prior, listing, stop)`: unchanged when non-empty and already as long as the region count, with the data file unwritten in that case; otherwise one record per region from the raw-listing skip onward until the flag is seen, then the data file holds the registry |
| Extraction.ExtractionAppends | worldtrim.py:83-104 | a run keeps earlier records as a prefix, appends at most one record per available region and at most `n` when the flag is seen after `n` regions, and an uninterrupted run that is not complete appends a record for every region after the skip |
| Extraction.YieldedEvery | worldtrim.py:60-67 | when every listed file loads and holds chunks, iter_regions yields exactly those regions in listing order |
| Extraction.YieldedMembers | worldtrim.py:60-67 | a region is yielded iff its file is in the listing, loads and holds chunks |
| Extraction.ListingRecordsConsistent | worldtrim.py:94-104 | records written from a listing with one file per region agree on each coordinate's value, duplicates included |
| Extraction.ExtractedConsistent | worldtrim.py:81-104 | a run over a listing with one file per region, started from records of that listing, writes only records of that listing and leaves a consistent registry |
| Extraction.ResumedRegistryConsistent | worldtrim.py:81-104 | an interrupted run from an empty registry followed by a resumed run leaves a consistent registry, duplicates included |
| Extraction.SkipAgreesWhenEveryFileYields | worldtrim.py:60-67 | when every listed file loads and holds chunks, skipping raw listing entries and skipping yielded regions give the same regions |
| Extraction.ResumeWhenEveryFileYields | worldtrim.py:60-67 | when every listed file loads and holds chunks, a run started from a prefix of the full registry leaves a prefix of it, and an uninterrupted run completes it |
| Extraction.ResumeCompletesWhenEveryFileYields | worldtrim.py:81-104 | for such a listing, any interrupted run followed by an uninterrupted one gives the registry of one uninterrupted run |
| Extraction.ResumeRevisitsRegion | worldtrim.py:64-66 | with an unloadable file first in the listing, interrupting after one region and resuming records region (0,0) twice, while one uninterrupted run records it once |
| Extraction.ResumeFixed | worldtrim.py:83-91 | with the skip counted in yielded regions, any listing: a run from a prefix of the full registry leaves a prefix of it, and an uninterrupted run completes it |
| Extraction.ResumeCompletesFixed | worldtrim.py:83-91 | with the corrected skip, interrupted and resumed extraction always ends with the registry of one uninterrupted run |
| Show.PixelOfRegion | worldtrim.py:141 | a region within the border paints row `rz+border-cz` and column `rx+border-cx` inside `[0, 2*border]`, and that pixel maps back to the region |
| Show.Paint | worldtrim.py:139-141 | every pixel of a region in the set takes the colour; every other pixel keeps its old colour |
| Show.PaintedWithinBorder | worldtrim.py:157-161 | every region in the four painted sets is within the border, so paint never indexes outside the raster |
| Show.ShowMap | worldtrim.py:156-161 | the raster is fresh, `(2*border+1)²`, and every pixel has the colour of the last painted set holding its region (red, yellow, green, white), else transparent |
| Show.MapShowsCategory | worldtrim.py:157-161 | for a consistent registry each record's pixel shows its own category: transparent outside, white spawn, green inhabited, yellow rescued, red uninhabited |
| Show.MapBlankOffRegistry | worldtrim.py:157-161 | a coordinate absent from the registry is never painted |
| Trim.RemoveOld | worldtrim.py:171-183 | a file is removed iff its region is walked, the file exists and its mtime is strictly below the cutoff; other files keep their mtime; the count is the number removed |
| Trim.DoTrim | worldtrim.py:167-184 | files are removed iff their region is uninhabited or outside, the file exists and its mtime < now - old days; all other files are untouched; the count equals the number removed |
| Trim.RemovableInTwoLegs | worldtrim.py:171 | walking uninhabited and then outside removes what one walk over their union removes; the two legs remove disjoint files, so the counts add up |
| Trim.TrimSparesSpawnAndConnected | worldtrim.py:168-171 | for every registry, no spawn or connected region is in the uninhabited or outside set that do_trim walks |
| Trim.TrimSparesKept | worldtrim.py:168-171 | for a consistent registry a record is deletable iff it is outside or uninhabited with no inhabited axis neighbour; spawn, inhabited and connected regions are never walked |
| Trim.AgeFilter | worldtrim.py:178 | the age test is strict: a file `old-1` days or exactly `old` days old is kept, one `old+1` days old is removed |

## Left out

- Region-file I/O through pymclevel (`AnvilWorldFolder`, `tryLoadRegionFile`, `containsChunk`, `readChunk`, NBT decoding). It is a foreign library, modelled as a listing of loaded or unloadable regions, each with a map from chunk to read outcome.
- The order of `os.listdir(...).sort()`. The listing is taken as already sorted by filename; string sorting itself is not modelled.
- JSON load and save of `world.json`, and `do_clean`. These are serialisation and file removal. The data file is a field holding the record sequence.
- Image encoding (`scipy.misc.imsave`) and numpy's uint8 channel type. The raster is an `array2` of RGBA values.
- The filesystem primitives `shutil.move`, `os.remove`, `os.path.exists`, `getmtime` and `datetime.now`. The region directory is a map from coordinate to mtime in whole seconds. Moving to `deleted_dir` and deleting are both "the file leaves the region directory"; where a moved file goes is not modelled.
- Trim.DoTrim: does not model `datetime.now()` being re-read for every file, because `now` is one fixed parameter. Sub-second mtimes are also not modelled. File mtimes and `now` are taken as local wall-clock seconds, as the naive `datetime.fromtimestamp` and `datetime.now` values compare (worldtrim.py:176-178); the one-hour shift of the cutoff across a daylight-saving change is not modelled.
- Show.ShowMap: requires `border >= 0`. With a negative border the numpy allocation raises, and the model does not cover that error.
- SIGINT registration and the handler. The flag is the `StopSignal` input, observed only at the top of each region iteration.
- The argparse command line, the `setattr` configuration and `do_` dispatch, the `deleted_dir` directory check, the "run extract first" error, and all progress and summary output.

## Findings

| source | as written | input that shows it | evidently intended | confidence | as-written member | corrected member |
|---|---|---|---|---|---|---|
| worldtrim.py:64 | resume skips `len(region_data)` entries of the raw sorted filename list, but `region_data` only counts files that load and hold chunks (worldtrim.py:66) | listing [unloadable file, r.0.0, r.1.0]: interrupted after one region, then resumed, it records r.0.0 twice | skip `len(region_data)` yielded regions, so a resumed run appends exactly the regions not yet recorded | not executed; high | Extraction.ResumeRevisitsRegion | Extraction.ResumeFixed |

`Extraction.Application.DoExtract` keeps the code's skip, as written. The
corrected skip is `Extraction.IterRegionsFixed`. `Extraction.ResumeFixed` and
`Extraction.ResumeCompletesFixed` prove resume correct for it on every
listing. With the skip as written, resume is proved correct only for listings
where every file loads and holds chunks
(`Extraction.ResumeWhenEveryFileYields`).
