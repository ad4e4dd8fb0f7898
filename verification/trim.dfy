/** Trimming (Application.do_trim): walk the uninhabited regions, then the
    regions outside the border, and remove each region file that exists and
    was last modified strictly before now minus `old` days. The region
    directory is a map from region coordinate to modification time. */
module Trim {
  import opened Geometry
  import opened Analysis

  const SecondsPerDay := 86400

  /** now - timedelta(days=old), in seconds. */
  function Cutoff(now: int, oldDays: int): int
  {
    now - oldDays * SecondsPerDay
  }

  /** The region files a walk over `regions` removes. */
  function Removable(files: map<Coord, int>, regions: set<Coord>, cutoff: int): set<Coord>
  {
    set c | c in regions && c in files && files[c] < cutoff
  }

  /** One leg of the do_trim loop: for each region, if its file exists and is
      strictly older than the cutoff, move or delete it and count it. */
  method RemoveOld(files: map<Coord, int>, regions: set<Coord>, cutoff: int) returns (rest: map<Coord, int>, count: nat)
    ensures forall c :: c in rest <==> c in files && !(c in regions && files[c] < cutoff)
    ensures forall c :: c in rest ==> rest[c] == files[c]
    ensures count == |Removable(files, regions, cutoff)|
  {
    rest, count := files, 0;
    var todo := regions;
    while todo != {}
      invariant todo <= regions
      invariant forall c :: c in rest <==> c in files && !(c in regions - todo && files[c] < cutoff)
      invariant forall c :: c in rest ==> rest[c] == files[c]
      invariant count == |Removable(files, regions - todo, cutoff)|
      decreases todo
    {
      var c :| c in todo;
      var done := regions - todo;
      assert regions - (todo - {c}) == done + {c};
      if c in rest && rest[c] < cutoff {
        assert Removable(files, done + {c}, cutoff) == Removable(files, done, cutoff) + {c};
        rest := rest - {c};
        count := count + 1;
      } else {
        assert Removable(files, done + {c}, cutoff) == Removable(files, done, cutoff);
      }
      todo := todo - {c};
    }
    assert regions - todo == regions;
  }

  /** do_trim: classify, then remove the old files of the uninhabited regions
      and of the regions outside the border, and count the removals. Every
      other file is left as it was. */
  method DoTrim(p: Params, data: seq<Record>, files: map<Coord, int>, now: int, oldDays: int)
    returns (rest: map<Coord, int>, count: nat)
    ensures var a := AnalysisOf(p, data);
      var cutoff := Cutoff(now, oldDays);
      && (forall c :: c in rest <==> c in files && !(c in a.uninhabited + a.outside && files[c] < cutoff))
      && (forall c :: c in rest ==> rest[c] == files[c])
      && count == |Removable(files, a.uninhabited + a.outside, cutoff)|
  {
    var a := Analyze(p, data);
    var cutoff := Cutoff(now, oldDays);
    var afterUninhabited, removedUninhabited := RemoveOld(files, a.uninhabited, cutoff);
    var removedOutside;
    rest, removedOutside := RemoveOld(afterUninhabited, a.outside, cutoff);
    count := removedUninhabited + removedOutside;
    RemovableInTwoLegs(files, afterUninhabited, a.uninhabited, a.outside, cutoff);
  }

  /** Walking u and then o removes what one walk over u + o removes, and the
      two legs remove disjoint sets of files. */
  lemma RemovableInTwoLegs(files: map<Coord, int>, mid: map<Coord, int>, u: set<Coord>, o: set<Coord>, cutoff: int)
    requires forall c :: c in mid <==> c in files && !(c in u && files[c] < cutoff)
    requires forall c :: c in mid ==> mid[c] == files[c]
    ensures Removable(files, u, cutoff) !! Removable(mid, o, cutoff)
    ensures Removable(files, u + o, cutoff) == Removable(files, u, cutoff) + Removable(mid, o, cutoff)
    ensures |Removable(files, u + o, cutoff)| == |Removable(files, u, cutoff)| + |Removable(mid, o, cutoff)|
  {

  }

  /** A record of a consistent registry keeps its file when it is spawn,
      inhabited, or low-activity but next to an inhabited region: only
      uninhabited and outside regions are deletable. */
  lemma TrimSparesKept(p: Params, data: seq<Record>, i: int)
    requires Consistent(data)
    requires 0 <= i < |data|
    ensures var a := AnalysisOf(p, data);
      var cat := Classify(p, data[i]);
      data[i].pos in a.uninhabited + a.outside <==>
        cat == Outside || (cat == Uninhabited && !Touches(data[i].pos, a.inhabited))
  {
    RecordPlacement(p, data, i);
  }

  /** For every registry, consistent or not, spawn and connected regions are
      never walked by do_trim. */
  lemma TrimSparesSpawnAndConnected(p: Params, data: seq<Record>)
    ensures var a := AnalysisOf(p, data);
      (a.spawn + a.connected) !! (a.uninhabited + a.outside)
  {
    DistanceSetsDisjoint(p, data);
  }

  /** The age filter is strict: a deletable file modified `old - 1` days ago,
      or exactly `old` days ago, stays; one modified `old + 1` days ago goes. */
  lemma AgeFilter(files: map<Coord, int>, regions: set<Coord>, now: int, oldDays: int, c: Coord)
    requires c in regions && c in files
    ensures files[c] == now - (oldDays - 1) * SecondsPerDay ==> c !in Removable(files, regions, Cutoff(now, oldDays))
    ensures files[c] == Cutoff(now, oldDays) ==> c !in Removable(files, regions, Cutoff(now, oldDays))
    ensures files[c] == now - (oldDays + 1) * SecondsPerDay ==> c in Removable(files, regions, Cutoff(now, oldDays))
  {
  }
}
