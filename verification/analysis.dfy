/** The region classifier (Application.analyze): every registry record is
    put in exactly one of spawn, inhabited, uninhabited or outside, and the
    uninhabited regions that border an inhabited one are rescued as
    connected. */
module Analysis {
  import opened Geometry

  /** The category the first pass assigns to a record. */
  datatype Category = Outside | Spawn | Inhabited | Uninhabited

  /** The five collections analyze returns. */
  datatype Classification = Classification(
    spawn: set<Coord>,
    inhabited: set<Coord>,
    connected: set<Coord>,
    uninhabited: set<Coord>,
    outside: set<Coord>)

  /** First pass, tests in analyze's order: beyond the border (strict),
      inside spawn (strict), at or above the threshold, otherwise uninhabited. */
  function Classify(p: Params, r: Record): (cat: Category)
    ensures cat == Outside <==> Chebyshev(r.pos, p.center) > p.border
    ensures cat == Spawn <==> Chebyshev(r.pos, p.center) <= p.border && Chebyshev(r.pos, p.center) < p.spawn
    ensures cat == Inhabited <==>
      p.spawn <= Chebyshev(r.pos, p.center) <= p.border && r.maxInhabited >= p.threshold
    ensures cat == Uninhabited <==>
      p.spawn <= Chebyshev(r.pos, p.center) <= p.border && r.maxInhabited < p.threshold
  {
    var d := Chebyshev(r.pos, p.center);
    if d > p.border then Outside
    else if d < p.spawn then Spawn
    else if r.maxInhabited >= p.threshold then Inhabited
    else Uninhabited
  }

  /** The coordinates the first pass adds to the set of one category. */
  function Marked(p: Params, data: seq<Record>, cat: Category): set<Coord>
  {
    if data == [] then {}
    else
      var last := data[|data| - 1];
      Marked(p, data[..|data| - 1], cat) + (if Classify(p, last) == cat then {last.pos} else {})
  }

  /** The four axis neighbours (rx+1,rz), (rx-1,rz), (rx,rz+1), (rx,rz-1), in the order analyze tries them. */
  function Neighbours(c: Coord): seq<Coord>
  {
    [Coord(c.x + 1, c.z), Coord(c.x - 1, c.z), Coord(c.x, c.z + 1), Coord(c.x, c.z - 1)]
  }

  /** Some axis neighbour of c lies in s; diagonals do not count. */
  predicate Touches(c: Coord, s: set<Coord>)
  {
    Coord(c.x + 1, c.z) in s || Coord(c.x - 1, c.z) in s ||
    Coord(c.x, c.z + 1) in s || Coord(c.x, c.z - 1) in s
  }

  /** What analyze returns: the rescue looks only at the inhabited set, so it
      is not transitive. */
  function AnalysisOf(p: Params, data: seq<Record>): Classification
  {
    var inhabited := Marked(p, data, Inhabited);
    var provisional := Marked(p, data, Uninhabited);
    var connected := set c | c in provisional && Touches(c, inhabited);
    Classification(Marked(p, data, Spawn), inhabited, connected,
                   provisional - connected, Marked(p, data, Outside))
  }

  /** Application.analyze: the marking loop over the registry, then the
      neighbour loop over the provisional uninhabited set, then the filter. */
  method Analyze(p: Params, data: seq<Record>) returns (result: Classification)
    ensures result == AnalysisOf(p, data)
  {
    var outside, uninhabited, connected, inhabited, spawn := {}, {}, {}, {}, {};
    var i := 0;
    while i < |data|
      invariant 0 <= i <= |data|
      invariant outside == Marked(p, data[..i], Outside)
      invariant spawn == Marked(p, data[..i], Spawn)
      invariant inhabited == Marked(p, data[..i], Inhabited)
      invariant uninhabited == Marked(p, data[..i], Uninhabited)
    {
      assert data[..i + 1][..i] == data[..i];
      var r := data[i];
      var d := Chebyshev(r.pos, p.center);
      if d > p.border {
        outside := outside + {r.pos};
      } else if d < p.spawn {
        spawn := spawn + {r.pos};
      } else if r.maxInhabited >= p.threshold {
        inhabited := inhabited + {r.pos};
      } else {
        uninhabited := uninhabited + {r.pos};
      }
      i := i + 1;
    }
    assert data[..|data|] == data;

    var todo := uninhabited;
    while todo != {}
      invariant todo <= uninhabited
      invariant forall c :: c in connected <==> c in uninhabited && c !in todo && Touches(c, inhabited)
      decreases todo
    {
      var c :| c in todo;
      var ns := Neighbours(c);
      assert ns[0] == Coord(c.x + 1, c.z) && ns[1] == Coord(c.x - 1, c.z);
      assert ns[2] == Coord(c.x, c.z + 1) && ns[3] == Coord(c.x, c.z - 1);
      ghost var before := connected;
      var k := 0;
      while k < 4
        invariant 0 <= k <= 4
        invariant forall j :: 0 <= j < k ==> ns[j] !in inhabited
        invariant connected == before
      {
        if ns[k] in inhabited {
          connected := connected + {c};
          break;
        }
        k := k + 1;
      }
      assert c in connected <==> Touches(c, inhabited);
      todo := todo - {c};
    }
    var rest := set c | c in uninhabited && c !in connected;
    result := Classification(spawn, inhabited, connected, rest, outside);
  }

  /** A coordinate is marked with a category iff some record at that
      coordinate is classified so. */
  lemma {:induction false} MarkedMembers(p: Params, data: seq<Record>, cat: Category, c: Coord)
    ensures c in Marked(p, data, cat) <==>
      exists i :: 0 <= i < |data| && data[i].pos == c && Classify(p, data[i]) == cat
  {
    if data != [] {
      var n := |data| - 1;
      var front := data[..n];
      MarkedMembers(p, front, cat, c);
      if c in Marked(p, front, cat) {
        var i :| 0 <= i < |front| && front[i].pos == c && Classify(p, front[i]) == cat;
        assert data[i] == front[i];
      }
      if exists i :: 0 <= i < |data| && data[i].pos == c && Classify(p, data[i]) == cat {
        var i :| 0 <= i < |data| && data[i].pos == c && Classify(p, data[i]) == cat;
        if i < n {
          assert front[i] == data[i];
        }
      }
    }
  }

  /** Membership of a coordinate in terms of the records that carry it. */
  lemma MarkedRecord(p: Params, data: seq<Record>, cat: Category, i: int)
    requires 0 <= i < |data|
    ensures Classify(p, data[i]) == cat ==> data[i].pos in Marked(p, data, cat)
  {

  }

  /** For a consistent registry a coordinate is marked only with the category
      of its own records. */
  lemma MarkedOnlyOwnCategory(p: Params, data: seq<Record>, cat: Category, i: int)
    requires Consistent(data)
    requires 0 <= i < |data|
    ensures data[i].pos in Marked(p, data, cat) <==> Classify(p, data[i]) == cat
  {
    MarkedMembers(p, data, cat, data[i].pos);
  }

  /** Boundary behaviour of the first pass: the border test is strict, so a
      region exactly on the border is kept; the spawn test is strict, so a
      region exactly at the spawn radius is not spawn. */
  lemma ClassifyBoundaries(p: Params, r: Record)
    ensures Chebyshev(r.pos, p.center) == p.border ==> Classify(p, r) != Outside
    ensures Chebyshev(r.pos, p.center) == p.border + 1 ==> Classify(p, r) == Outside
    ensures Chebyshev(r.pos, p.center) == p.spawn ==> Classify(p, r) != Spawn
    ensures Chebyshev(r.pos, p.center) == p.spawn - 1 && p.spawn <= p.border ==> Classify(p, r) == Spawn
    ensures Classify(p, r) == Inhabited ==> r.maxInhabited >= p.threshold
    ensures Classify(p, r) == Uninhabited ==> Chebyshev(r.pos, p.center) <= p.border && r.maxInhabited < p.threshold
  {
  }

  /** The five collections together hold exactly the registry's coordinates. */
  lemma AnalysisCovers(p: Params, data: seq<Record>)
    ensures var a := AnalysisOf(p, data);
      a.spawn + a.inhabited + a.connected + a.uninhabited + a.outside == Coords(data)
  {
    var a := AnalysisOf(p, data);
    forall c | c in a.spawn + a.inhabited + a.connected + a.uninhabited + a.outside
      ensures c in Coords(data)
    {
      var cat := if c in a.spawn then Spawn else if c in a.inhabited then Inhabited
                 else if c in a.outside then Outside else Uninhabited;
      MarkedMembers(p, data, cat, c);
    }
    forall c | c in Coords(data)
      ensures c in a.spawn + a.inhabited + a.connected + a.uninhabited + a.outside
    {
      var i :| 0 <= i < |data| && data[i].pos == c;
      MarkedRecord(p, data, Classify(p, data[i]), i);
    }
  }

  /** Where one record of a consistent registry ends up: outside iff beyond
      the border; spawn iff within the border and strictly inside the spawn
      radius; inhabited iff otherwise at or above the threshold; connected iff
      otherwise an axis neighbour is inhabited; uninhabited in the remaining
      case. */
  lemma RecordPlacement(p: Params, data: seq<Record>, i: int)
    requires Consistent(data)
    requires 0 <= i < |data|
    ensures var a := AnalysisOf(p, data);
      var c := data[i].pos;
      var d := Chebyshev(c, p.center);
      && (c in a.outside <==> d > p.border)
      && (c in a.spawn <==> d <= p.border && d < p.spawn)
      && (c in a.inhabited <==> p.spawn <= d <= p.border && data[i].maxInhabited >= p.threshold)
      && (c in a.connected <==> Classify(p, data[i]) == Uninhabited && Touches(c, a.inhabited))
      && (c in a.uninhabited <==> Classify(p, data[i]) == Uninhabited && !Touches(c, a.inhabited))
  {
    MarkedOnlyOwnCategory(p, data, Outside, i);
    MarkedOnlyOwnCategory(p, data, Spawn, i);
    MarkedOnlyOwnCategory(p, data, Inhabited, i);
    MarkedOnlyOwnCategory(p, data, Uninhabited, i);
  }

  /** A coordinate's distance alone makes it outside or spawn, so for every
      registry, consistent or not, outside and spawn share no coordinate with
      any other collection, and the rescue splits connected from the final
      uninhabited set. */
  lemma DistanceSetsDisjoint(p: Params, data: seq<Record>)
    ensures var a := AnalysisOf(p, data);
      && a.spawn !! a.inhabited && a.spawn !! a.connected && a.spawn !! a.uninhabited
      && a.spawn !! a.outside && a.inhabited !! a.outside && a.connected !! a.outside
      && a.uninhabited !! a.outside && a.connected !! a.uninhabited
  {
    var a := AnalysisOf(p, data);
    forall c | c in a.outside
      ensures c !in a.spawn && c !in a.inhabited && c !in Marked(p, data, Uninhabited)
    {
      MarkedMembers(p, data, Outside, c);
      MarkedMembers(p, data, Spawn, c);
      MarkedMembers(p, data, Inhabited, c);
      MarkedMembers(p, data, Uninhabited, c);
    }
    forall c | c in a.spawn
      ensures c !in a.inhabited && c !in Marked(p, data, Uninhabited)
    {
      MarkedMembers(p, data, Spawn, c);
      MarkedMembers(p, data, Inhabited, c);
      MarkedMembers(p, data, Uninhabited, c);
    }
  }

  /** For a consistent registry the inhabited set is also disjoint from
      connected and from the final uninhabited set; with
      DistanceSetsDisjoint, all five collections are then pairwise disjoint. */
  lemma AnalysisDisjoint(p: Params, data: seq<Record>)
    requires Consistent(data)
    ensures var a := AnalysisOf(p, data);
      a.inhabited !! a.connected && a.inhabited !! a.uninhabited
  {
    var a := AnalysisOf(p, data);
    forall c | c in a.inhabited
      ensures c !in Marked(p, data, Uninhabited)
    {
      MarkedMembers(p, data, Inhabited, c);
      var i :| 0 <= i < |data| && data[i].pos == c && Classify(p, data[i]) == Inhabited;
      MarkedOnlyOwnCategory(p, data, Uninhabited, i);
    }
  }

  /** Without consistency inhabited and uninhabited can overlap: two records
      of (0,0) with values 0 and 20000 put it in both the inhabited and the
      final uninhabited set (its only low-activity neighbour is (1,0)). */
  lemma InconsistentOverlap()
    ensures var p := Params(Coord(0, 0), 5, 0, 18000);
      var data := [Record(Coord(0, 0), 0), Record(Coord(0, 0), 20000), Record(Coord(1, 0), 0)];
      var a := AnalysisOf(p, data);
      !Consistent(data) && Coord(0, 0) in a.inhabited && Coord(0, 0) in a.uninhabited
  {
    var p := Params(Coord(0, 0), 5, 0, 18000);
    var data := [Record(Coord(0, 0), 0), Record(Coord(0, 0), 20000), Record(Coord(1, 0), 0)];
    assert data[0].pos == data[1].pos && data[0].maxInhabited != data[1].maxInhabited;
    assert data[..2] == [Record(Coord(0, 0), 0), Record(Coord(0, 0), 20000)];
    assert data[..2][..1] == [Record(Coord(0, 0), 0)];
    assert data[..2][..1][..0] == [];
    assert Marked(p, data[..2][..1], Uninhabited) == {Coord(0, 0)};
    assert Marked(p, data[..2][..1], Inhabited) == {};
    assert Marked(p, data[..2], Uninhabited) == {Coord(0, 0)};
    assert Marked(p, data[..2], Inhabited) == {Coord(0, 0)};
    assert Marked(p, data, Uninhabited) == {Coord(0, 0), Coord(1, 0)};
    assert Marked(p, data, Inhabited) == {Coord(0, 0)};
    assert !Touches(Coord(0, 0), {Coord(0, 0)});
  }

  /** Connected and the final uninhabited set split the provisional
      uninhabited set, and a rescue needs an inhabited axis neighbour. */
  lemma RescueSplitsProvisional(p: Params, data: seq<Record>)
    ensures var a := AnalysisOf(p, data);
      && a.connected + a.uninhabited == Marked(p, data, Uninhabited)
      && a.connected !! a.uninhabited
      && (forall c :: c in a.connected ==> Touches(c, a.inhabited))
      && (forall c :: c in a.uninhabited ==> !Touches(c, a.inhabited))
  {
  }

  /** A registry with an inhabited region at (0,0), a low-activity one at
      (1,0) and one at (10,0), border 5, spawn 0, threshold 18000: (0,0) is
      inhabited, (1,0) is connected, (10,0) is outside and nothing is
      uninhabited. */
  lemma EndToEndExample()
    ensures var p := Params(Coord(0, 0), 5, 0, 18000);
      var data := [Record(Coord(0, 0), 20000), Record(Coord(1, 0), 0), Record(Coord(10, 0), 0)];
      AnalysisOf(p, data) == Classification({}, {Coord(0, 0)}, {Coord(1, 0)}, {}, {Coord(10, 0)})
  {
    var p := Params(Coord(0, 0), 5, 0, 18000);
    var data := [Record(Coord(0, 0), 20000), Record(Coord(1, 0), 0), Record(Coord(10, 0), 0)];
    assert data[..2] == [Record(Coord(0, 0), 20000), Record(Coord(1, 0), 0)];
    assert data[..2][..1] == [Record(Coord(0, 0), 20000)];
    assert data[..2][..1][..0] == [];
    assert Marked(p, data[..2][..1], Uninhabited) == {};
    assert Marked(p, data[..2][..1], Inhabited) == {Coord(0, 0)};
    assert Marked(p, data[..2], Uninhabited) == {Coord(1, 0)};
    assert Marked(p, data[..2], Inhabited) == {Coord(0, 0)};
    assert Marked(p, data, Uninhabited) == {Coord(1, 0)};
    assert Marked(p, data, Inhabited) == {Coord(0, 0)};
    assert Marked(p, data[..2][..1][..0], Outside) == {} && Marked(p, data[..2][..1][..0], Spawn) == {};
    assert Marked(p, data[..2][..1], Spawn) == {} && Marked(p, data[..2][..1], Outside) == {};
    assert Marked(p, data[..2], Spawn) == {} && Marked(p, data[..2], Outside) == {};
    assert Classify(p, data[2]) == Outside;
    assert Marked(p, data, Outside) == Marked(p, data[..2], Outside) + {data[2].pos};
    assert Marked(p, data, Spawn) == {} && Marked(p, data, Outside) == {Coord(10, 0)};
    assert Touches(Coord(1, 0), {Coord(0, 0)});
  }

  /** The rescue is not transitive and ignores diagonals: with (0,0)
      inhabited, (1,0) is rescued, while (2,0), whose only low-activity
      neighbour is the rescued (1,0), and the diagonal (1,1) stay
      uninhabited. */
  lemma RescueNotTransitive()
    ensures var p := Params(Coord(0, 0), 5, 0, 18000);
      var data := [Record(Coord(0, 0), 20000), Record(Coord(1, 0), 0), Record(Coord(2, 0), 0), Record(Coord(1, 1), 0)];
      var a := AnalysisOf(p, data);
      a.connected == {Coord(1, 0)} && a.uninhabited == {Coord(2, 0), Coord(1, 1)}
  {
    var p := Params(Coord(0, 0), 5, 0, 18000);
    var data := [Record(Coord(0, 0), 20000), Record(Coord(1, 0), 0), Record(Coord(2, 0), 0), Record(Coord(1, 1), 0)];
    assert data[..3] == [Record(Coord(0, 0), 20000), Record(Coord(1, 0), 0), Record(Coord(2, 0), 0)];
    assert data[..3][..2] == [Record(Coord(0, 0), 20000), Record(Coord(1, 0), 0)];
    assert data[..3][..2][..1] == [Record(Coord(0, 0), 20000)];
    assert data[..3][..2][..1][..0] == [];
    assert Marked(p, data[..3][..2][..1], Uninhabited) == {};
    assert Marked(p, data[..3][..2][..1], Inhabited) == {Coord(0, 0)};
    assert Marked(p, data[..3][..2], Uninhabited) == {Coord(1, 0)};
    assert Marked(p, data[..3][..2], Inhabited) == {Coord(0, 0)};
    assert Marked(p, data[..3], Uninhabited) == {Coord(1, 0), Coord(2, 0)};
    assert Marked(p, data[..3], Inhabited) == {Coord(0, 0)};
    assert Marked(p, data, Uninhabited) == {Coord(1, 0), Coord(2, 0), Coord(1, 1)};
    assert Marked(p, data, Inhabited) == {Coord(0, 0)};
    assert Touches(Coord(1, 0), {Coord(0, 0)});
    assert !Touches(Coord(2, 0), {Coord(0, 0)});
    assert !Touches(Coord(1, 1), {Coord(0, 0)});
  }
}
