/** The region map of do_show (Application.paint): a (2*border+1)^2 RGBA
    raster in which every classified region inside the border gets the colour
    of the last set, in paint order, that holds it. */
module Show {
  import opened Geometry
  import opened Analysis

  /** One RGBA pixel. */
  datatype Color = Color(r: int, g: int, b: int, a: int)

  const Clear := Color(0, 0, 0, 0)
  const White := Color(255, 255, 255, 255)
  const Green := Color(0, 255, 0, 255)
  const Yellow := Color(255, 255, 0, 255)
  const Red := Color(255, 0, 0, 255)

  /** The raster row and column paint writes for region c. */
  function Row(p: Params, c: Coord): int
  {
    c.z + p.border - p.center.z
  }

  function Col(p: Params, c: Coord): int
  {
    c.x + p.border - p.center.x
  }

  /** The region a pixel stands for. */
  function PixelCoord(p: Params, row: int, col: int): Coord
  {
    Coord(col - p.border + p.center.x, row - p.border + p.center.z)
  }

  /** A region within the border has a pixel inside the raster, and that
      pixel stands for the region. */
  lemma PixelOfRegion(p: Params, c: Coord)
    requires Chebyshev(c, p.center) <= p.border
    ensures 0 <= Row(p, c) <= 2 * p.border && 0 <= Col(p, c) <= 2 * p.border
    ensures PixelCoord(p, Row(p, c), Col(p, c)) == c
  {
  }

  /** paint: every pixel of a region in `regions` takes `color`; no other
      pixel changes. */
  method Paint(img: array2<Color>, p: Params, regions: set<Coord>, color: Color)
    requires img.Length0 == 2 * p.border + 1 && img.Length1 == 2 * p.border + 1
    requires forall c :: c in regions ==> Chebyshev(c, p.center) <= p.border
    modifies img
    ensures forall i, j :: 0 <= i < img.Length0 && 0 <= j < img.Length1 ==>
      img[i, j] == if PixelCoord(p, i, j) in regions then color else old(img[i, j])
  {
    var todo := regions;
    while todo != {}
      invariant todo <= regions
      invariant forall i, j :: 0 <= i < img.Length0 && 0 <= j < img.Length1 ==>
        img[i, j] == if PixelCoord(p, i, j) in regions - todo then color else old(img[i, j])
      decreases todo
    {
      var c :| c in todo;
      PixelOfRegion(p, c);
      img[Row(p, c), Col(p, c)] := color;
      todo := todo - {c};
    }
  }

  /** The colour a region ends up with after painting spawn white, inhabited
      green, connected yellow and uninhabited red, in that order: the last set
      that holds it decides. */
  function MapColor(a: Classification, c: Coord): Color
  {
    if c in a.uninhabited then Red
    else if c in a.connected then Yellow
    else if c in a.inhabited then Green
    else if c in a.spawn then White
    else Clear
  }

  /** Every region of the four painted sets lies within the border. */
  lemma PaintedWithinBorder(p: Params, data: seq<Record>)
    ensures var a := AnalysisOf(p, data);
      forall c :: c in a.spawn + a.inhabited + a.connected + a.uninhabited ==> Chebyshev(c, p.center) <= p.border
  {
    var a := AnalysisOf(p, data);
    forall c | c in a.spawn + a.inhabited + a.connected + a.uninhabited
      ensures Chebyshev(c, p.center) <= p.border
    {
      var cat := if c in a.spawn then Spawn else if c in a.inhabited then Inhabited else Uninhabited;
      MarkedMembers(p, data, cat, c);
    }
  }

  /** do_show's raster: classify, allocate a transparent raster and paint the
      four sets in order. */
  method ShowMap(p: Params, data: seq<Record>) returns (img: array2<Color>)
    requires p.border >= 0
    ensures fresh(img)
    ensures img.Length0 == 2 * p.border + 1 && img.Length1 == 2 * p.border + 1
    ensures forall i, j :: 0 <= i < img.Length0 && 0 <= j < img.Length1 ==>
      img[i, j] == MapColor(AnalysisOf(p, data), PixelCoord(p, i, j))
  {
    var a := Analyze(p, data);
    PaintedWithinBorder(p, data);
    var size := 2 * p.border + 1;
    img := new Color[size, size]((i, j) => Clear);
    Paint(img, p, a.spawn, White);
    Paint(img, p, a.inhabited, Green);
    Paint(img, p, a.connected, Yellow);
    Paint(img, p, a.uninhabited, Red);
  }

  /** For a consistent registry the map shows each record's own category:
      nothing for outside, white for spawn, green for inhabited, yellow for
      rescued and red for uninhabited; coordinates not in the registry stay
      transparent. */
  lemma MapShowsCategory(p: Params, data: seq<Record>, i: int)
    requires Consistent(data)
    requires 0 <= i < |data|
    ensures var a := AnalysisOf(p, data);
      var c := data[i].pos;
      MapColor(a, c) == match Classify(p, data[i])
        case Outside => Clear
        case Spawn => White
        case Inhabited => Green
        case Uninhabited => if Touches(c, a.inhabited) then Yellow else Red
  {
    RecordPlacement(p, data, i);
  }

  lemma MapBlankOffRegistry(p: Params, data: seq<Record>, c: Coord)
    requires c !in Coords(data)
    ensures MapColor(AnalysisOf(p, data), c) == Clear
  {
    AnalysisCovers(p, data);
  }
}
