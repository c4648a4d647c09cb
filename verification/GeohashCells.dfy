/** Geohash cells as bit strings: interleaved bisection of longitude and latitude.
    Coordinates are exact reals; the 30 halvings of the longest hash are exact in `float64`. */
module GeohashCells {
  datatype Coord = Coord(lat: real, lon: real)

  datatype Interval = Interval(lo: real, hi: real) {
    function Mid(): real {
      (lo + hi) / 2.0
    }

    function Half(upper: bool): Interval {
      if upper then Interval(Mid(), hi) else Interval(lo, Mid())
    }

    predicate Has(x: real) {
      lo <= x <= hi
    }

    predicate Inside(x: real) {
      lo < x < hi
    }

    predicate Covers(other: Interval) {
      lo <= other.lo && other.hi <= hi
    }

    function Clamp(x: real): real {
      if x < lo then lo else if x > hi then hi else x
    }
  }

  datatype Box = Box(lon: Interval, lat: Interval) {
    predicate Contains(c: Coord) {
      lon.Has(c.lon) && lat.Has(c.lat)
    }

    predicate Inside(c: Coord) {
      lon.Inside(c.lon) && lat.Inside(c.lat)
    }

    predicate Covers(other: Box) {
      lon.Covers(other.lon) && lat.Covers(other.lat)
    }

    function Center(): Coord {
      Coord(lat.Mid(), lon.Mid())
    }
  }

  const WORLD := Box(Interval(-180.0, 180.0), Interval(-90.0, 90.0))

  // ----- Cells as bit strings -----

  /** Even positions halve the longitude, odd positions the latitude. */
  predicate IsLon(k: nat) {
    k % 2 == 0
  }

  function Narrow(box: Box, isLon: bool, bit: bool): Box {
    if isLon then box.(lon := box.lon.Half(bit)) else box.(lat := box.lat.Half(bit))
  }

  function BoxOf(bits: seq<bool>): Box {
    if bits == [] then WORLD
    else var n := |bits| - 1; Narrow(BoxOf(bits[..n]), IsLon(n), bits[n])
  }

  predicate BitAt(box: Box, isLon: bool, c: Coord) {
    if isLon then c.lon >= box.lon.Mid() else c.lat >= box.lat.Mid()
  }

  function EncodeBits(c: Coord, n: nat): (bits: seq<bool>)
    ensures |bits| == n
  {
    if n == 0 then []
    else var bits := EncodeBits(c, n - 1); bits + [BitAt(BoxOf(bits), IsLon(n - 1), c)]
  }

  lemma BoxOfNext(bits: seq<bool>, b: bool)
    ensures BoxOf(bits + [b]) == Narrow(BoxOf(bits), IsLon(|bits|), b)
  {
    assert (bits + [b])[..|bits|] == bits;
  }

  /** Every cell is a proper part of the world. */
  lemma {:induction false} BoxIsProper(bits: seq<bool>)
    ensures var b := BoxOf(bits); b.lon.lo < b.lon.hi && b.lat.lo < b.lat.hi && WORLD.Covers(b)
  {
    if bits != [] {
      BoxIsProper(bits[..|bits| - 1]);
    }
  }

  lemma {:induction false} PrefixCovers(bits: seq<bool>, m: nat)
    requires m <= |bits|
    ensures BoxOf(bits[..m]).Covers(BoxOf(bits))
    decreases |bits| - m
  {
    if m < |bits| {
      PrefixCovers(bits, m + 1);
      assert bits[..m + 1] == bits[..m] + [bits[m]];
      BoxOfNext(bits[..m], bits[m]);
      BoxIsProper(bits[..m]);
    } else {
      assert bits[..m] == bits;
    }
  }

  // ----- Encoding and decoding agree -----

  function ClampToWorld(c: Coord): Coord {
    Coord(WORLD.lat.Clamp(c.lat), WORLD.lon.Clamp(c.lon))
  }

  /** The cell of a point holds the point, or the nearest point of the world. */
  lemma {:induction false} CellHoldsPoint(c: Coord, n: nat)
    ensures BoxOf(EncodeBits(c, n)).Contains(ClampToWorld(c))
  {
    if n > 0 {
      var bits := EncodeBits(c, n - 1);
      CellHoldsPoint(c, n - 1);
      BoxIsProper(bits);
      BoxOfNext(bits, BitAt(BoxOf(bits), IsLon(n - 1), c));
    }
  }

  /** Any point strictly inside a cell is encoded as that cell. */
  lemma {:induction false} InsideEncodes(bits: seq<bool>, c: Coord)
    requires BoxOf(bits).Inside(c)
    ensures EncodeBits(c, |bits|) == bits
  {
    if bits != [] {
      var n := |bits| - 1;
      var prefix := bits[..n];
      assert bits == prefix + [bits[n]];
      BoxIsProper(prefix);
      InsideEncodes(prefix, c);
    }
  }

  /** The cells share their edges so that each point of the world is in one cell: a cell has its lower edges, and
      its upper ones only at the edge of the world. */
  predicate Owns(box: Box, c: Coord) {
    && box.lon.lo <= c.lon && (c.lon < box.lon.hi || (c.lon == 180.0 && box.lon.hi == 180.0))
    && box.lat.lo <= c.lat && (c.lat < box.lat.hi || (c.lat == 90.0 && box.lat.hi == 90.0))
  }

  /** A point of the world is encoded as a cell if and only if the cell owns it. */
  lemma {:induction false} EncodesExactly(c: Coord, bits: seq<bool>)
    requires -180.0 <= c.lon <= 180.0 && -90.0 <= c.lat <= 90.0
    ensures EncodeBits(c, |bits|) == bits <==> Owns(BoxOf(bits), c)
  {
    if bits != [] {
      var n := |bits| - 1;
      var prefix := bits[..n];
      assert bits == prefix + [bits[n]];
      BoxIsProper(prefix);
      EncodesExactly(c, prefix);
      LastBitOwns(c, BoxOf(prefix), IsLon(n), bits[n]);
      hide BoxOf, Owns, BitAt, Narrow;
      assert EncodeBits(c, n + 1)[..n] == EncodeBits(c, n);
    }
  }

  lemma LastBitOwns(c: Coord, box: Box, isLon: bool, bit: bool)
    requires box.lon.lo < box.lon.hi <= 180.0 && box.lat.lo < box.lat.hi <= 90.0
    ensures Owns(Narrow(box, isLon, bit), c) <==> Owns(box, c) && BitAt(box, isLon, c) == bit
  {
  }

  lemma CenterIsInside(bits: seq<bool>)
    ensures BoxOf(bits).Inside(BoxOf(bits).Center())
  {
    BoxIsProper(bits);
  }

  /** Encoding at a lower precision gives a prefix. */
  lemma {:induction false} LowerPrecisionIsPrefix(c: Coord, m: nat, n: nat)
    requires m <= n
    ensures EncodeBits(c, m) == EncodeBits(c, n)[..m]
    decreases n
  {
    if m < n {
      LowerPrecisionIsPrefix(c, m, n - 1);
    }
  }

  lemma {:induction false} Sizes(a: seq<bool>, b: seq<bool>)
    requires |a| <= |b|
    ensures Width(BoxOf(b).lon) <= Width(BoxOf(a).lon) && Width(BoxOf(b).lat) <= Width(BoxOf(a).lat)
    ensures |a| < |b| ==> Width(BoxOf(b).lon) < Width(BoxOf(a).lon) || Width(BoxOf(b).lat) < Width(BoxOf(a).lat)
    ensures |a| == |b| ==> Width(BoxOf(b).lon) == Width(BoxOf(a).lon) && Width(BoxOf(b).lat) == Width(BoxOf(a).lat)
    decreases |a| + |b|
  {
    if b != [] {
      BoxIsProper(b[..|b| - 1]);
      if |a| < |b| {
        Sizes(a, b[..|b| - 1]);
      } else {
        Sizes(a[..|a| - 1], b[..|b| - 1]);
      }
    }
  }

  function Width(i: Interval): real {
    i.hi - i.lo
  }

  /** One cell contains another exactly when its bits are a prefix of the other's. */
  lemma ContainmentIsPrefix(a: seq<bool>, b: seq<bool>)
    ensures a <= b <==> BoxOf(a).Covers(BoxOf(b))
  {
    if a <= b {
      PrefixCovers(b, |a|);
      assert b[..|a|] == a;
    }
    if BoxOf(a).Covers(BoxOf(b)) {
      if |b| < |a| {
        Sizes(b, a);
      } else {
        var c := BoxOf(b).Center();
        CenterIsInside(b);
        InsideEncodes(b, c);
        InsideEncodes(a, c);
        LowerPrecisionIsPrefix(c, |a|, |b|);
      }
    }
  }

  // ----- Cells on the grid -----

  datatype Axis = Axis(index: nat, cells: nat)

  /** Position of a cell among the equal slices of one axis. */
  function LonAxis(bits: seq<bool>): (a: Axis)
    ensures a.index < a.cells
  {
    if bits == [] then Axis(0, 1)
    else
      var n := |bits| - 1;
      var a := LonAxis(bits[..n]);
      if IsLon(n) then Axis(2 * a.index + (if bits[n] then 1 else 0), 2 * a.cells) else a
  }

  function LatAxis(bits: seq<bool>): (a: Axis)
    ensures a.index < a.cells
  {
    if bits == [] then Axis(0, 1)
    else
      var n := |bits| - 1;
      var a := LatAxis(bits[..n]);
      if IsLon(n) then a else Axis(2 * a.index + (if bits[n] then 1 else 0), 2 * a.cells)
  }

  /** `k` steps of width `w`. */
  function Times(k: int, w: real): real {
    k as real * w
  }

  /** Interval `i` is slice `a.index` of `a.cells` equal slices of `whole`. */
  predicate Slice(whole: Interval, i: Interval, a: Axis) {
    && Width(i) > 0.0
    && Times(a.cells, Width(i)) == Width(whole)
    && i.lo == whole.lo + Times(a.index, Width(i))
  }

  lemma TimesDoubled(k: int, w: real)
    ensures Times(2 * k, w / 2.0) == Times(k, w)
  {
  }

  lemma TimesNext(k: int, w: real)
    ensures Times(k + 1, w) == Times(k, w) + w
  {
  }

  lemma TimesOrdered(a: int, b: int, w: real)
    requires a <= b && w > 0.0
    ensures Times(a, w) <= Times(b, w)
  {
    var d: real := (b - a) as real;
    assert d * w >= 0.0;
    assert Times(b, w) == Times(a, w) + d * w;
  }

  lemma HalfOfSlice(whole: Interval, i: Interval, a: Axis, bit: bool)
    requires Slice(whole, i, a)
    ensures Slice(whole, i.Half(bit), Axis(2 * a.index + (if bit then 1 else 0), 2 * a.cells))
  {
    hide Times;
    var w := Width(i);
    assert Width(i.Half(bit)) == w / 2.0;
    TimesDoubled(a.cells, w);
    TimesDoubled(a.index, w);
    TimesNext(2 * a.index, w / 2.0);
  }

  lemma {:induction false} CellsAreSlices(bits: seq<bool>)
    ensures Slice(WORLD.lon, BoxOf(bits).lon, LonAxis(bits))
    ensures Slice(WORLD.lat, BoxOf(bits).lat, LatAxis(bits))
  {
    if bits != [] {
      var n := |bits| - 1;
      CellsAreSlices(bits[..n]);
      if IsLon(n) {
        HalfOfSlice(WORLD.lon, BoxOf(bits[..n]).lon, LonAxis(bits[..n]), bits[n]);
      } else {
        HalfOfSlice(WORLD.lat, BoxOf(bits[..n]).lat, LatAxis(bits[..n]), bits[n]);
      }
    }
  }

  lemma {:induction false} SameLengthSameGrid(a: seq<bool>, b: seq<bool>)
    requires |a| == |b|
    ensures LonAxis(a).cells == LonAxis(b).cells && LatAxis(a).cells == LatAxis(b).cells
  {
    if a != [] {
      SameLengthSameGrid(a[..|a| - 1], b[..|b| - 1]);
    }
  }

  /** Two cells of one length at the same place are the same cell. */
  lemma PlaceDeterminesCell(a: seq<bool>, b: seq<bool>)
    requires |a| == |b| && LonAxis(a).index == LonAxis(b).index && LatAxis(a).index == LatAxis(b).index
    ensures a == b
  {
    CellsAreSlices(a);
    CellsAreSlices(b);
    Sizes(a, b);
    CenterIsInside(a);
    InsideEncodes(a, BoxOf(a).Center());
    InsideEncodes(b, BoxOf(a).Center());
  }

  function ClampIndex(k: int, cells: nat): int {
    if k < 0 then 0 else if k >= cells then cells - 1 else k
  }

  /** The slice that holds the middle of slice `k`, or the outermost slice if `k` is off the grid. */
  lemma SliceOfMiddle(whole: Interval, i: Interval, a: Axis, k: int)
    requires Slice(whole, i, a) && a.index < a.cells
    requires i.Has(whole.Clamp(whole.lo + Times(k, Width(i)) + Width(i) / 2.0))
    ensures a.index == ClampIndex(k, a.cells)
  {
    var w := Width(i);
    assert Times(0, w) == 0.0 && Times(1, w) == w && Times(-1, w) == -w;
    hide Times;
    TimesNext(a.index, w);
    if k < 0 {
      TimesOrdered(k, -1, w);
      if a.index > 0 {
        TimesOrdered(1, a.index, w);
      }
    } else if k >= a.cells {
      TimesOrdered(a.cells, k, w);
      TimesNext(a.cells - 1, w);
      if a.index < a.cells - 1 {
        TimesOrdered(a.index + 1, a.cells - 1, w);
      }
    } else {
      TimesNext(k, w);
      TimesOrdered(0, k, w);
      TimesOrdered(k + 1, a.cells, w);
      if a.index < k {
        TimesOrdered(a.index + 1, k, w);
      } else if k < a.index {
        TimesOrdered(k + 1, a.index, w);
      }
    }
  }

  // ----- The eight neighbours -----

  /** Steps north and east: N, NE, E, SE, S, SW, W, NW. */
  const OFFSETS: seq<(int, int)> :=
    [(1, 0), (1, 1), (0, 1), (-1, 1), (-1, 0), (-1, -1), (0, -1), (1, -1)]

  /** The middle of the cell that many cells to the north and east, on or off the map. */
  function Target(box: Box, offset: (int, int)): Coord {
    Coord(box.lat.Mid() + Times(offset.0, Width(box.lat)), box.lon.Mid() + Times(offset.1, Width(box.lon)))
  }

  function Neighbor(bits: seq<bool>, k: nat): (n: seq<bool>)
    requires k < 8
    ensures |n| == |bits|
  {
    EncodeBits(Target(BoxOf(bits), OFFSETS[k]), |bits|)
  }

  predicate TouchesEdge(box: Box) {
    box.lon.lo == -180.0 || box.lon.hi == 180.0 || box.lat.lo == -90.0 || box.lat.hi == 90.0
  }

  /** Two closed boxes share at least a corner. */
  predicate Touch(a: Box, b: Box) {
    a.lon.lo <= b.lon.hi && b.lon.lo <= a.lon.hi && a.lat.lo <= b.lat.hi && b.lat.lo <= a.lat.hi
  }

  lemma TimesAdd(j: int, k: int, w: real)
    ensures Times(j + k, w) == Times(j, w) + Times(k, w)
  {
  }

  lemma AxisOfTarget(whole: Interval, i: Interval, a: Axis, d: int, j: Interval, b: Axis)
    requires Slice(whole, i, a) && Slice(whole, j, b) && Width(i) == Width(j)
    requires b.index < b.cells && a.cells == b.cells
    requires j.Has(whole.Clamp(i.Mid() + Times(d, Width(i))))
    ensures b.index == ClampIndex(a.index + d, a.cells)
  {
    hide Times;
    TimesAdd(a.index, d, Width(i));
    SliceOfMiddle(whole, j, b, a.index + d);
  }

  /** A neighbour lies the given number of cells away, or stops at the edge of the map. */
  lemma NeighborPlace(bits: seq<bool>, k: nat)
    requires k < 8
    ensures var n, (north, east) := Neighbor(bits, k), OFFSETS[k];
            && LonAxis(n).index == ClampIndex(LonAxis(bits).index + east, LonAxis(bits).cells)
            && LatAxis(n).index == ClampIndex(LatAxis(bits).index + north, LatAxis(bits).cells)
  {
    hide Times, BoxOf, EncodeBits, LonAxis, LatAxis, Slice;
    var box, n := BoxOf(bits), Neighbor(bits, k);
    CellsAreSlices(bits);
    CellsAreSlices(n);
    SameLengthSameGrid(bits, n);
    Sizes(bits, n);
    CellHoldsPoint(Target(box, OFFSETS[k]), |bits|);
    AxisOfTarget(WORLD.lon, box.lon, LonAxis(bits), OFFSETS[k].1, BoxOf(n).lon, LonAxis(n));
    AxisOfTarget(WORLD.lat, box.lat, LatAxis(bits), OFFSETS[k].0, BoxOf(n).lat, LatAxis(n));
  }

  lemma OuterSlices(whole: Interval, i: Interval, a: Axis)
    requires Slice(whole, i, a) && a.index < a.cells
    ensures i.lo == whole.lo <==> a.index == 0
    ensures i.hi == whole.hi <==> a.index == a.cells - 1
  {
    var w := Width(i);
    assert Times(0, w) == 0.0 && Times(1, w) == w;
    hide Times;
    TimesNext(a.index, w);
    if a.index > 0 {
      TimesOrdered(1, a.index, w);
    }
    if a.index < a.cells - 1 {
      TimesNext(a.index + 1, w);
      TimesOrdered(a.index + 2, a.cells, w);
    }
  }

  lemma SlicesTouch(whole: Interval, i: Interval, a: Axis, j: Interval, b: Axis)
    requires Slice(whole, i, a) && Slice(whole, j, b) && Width(i) == Width(j)
    ensures i.lo <= j.hi && j.lo <= i.hi <==> -1 <= a.index - b.index <= 1
  {
    hide Times;
    var w := Width(i);
    TimesNext(a.index, w);
    TimesNext(b.index, w);
    if a.index <= b.index + 1 {
      TimesOrdered(a.index, b.index + 1, w);
    } else {
      TimesNext(b.index + 1, w);
      TimesOrdered(b.index + 2, a.index, w);
    }
    if b.index <= a.index + 1 {
      TimesOrdered(b.index, a.index + 1, w);
    } else {
      TimesNext(a.index + 1, w);
      TimesOrdered(a.index + 2, b.index, w);
    }
  }

  predicate OnRim(bits: seq<bool>) {
    || LonAxis(bits).index == 0 || LonAxis(bits).index == LonAxis(bits).cells - 1
    || LatAxis(bits).index == 0 || LatAxis(bits).index == LatAxis(bits).cells - 1
  }

  lemma EdgeIsRim(bits: seq<bool>)
    ensures TouchesEdge(BoxOf(bits)) <==> OnRim(bits)
  {
    CellsAreSlices(bits);
    OuterSlices(WORLD.lon, BoxOf(bits).lon, LonAxis(bits));
    OuterSlices(WORLD.lat, BoxOf(bits).lat, LatAxis(bits));
  }

  predicate NextTo(a: seq<bool>, b: seq<bool>) {
    && -1 <= LonAxis(a).index - LonAxis(b).index <= 1
    && -1 <= LatAxis(a).index - LatAxis(b).index <= 1
  }

  lemma TouchIsNextTo(a: seq<bool>, b: seq<bool>)
    requires |a| == |b|
    ensures Touch(BoxOf(a), BoxOf(b)) <==> NextTo(a, b)
  {
    hide BoxOf, LonAxis, LatAxis, Slice;
    CellsAreSlices(a);
    CellsAreSlices(b);
    Sizes(a, b);
    SlicesTouch(WORLD.lon, BoxOf(a).lon, LonAxis(a), BoxOf(b).lon, LonAxis(b));
    SlicesTouch(WORLD.lat, BoxOf(a).lat, LatAxis(a), BoxOf(b).lat, LatAxis(b));
  }

  predicate IsNeighbor(bits: seq<bool>, g: seq<bool>) {
    exists k :: 0 <= k < 8 && g == Neighbor(bits, k)
  }

  /** The eight answers are different cells, and they are all the cells that share an edge or
      corner with the given one. */
  ghost predicate NeighborsRight(bits: seq<bool>) {
    && (forall j, k :: 0 <= j < k < 8 ==> Neighbor(bits, j) != Neighbor(bits, k))
    && (forall g :: |g| == |bits| ==> (IsNeighbor(bits, g) <==> g != bits && Touch(BoxOf(g), BoxOf(bits))))
  }

  lemma OffsetsDiffer(j: nat, k: nat)
    requires j < k < 8
    ensures OFFSETS[j] != OFFSETS[k]
  {
  }

  lemma OffsetFor(north: int, east: int) returns (k: nat)
    requires -1 <= north <= 1 && -1 <= east <= 1 && (north, east) != (0, 0)
    ensures k < 8 && OFFSETS[k] == (north, east)
  {
    k := if north == 1 then (if east == 0 then 0 else if east == 1 then 1 else 7)
         else if north == 0 then (if east == 1 then 2 else 6)
         else (if east == 1 then 3 else if east == 0 then 4 else 5);
  }

  lemma InnerNeighborIsExact(bits: seq<bool>, g: seq<bool>)
    requires |g| == |bits| && !OnRim(bits)
    ensures IsNeighbor(bits, g) <==> g != bits && Touch(BoxOf(g), BoxOf(bits))
  {
    hide Neighbor, LonAxis, LatAxis, BoxOf, Touch;
    TouchIsNextTo(g, bits);
    if IsNeighbor(bits, g) {
      var k :| 0 <= k < 8 && g == Neighbor(bits, k);
      NeighborPlace(bits, k);
    }
    if g != bits && NextTo(g, bits) {
      var north, east := LatAxis(g).index - LatAxis(bits).index, LonAxis(g).index - LonAxis(bits).index;
      if north == 0 && east == 0 {
        PlaceDeterminesCell(g, bits);
      } else {
        var k := OffsetFor(north, east);
        NeighborPlace(bits, k);
        SameLengthSameGrid(g, bits);
        PlaceDeterminesCell(g, Neighbor(bits, k));
      }
    }
  }

  /** On the rim one step leads off the map, and the answer for it is the cell itself. */
  lemma RimCellIsItsOwnNeighbor(bits: seq<bool>)
    requires OnRim(bits)
    ensures IsNeighbor(bits, bits)
  {
    hide Neighbor, LonAxis, LatAxis;
    var k := if LonAxis(bits).index == 0 then 6
             else if LonAxis(bits).index == LonAxis(bits).cells - 1 then 2
             else if LatAxis(bits).index == 0 then 4
             else 0;
    NeighborPlace(bits, k);
    PlaceDeterminesCell(bits, Neighbor(bits, k));
  }

  /** The neighbours are right if and only if the cell does not touch the edge of the world. */
  lemma NeighborsRightExactlyInside(bits: seq<bool>)
    ensures NeighborsRight(bits) <==> !TouchesEdge(BoxOf(bits))
  {
    hide Neighbor, LonAxis, LatAxis, BoxOf, Touch, TouchesEdge, IsNeighbor;
    EdgeIsRim(bits);
    if OnRim(bits) {
      RimCellIsItsOwnNeighbor(bits);
    } else {
      forall g: seq<bool> | |g| == |bits|
        ensures IsNeighbor(bits, g) <==> g != bits && Touch(BoxOf(g), BoxOf(bits))
      {
        InnerNeighborIsExact(bits, g);
      }
      forall j, k | 0 <= j < k < 8
        ensures Neighbor(bits, j) != Neighbor(bits, k)
      {
        NeighborPlace(bits, j);
        NeighborPlace(bits, k);
        OffsetsDiffer(j, k);
      }
    }
  }

  lemma ShiftedSlice(whole: Interval, i: Interval, a: Axis, j: Interval, b: Axis, d: int)
    requires Slice(whole, i, a) && Slice(whole, j, b) && Width(i) == Width(j) && b.index == a.index + d
    ensures j.lo == i.lo + Times(d, Width(i)) && j.hi == i.hi + Times(d, Width(i))
  {
    hide Times;
    TimesAdd(a.index, d, Width(i));
  }

  /** Away from the edge the answers come in the order of the offsets, each one cell away. */
  lemma NeighborIsShifted(bits: seq<bool>, k: nat)
    requires k < 8 && !TouchesEdge(BoxOf(bits))
    ensures var box, n, (north, east) := BoxOf(bits), BoxOf(Neighbor(bits, k)), OFFSETS[k];
            && n.lon.lo == box.lon.lo + Times(east, Width(box.lon))
            && n.lon.hi == box.lon.hi + Times(east, Width(box.lon))
            && n.lat.lo == box.lat.lo + Times(north, Width(box.lat))
            && n.lat.hi == box.lat.hi + Times(north, Width(box.lat))
  {
    hide Neighbor, LonAxis, LatAxis, BoxOf, Slice, Times;
    EdgeIsRim(bits);
    var n := Neighbor(bits, k);
    NeighborPlace(bits, k);
    CellsAreSlices(bits);
    CellsAreSlices(n);
    Sizes(bits, n);
    ShiftedSlice(WORLD.lon, BoxOf(bits).lon, LonAxis(bits), BoxOf(n).lon, LonAxis(n), OFFSETS[k].1);
    ShiftedSlice(WORLD.lat, BoxOf(bits).lat, LatAxis(bits), BoxOf(n).lat, LatAxis(n), OFFSETS[k].0);
  }

  /** So the first answer lies north, the second northeast, and so on clockwise. */
  lemma NeighborsByCompass(bits: seq<bool>)
    requires !TouchesEdge(BoxOf(bits))
    ensures var box := BoxOf(bits);
            && BoxOf(Neighbor(bits, 0)).lat.lo == box.lat.hi && BoxOf(Neighbor(bits, 0)).lon == box.lon
            && BoxOf(Neighbor(bits, 1)).lat.lo == box.lat.hi && BoxOf(Neighbor(bits, 1)).lon.lo == box.lon.hi
            && BoxOf(Neighbor(bits, 2)).lat == box.lat && BoxOf(Neighbor(bits, 2)).lon.lo == box.lon.hi
            && BoxOf(Neighbor(bits, 3)).lat.hi == box.lat.lo && BoxOf(Neighbor(bits, 3)).lon.lo == box.lon.hi
            && BoxOf(Neighbor(bits, 4)).lat.hi == box.lat.lo && BoxOf(Neighbor(bits, 4)).lon == box.lon
            && BoxOf(Neighbor(bits, 5)).lat.hi == box.lat.lo && BoxOf(Neighbor(bits, 5)).lon.hi == box.lon.lo
            && BoxOf(Neighbor(bits, 6)).lat == box.lat && BoxOf(Neighbor(bits, 6)).lon.hi == box.lon.lo
            && BoxOf(Neighbor(bits, 7)).lat.lo == box.lat.hi && BoxOf(Neighbor(bits, 7)).lon.hi == box.lon.lo
  {
    hide BoxOf, Neighbor, TouchesEdge;
    OneStep(Width(BoxOf(bits).lon));
    OneStep(Width(BoxOf(bits).lat));
    hide Times;
    forall k: nat | k < 8
      ensures var box, n, (north, east) := BoxOf(bits), BoxOf(Neighbor(bits, k)), OFFSETS[k];
              && n.lon == Interval(box.lon.lo + Times(east, Width(box.lon)), box.lon.hi + Times(east, Width(box.lon)))
              && n.lat == Interval(box.lat.lo + Times(north, Width(box.lat)), box.lat.hi + Times(north, Width(box.lat)))
    {
      NeighborIsShifted(bits, k);
    }
  }

  lemma OneStep(w: real)
    ensures Times(0, w) == 0.0 && Times(1, w) == w && Times(-1, w) == -w
  {
  }
}
