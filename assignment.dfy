/** Assignment engine: matches each detected person to the nearest table of the
    grid whose distance is below an adaptive cutoff, and collects the matches in a
    seat -> person map in which a later person overwrites an earlier one. */
module Assignment {
  import opened Detections
  import opened Grids

  /** The engine's two tuning values (defaults 0.4 and 200 in the configuration). */
  datatype Settings = Settings(maxDistanceRatio: real, fallbackDistance: real)

  /** The constructor's default tuning values. */
  const DefaultSettings := Settings(0.4, 200.0)

  /** What the abstract point distance is assumed to satisfy where a lemma needs it:
      Euclidean distance is non-negative and symmetric. */
  ghost predicate IsDistance(dist: (Point, Point) -> real) {
    forall p, q :: dist(p, q) >= 0.0 && dist(p, q) == dist(q, p)
  }

  // ---------------------------------------------------------------------------
  // The adaptive cutoff

  /** Centers of the tables met by a scan, in scan order. */
  function Centers(s: seq<Slot>): seq<Point> {
    if s == [] then [] else Centers(s[..|s| - 1]) + [s[|s| - 1].table.center]
  }

  /** The centers list has one entry per table met, the i-th table's center at index i. */
  lemma {:induction false} CentersOfSlots(s: seq<Slot>)
    ensures |Centers(s)| == |s|
    ensures forall i :: 0 <= i < |s| ==> Centers(s)[i] == s[i].table.center
    decreases |s|
  {
    if s != [] {
      CentersOfSlots(s[..|s| - 1]);
    }
  }

  /** Distances from center i to centers i+1 .. j-1, in that order. */
  function RowPairs(cs: seq<Point>, dist: (Point, Point) -> real, i: nat, j: nat): (ds: seq<real>)
    requires i < |cs| && j <= |cs|
    ensures |ds| == if j <= i + 1 then 0 else j - i - 1
    decreases j
  {
    if j <= i + 1 then [] else RowPairs(cs, dist, i, j - 1) + [dist(cs[i], cs[j - 1])]
  }

  /** Distances of all pairs (a, b), a < b, with a below i, in the order of the
      nested loops over a and then b. */
  function PairsBefore(cs: seq<Point>, dist: (Point, Point) -> real, i: nat): (ds: seq<real>)
    requires i <= |cs|
    ensures 0 < i && 2 <= |cs| ==> |ds| > 0
  {
    if i == 0 then [] else PairsBefore(cs, dist, i - 1) + RowPairs(cs, dist, i - 1, |cs|)
  }

  /** One step of the nested pair loops: pair (i, j) appends its distance. */
  lemma PairsStep(cs: seq<Point>, dist: (Point, Point) -> real, i: nat, j: nat)
    requires i < j < |cs|
    ensures PairsBefore(cs, dist, i) + RowPairs(cs, dist, i, j + 1) ==
            PairsBefore(cs, dist, i) + RowPairs(cs, dist, i, j) + [dist(cs[i], cs[j])]
  {
  }

  /** The inner pair loop over j starts empty and ends with all pairs of i listed. */
  lemma PairsRow(cs: seq<Point>, dist: (Point, Point) -> real, i: nat)
    requires i < |cs|
    ensures PairsBefore(cs, dist, i) + RowPairs(cs, dist, i, i + 1) == PairsBefore(cs, dist, i)
    ensures PairsBefore(cs, dist, i) + RowPairs(cs, dist, i, |cs|) == PairsBefore(cs, dist, i + 1)
  {
  }

  /** Distances between all pairs of table centers. */
  function PairDistances(cs: seq<Point>, dist: (Point, Point) -> real): seq<real> {
    PairsBefore(cs, dist, |cs|)
  }

  function Sum(xs: seq<real>): real {
    if xs == [] then 0.0 else Sum(xs[..|xs| - 1]) + xs[|xs| - 1]
  }

  /** `np.mean` of a non-empty list. */
  function Mean(xs: seq<real>): real
    requires xs != []
  {
    Sum(xs) / (|xs| as real)
  }

  /** `_get_max_allowed_distance`: ratio x the mean pairwise center distance when the
      grid holds at least two tables, the fallback distance otherwise. */
  function MaxAllowedDistance(v: seq<seq<Cell>>, settings: Settings, dist: (Point, Point) -> real): real {
    CutoffOf(Centers(GridSlots(v)), settings, dist)
  }

  /** The cutoff computed from the list of table centers. */
  function CutoffOf(cs: seq<Point>, settings: Settings, dist: (Point, Point) -> real): real {
    if |cs| > 1 then Mean(PairDistances(cs, dist)) * settings.maxDistanceRatio
    else settings.fallbackDistance
  }

  lemma {:induction false} PairsBeforeCount(cs: seq<Point>, dist: (Point, Point) -> real, i: nat)
    requires i <= |cs|
    ensures 2 * |PairsBefore(cs, dist, i)| == i * (2 * |cs| - i - 1)
  {
    if i > 0 {
      PairsBeforeCount(cs, dist, i - 1);
      var n := |cs|;
      assert (i - 1) * (2 * n - (i - 1) - 1) + 2 * (n - i) == i * (2 * n - i - 1);
    }
  }

  /** There is one distance per unordered pair of tables: n(n-1)/2 of them. */
  lemma PairDistancesCount(cs: seq<Point>, dist: (Point, Point) -> real)
    ensures 2 * |PairDistances(cs, dist)| == |cs| * (|cs| - 1)
  {
    PairsBeforeCount(cs, dist, |cs|);
  }

  /** Number of pairs (a', b'), a' < b' < n, whose first index is below a. */
  function PairOffset(a: nat, n: nat): nat
    requires a <= n
  {
    if a == 0 then 0 else PairOffset(a - 1, n) + (n - a)
  }

  /** Position of the pair (a, b) in the lexicographic order of all pairs a < b < n. */
  function PairIndex(a: nat, b: nat, n: nat): nat
    requires a < b < n
  {
    PairOffset(a, n) + (b - a - 1)
  }

  /** Pairs with a smaller first index come strictly earlier. */
  lemma {:induction false} PairOffsetGrows(a: nat, a': nat, n: nat)
    requires a < a' <= n
    ensures PairOffset(a, n) + (n - a - 1) <= PairOffset(a', n)
    decreases a'
  {
    if a' > a + 1 {
      PairOffsetGrows(a, a' - 1, n);
    }
  }

  /** Distinct pairs have distinct positions. */
  lemma PairIndexInjective(a: nat, b: nat, a': nat, b': nat, n: nat)
    requires a < b < n && a' < b' < n && PairIndex(a, b, n) == PairIndex(a', b', n)
    ensures a == a' && b == b'
  {
    if a < a' {
      PairOffsetGrows(a, a', n);
    } else if a' < a {
      PairOffsetGrows(a', a, n);
    }
  }

  lemma {:induction false} PairsBeforeLength(cs: seq<Point>, dist: (Point, Point) -> real, i: nat)
    requires i <= |cs|
    ensures |PairsBefore(cs, dist, i)| == PairOffset(i, |cs|)
  {
    if i > 0 { PairsBeforeLength(cs, dist, i - 1); }
  }

  /** Once the outer loop has passed a, the distance of pair (a, b) sits at the pair's
      lexicographic position. */
  lemma {:induction false} PairsBeforeAt(cs: seq<Point>, dist: (Point, Point) -> real, a: nat, b: nat, i: nat)
    requires a < i <= |cs| && a < b < |cs|
    ensures PairIndex(a, b, |cs|) < |PairsBefore(cs, dist, i)|
    ensures PairsBefore(cs, dist, i)[PairIndex(a, b, |cs|)] == dist(cs[a], cs[b])
    decreases i
  {
    var n := |cs|;
    var prev := PairsBefore(cs, dist, i - 1);
    var row := RowPairs(cs, dist, i - 1, n);
    assert PairsBefore(cs, dist, i) == prev + row;
    PairsBeforeLength(cs, dist, i - 1);
    if a == i - 1 {
      RowPairsFrom(cs, dist, a, n, b - a - 1);
      assert (prev + row)[|prev| + (b - a - 1)] == row[b - a - 1];
    } else {
      PairsBeforeAt(cs, dist, a, b, i - 1);
      assert (prev + row)[PairIndex(a, b, n)] == prev[PairIndex(a, b, n)];
    }
  }

  lemma {:induction false} RowPairsFrom(cs: seq<Point>, dist: (Point, Point) -> real, a: nat, j: nat, k: nat)
    requires a < |cs| && j <= |cs| && k < |RowPairs(cs, dist, a, j)|
    ensures a + 1 + k < |cs| && RowPairs(cs, dist, a, j)[k] == dist(cs[a], cs[a + 1 + k])
    decreases j
  {
    if k < |RowPairs(cs, dist, a, j - 1)| { RowPairsFrom(cs, dist, a, j - 1, k); }
  }

  /** Entry k comes from the k-th pair (a, b) in lexicographic order. */
  lemma {:induction false} PairsBeforeFrom(cs: seq<Point>, dist: (Point, Point) -> real, i: nat, k: nat)
    returns (a: nat, b: nat)
    requires i <= |cs| && k < |PairsBefore(cs, dist, i)|
    ensures a < b < |cs| && a < i && PairIndex(a, b, |cs|) == k
    ensures PairsBefore(cs, dist, i)[k] == dist(cs[a], cs[b])
    decreases i
  {
    var prev := PairsBefore(cs, dist, i - 1);
    PairsBeforeLength(cs, dist, i - 1);
    if k < |prev| {
      a, b := PairsBeforeFrom(cs, dist, i - 1, k);
    } else {
      RowPairsFrom(cs, dist, i - 1, |cs|, k - |prev|);
      a, b := i - 1, i + (k - |prev|);
    }
  }

  /** Position k is the lexicographic position of some pair a < b < n. */
  ghost predicate IsPairIndex(n: nat, k: nat) {
    exists a: nat, b: nat :: a < b < n && PairIndex(a, b, n) == k
  }

  /** The list the mean is taken over is exactly the pairwise center distances, one
      entry per pair: pair (a, b) sits at its lexicographic position `PairIndex`, which
      is one-to-one (`PairIndexInjective`), and every position belongs to a pair. */
  lemma PairDistancesArePairs(cs: seq<Point>, dist: (Point, Point) -> real)
    ensures forall a: nat, b: nat :: a < b < |cs| ==>
      PairIndex(a, b, |cs|) < |PairDistances(cs, dist)| &&
      PairDistances(cs, dist)[PairIndex(a, b, |cs|)] == dist(cs[a], cs[b])
    ensures forall k: nat :: k < |PairDistances(cs, dist)| ==> IsPairIndex(|cs|, k)
  {
    forall a: nat, b: nat | a < b < |cs|
      ensures PairIndex(a, b, |cs|) < |PairDistances(cs, dist)|
      ensures PairDistances(cs, dist)[PairIndex(a, b, |cs|)] == dist(cs[a], cs[b])
    {
      PairsBeforeAt(cs, dist, a, b, |cs|);
    }
    forall k: nat | k < |PairDistances(cs, dist)| ensures IsPairIndex(|cs|, k) {
      var a, b := PairsBeforeFrom(cs, dist, |cs|, k);
    }
  }

  lemma {:induction false} SumNonNegative(xs: seq<real>)
    requires forall i :: 0 <= i < |xs| ==> xs[i] >= 0.0
    ensures Sum(xs) >= 0.0
    decreases |xs|
  {
    if xs != [] { SumNonNegative(xs[..|xs| - 1]); }
  }

  lemma {:induction false} PairsBeforeNonNegative(cs: seq<Point>, dist: (Point, Point) -> real, i: nat)
    requires IsDistance(dist) && i <= |cs|
    ensures forall k :: 0 <= k < |PairsBefore(cs, dist, i)| ==> PairsBefore(cs, dist, i)[k] >= 0.0
  {
    forall k | 0 <= k < |PairsBefore(cs, dist, i)| ensures PairsBefore(cs, dist, i)[k] >= 0.0 {
      var a, b := PairsBeforeFrom(cs, dist, i, k);
    }
  }

  /** The cutoff is never negative when the tuning values are not. */
  lemma MaxAllowedDistanceNonNegative(v: seq<seq<Cell>>, settings: Settings, dist: (Point, Point) -> real)
    requires IsDistance(dist) && settings.maxDistanceRatio >= 0.0 && settings.fallbackDistance >= 0.0
    ensures MaxAllowedDistance(v, settings, dist) >= 0.0
  {
    var cs := Centers(GridSlots(v));
    if |cs| > 1 {
      PairsBeforeNonNegative(cs, dist, |cs|);
      SumNonNegative(PairDistances(cs, dist));
    }
  }

  /** Raising the ratio or the fallback never lowers the cutoff. */
  lemma MaxAllowedDistanceMonotone(v: seq<seq<Cell>>, lo: Settings, hi: Settings, dist: (Point, Point) -> real)
    requires IsDistance(dist)
    requires lo.maxDistanceRatio <= hi.maxDistanceRatio && lo.fallbackDistance <= hi.fallbackDistance
    ensures MaxAllowedDistance(v, lo, dist) <= MaxAllowedDistance(v, hi, dist)
  {
    var cs := Centers(GridSlots(v));
    if |cs| > 1 {
      var ds := PairDistances(cs, dist);
      PairsBeforeNonNegative(cs, dist, |cs|);
      SumNonNegative(ds);
      var m := Mean(ds);
      assert m >= 0.0;
      assert m * hi.maxDistanceRatio - m * lo.maxDistanceRatio == m * (hi.maxDistanceRatio - lo.maxDistanceRatio);
    }
  }

  // ---------------------------------------------------------------------------
  // Nearest table for one person

  /** Distance from a person's center to the table of a slot. */
  function SlotDistance(p: Point, s: Slot, dist: (Point, Point) -> real): real {
    dist(p, s.table.center)
  }

  /** Index of the slot a row-major scan settles on: a slot replaces the current best
      only when it is strictly closer and strictly below the cutoff. */
  function Nearest(s: seq<Slot>, p: Point, cutoff: real, dist: (Point, Point) -> real): (k: Option<nat>)
    ensures k.Some? ==> k.value < |s| && SlotDistance(p, s[k.value], dist) < cutoff
  {
    if s == [] then None
    else
      var prev := Nearest(s[..|s| - 1], p, cutoff, dist);
      var d := SlotDistance(p, s[|s| - 1], dist);
      if d < cutoff && (prev.None? || d < SlotDistance(p, s[prev.value], dist)) then Some(|s| - 1)
      else prev
  }

  /** The scan finds nothing exactly when no slot is below the cutoff; otherwise it finds
      a slot below the cutoff that is no farther than any qualifying slot and strictly
      closer than every qualifying slot before it (the first of the nearest wins). */
  lemma {:induction false} NearestIsFirstMinimum(s: seq<Slot>, p: Point, cutoff: real, dist: (Point, Point) -> real)
    ensures Nearest(s, p, cutoff, dist).None? <==>
      forall i :: 0 <= i < |s| ==> SlotDistance(p, s[i], dist) >= cutoff
    ensures Nearest(s, p, cutoff, dist).Some? ==>
      var k := Nearest(s, p, cutoff, dist).value;
      && (forall i :: 0 <= i < |s| && SlotDistance(p, s[i], dist) < cutoff ==>
            SlotDistance(p, s[k], dist) <= SlotDistance(p, s[i], dist))
      && (forall i :: 0 <= i < k && SlotDistance(p, s[i], dist) < cutoff ==>
            SlotDistance(p, s[k], dist) < SlotDistance(p, s[i], dist))
    decreases |s|
  {
    if s != [] {
      var init := s[..|s| - 1];
      NearestIsFirstMinimum(init, p, cutoff, dist);
      assert forall i :: 0 <= i < |init| ==> s[i] == init[i];
    }
  }

  /** Raising the cutoff never changes a slot already found. */
  lemma {:induction false} NearestStableUnderLargerCutoff(s: seq<Slot>, p: Point, lo: real, hi: real, dist: (Point, Point) -> real)
    requires lo <= hi && Nearest(s, p, lo, dist).Some?
    ensures Nearest(s, p, hi, dist) == Nearest(s, p, lo, dist)
    decreases |s|
  {
    var init := s[..|s| - 1];
    var prevLo := Nearest(init, p, lo, dist);
    if prevLo.Some? {
      NearestStableUnderLargerCutoff(init, p, lo, hi, dist);
    } else {
      NearestIsFirstMinimum(init, p, hi, dist);
      NearestIsFirstMinimum(init, p, lo, dist);
    }
  }

  /** The seat `_find_best_table` returns for a person at `p`. */
  function BestTable(v: seq<seq<Cell>>, p: Point, cutoff: real, dist: (Point, Point) -> real): Option<Pos> {
    var s := GridSlots(v);
    match Nearest(s, p, cutoff, dist)
    case None => None
    case Some(k) => Some(s[k].pos)
  }

  /** Cell (r, c) holds a table whose distance from `p` is below the cutoff. */
  predicate Qualifies(v: seq<seq<Cell>>, r: int, c: int, p: Point, cutoff: real, dist: (Point, Point) -> real) {
    0 <= r < |v| && 0 <= c < |v[r]| && v[r][c].Occupied? && dist(p, v[r][c].table.center) < cutoff
  }

  function CellDistance(v: seq<seq<Cell>>, pos: Pos, p: Point, dist: (Point, Point) -> real): real
    requires 0 <= pos.0 < |v| && 0 <= pos.1 < |v[pos.0]| && v[pos.0][pos.1].Occupied?
  {
    dist(p, v[pos.0][pos.1].table.center)
  }

  /** `_find_best_table` returns no seat exactly when no table is closer than the cutoff;
      a returned seat is an occupied cell of the grid, closer than the cutoff, no farther
      than any qualifying cell, and strictly closer than every qualifying cell that comes
      before it in row-major order. */
  lemma BestTableIsNearestQualifying(v: seq<seq<Cell>>, p: Point, cutoff: real, dist: (Point, Point) -> real)
    ensures BestTable(v, p, cutoff, dist).None? <==>
      forall r, c :: !Qualifies(v, r, c, p, cutoff, dist)
    ensures BestTable(v, p, cutoff, dist).Some? ==>
      var pos := BestTable(v, p, cutoff, dist).value;
      && Qualifies(v, pos.0, pos.1, p, cutoff, dist)
      && (forall r, c :: Qualifies(v, r, c, p, cutoff, dist) ==>
            CellDistance(v, pos, p, dist) <= dist(p, v[r][c].table.center))
      && (forall r, c :: Qualifies(v, r, c, p, cutoff, dist) && Before((r, c), pos) ==>
            CellDistance(v, pos, p, dist) < dist(p, v[r][c].table.center))
  {
    var s := GridSlots(v);
    GridSlotsSoundAndOrdered(v, |v|);
    NearestIsFirstMinimum(s, p, cutoff, dist);
    var best := Nearest(s, p, cutoff, dist);
    forall r, c | Qualifies(v, r, c, p, cutoff, dist)
      ensures best.Some?
      ensures best.Some? ==> CellDistance(v, s[best.value].pos, p, dist) <= dist(p, v[r][c].table.center)
      ensures best.Some? && Before((r, c), s[best.value].pos) ==>
        CellDistance(v, s[best.value].pos, p, dist) < dist(p, v[r][c].table.center)
    {
      var i := GridSlotsComplete(v, r, c);
      assert SlotDistance(p, s[i], dist) < cutoff;
      if best.Some? && Before((r, c), s[best.value].pos) {
        var k := best.value;
        assert i < k;
      }
    }
    if best.Some? {
      var k := best.value;
      assert SlotIn(v, s[k]);
    }
  }

  /** Raising the cutoff never moves a person who already has a seat; it can only seat
      persons who had none. */
  lemma BestTableStableUnderLargerCutoff(v: seq<seq<Cell>>, p: Point, lo: real, hi: real, dist: (Point, Point) -> real)
    requires lo <= hi && BestTable(v, p, lo, dist).Some?
    ensures BestTable(v, p, hi, dist) == BestTable(v, p, lo, dist)
  {
    NearestStableUnderLargerCutoff(GridSlots(v), p, lo, hi, dist);
  }

  // ---------------------------------------------------------------------------
  // All persons

  /** The map `assign_persons_to_tables` builds: persons in list order, each one with a
      seat stored under that seat, overwriting whoever was stored there before. */
  function Assign(persons: seq<Detection>, v: seq<seq<Cell>>, cutoff: real, dist: (Point, Point) -> real): map<Pos, Detection> {
    if persons == [] then map[]
    else
      var m := Assign(persons[..|persons| - 1], v, cutoff, dist);
      var person := persons[|persons| - 1];
      match BestTable(v, person.center, cutoff, dist)
      case None => m
      case Some(pos) => m[pos := person]
  }

  /** Person j claims `pos`: the seat is its best table. */
  predicate Claims(persons: seq<Detection>, j: int, v: seq<seq<Cell>>, cutoff: real, dist: (Point, Point) -> real, pos: Pos) {
    0 <= j < |persons| && BestTable(v, persons[j].center, cutoff, dist) == Some(pos)
  }

  /** A seat is a key exactly when some person's best table is that seat. */
  lemma {:induction false} AssignKeysAreClaims(persons: seq<Detection>, v: seq<seq<Cell>>, cutoff: real, dist: (Point, Point) -> real, pos: Pos)
    ensures pos in Assign(persons, v, cutoff, dist) <==> exists j :: Claims(persons, j, v, cutoff, dist, pos)
    decreases |persons|
  {
    if pos in Assign(persons, v, cutoff, dist) {
      var j := AssignIsLastClaim(persons, v, cutoff, dist, pos);
    } else if persons != [] {
      var n := |persons| - 1;
      var init := persons[..n];
      AssignKeysAreClaims(init, v, cutoff, dist, pos);
      forall j | 0 <= j < |persons| ensures !Claims(persons, j, v, cutoff, dist, pos) {
        if j < n { assert persons[j] == init[j]; assert !Claims(init, j, v, cutoff, dist, pos); }
      }
    }
  }

  /** A seat maps to the last person in list order who claims it: earlier claimants are
      overwritten. */
  lemma {:induction false} AssignIsLastClaim(persons: seq<Detection>, v: seq<seq<Cell>>, cutoff: real, dist: (Point, Point) -> real, pos: Pos)
      returns (j: nat)
    requires pos in Assign(persons, v, cutoff, dist)
    ensures Claims(persons, j, v, cutoff, dist, pos) && Assign(persons, v, cutoff, dist)[pos] == persons[j]
    ensures forall j' :: j < j' < |persons| ==> !Claims(persons, j', v, cutoff, dist, pos)
    decreases |persons|
  {
    var n := |persons| - 1;
    var init := persons[..n];
    if BestTable(v, persons[n].center, cutoff, dist) == Some(pos) {
      j := n;
    } else {
      j := AssignIsLastClaim(init, v, cutoff, dist, pos);
      assert persons[j] == init[j];
      forall j' | j < j' < |persons| ensures !Claims(persons, j', v, cutoff, dist, pos) {
        if j' < n { assert persons[j'] == init[j']; assert !Claims(init, j', v, cutoff, dist, pos); }
      }
    }
  }

  /** Every key of the map is an occupied seat whose table is closer than the cutoff to
      the person stored under it. */
  lemma AssignKeysAreQualifyingSeats(persons: seq<Detection>, v: seq<seq<Cell>>, cutoff: real, dist: (Point, Point) -> real, pos: Pos)
    requires pos in Assign(persons, v, cutoff, dist)
    ensures 0 <= pos.0 < |v| && 0 <= pos.1 < |v[pos.0]| && v[pos.0][pos.1].Occupied?
    ensures Qualifies(v, pos.0, pos.1, Assign(persons, v, cutoff, dist)[pos].center, cutoff, dist)
  {
    var j := AssignIsLastClaim(persons, v, cutoff, dist, pos);
    BestTableIsNearestQualifying(v, persons[j].center, cutoff, dist);
  }

  /** Every stored person's own best table is the seat it is stored under, so a person
      with no qualifying table never appears in the map. */
  lemma AssignValuesAreSeated(persons: seq<Detection>, v: seq<seq<Cell>>, cutoff: real, dist: (Point, Point) -> real, pos: Pos)
    requires pos in Assign(persons, v, cutoff, dist)
    ensures BestTable(v, Assign(persons, v, cutoff, dist)[pos].center, cutoff, dist) == Some(pos)
    ensures Assign(persons, v, cutoff, dist)[pos] in persons
  {
    var j := AssignIsLastClaim(persons, v, cutoff, dist, pos);
  }

  /** The map never holds more entries than there are persons. */
  lemma {:induction false} AssignSize(persons: seq<Detection>, v: seq<seq<Cell>>, cutoff: real, dist: (Point, Point) -> real)
    ensures |Assign(persons, v, cutoff, dist)| <= |persons|
    decreases |persons|
  {
    if persons != [] {
      AssignSize(persons[..|persons| - 1], v, cutoff, dist);
    }
  }

  /** Raising the cutoff keeps every seat already taken: the set of occupied seats can
      only grow, and with it the number of entries. */
  lemma {:induction false} AssignMonotone(persons: seq<Detection>, v: seq<seq<Cell>>, lo: real, hi: real, dist: (Point, Point) -> real)
    requires lo <= hi
    ensures Assign(persons, v, lo, dist).Keys <= Assign(persons, v, hi, dist).Keys
    ensures |Assign(persons, v, lo, dist)| <= |Assign(persons, v, hi, dist)|
    decreases |persons|
  {
    if persons != [] {
      var init := persons[..|persons| - 1];
      var p := persons[|persons| - 1].center;
      AssignMonotone(init, v, lo, hi, dist);
      var s := GridSlots(v);
      if Nearest(s, p, lo, dist).Some? {
        NearestStableUnderLargerCutoff(s, p, lo, hi, dist);
      }
    }
    SubsetSize(Assign(persons, v, lo, dist).Keys, Assign(persons, v, hi, dist).Keys);
  }

  /** Raising the ratio or the fallback distance never decreases the number of persons
      the engine seats, holding every detection fixed. */
  lemma AssignMonotoneInSettings(persons: seq<Detection>, v: seq<seq<Cell>>, lo: Settings, hi: Settings, dist: (Point, Point) -> real)
    requires IsDistance(dist)
    requires lo.maxDistanceRatio <= hi.maxDistanceRatio && lo.fallbackDistance <= hi.fallbackDistance
    ensures Assign(persons, v, MaxAllowedDistance(v, lo, dist), dist).Keys <=
            Assign(persons, v, MaxAllowedDistance(v, hi, dist), dist).Keys
    ensures |Assign(persons, v, MaxAllowedDistance(v, lo, dist), dist)| <=
            |Assign(persons, v, MaxAllowedDistance(v, hi, dist), dist)|
  {
    MaxAllowedDistanceMonotone(v, lo, hi, dist);
    AssignMonotone(persons, v, MaxAllowedDistance(v, lo, dist), MaxAllowedDistance(v, hi, dist), dist);
  }

  // ---------------------------------------------------------------------------
  // The engine's methods

  /** One step of the center-collecting scan over cell (r, c). */
  lemma CentersStep(v: seq<seq<Cell>>, r: nat, c: nat)
    requires r < |v| && c < |v[r]|
    ensures Centers(ScanTo(v, r, c + 1)) ==
      match v[r][c] case Empty => Centers(ScanTo(v, r, c)) case Occupied(t) => Centers(ScanTo(v, r, c)) + [t.center]
  {
    ScanStep(v, r, c);
    var before := ScanTo(v, r, c);
    var after := ScanTo(v, r, c + 1);
    match v[r][c]
    case Empty =>
      assert after == before + [];
      assert before + [] == before;
    case Occupied(t) =>
      assert after == before + [Slot((r, c), t)];
      assert after[..|after| - 1] == before;
  }

  /** The first loop of `_get_max_allowed_distance`: the centers of the occupied cells,
      row-major. */
  method CollectCenters(tableGrid: array2<Cell>, gridShape: (nat, nat)) returns (centers: seq<Point>)
    requires gridShape.0 <= tableGrid.Length0 && gridShape.1 <= tableGrid.Length1
    ensures centers == Centers(GridSlots(View(tableGrid, gridShape.0, gridShape.1)))
  {
    ghost var v := View(tableGrid, gridShape.0, gridShape.1);
    centers := [];
    for row := 0 to gridShape.0
      invariant centers == Centers(GridSlotsTo(v, row))
    {
      ScanRow(v, row);
      for col := 0 to gridShape.1
        invariant centers == Centers(ScanTo(v, row, col))
      {
        CentersStep(v, row, col);
        if tableGrid[row, col] != Empty {
          centers := centers + [tableGrid[row, col].table.center];
        }
      }
    }
  }

  /** The rest of `_get_max_allowed_distance`: the distance of every pair of centers in
      nested-loop order, and ratio x their mean, or the fallback below two centers. */
  method CutoffFromCenters(centers: seq<Point>, settings: Settings, dist: (Point, Point) -> real)
    returns (maxAllowed: real)
    ensures maxAllowed == CutoffOf(centers, settings, dist)
  {
    if |centers| > 1 {
      var distances: seq<real> := [];
      for i := 0 to |centers|
        invariant distances == PairsBefore(centers, dist, i)
      {
        PairsRow(centers, dist, i);
        for j := i + 1 to |centers|
          invariant distances == PairsBefore(centers, dist, i) + RowPairs(centers, dist, i, j)
        {
          PairsStep(centers, dist, i, j);
          distances := distances + [dist(centers[i], centers[j])];
        }
      }
      maxAllowed := Mean(distances) * settings.maxDistanceRatio;
    } else {
      maxAllowed := settings.fallbackDistance;
    }
  }

  /** `_get_max_allowed_distance`: collect the centers of the tables row-major, then the
      distance of every pair, and scale their mean. */
  method GetMaxAllowedDistance(tableGrid: array2<Cell>, gridShape: (nat, nat), settings: Settings, dist: (Point, Point) -> real)
    returns (maxAllowed: real)
    requires gridShape.0 <= tableGrid.Length0 && gridShape.1 <= tableGrid.Length1
    ensures maxAllowed == MaxAllowedDistance(View(tableGrid, gridShape.0, gridShape.1), settings, dist)
  {
    var centers := CollectCenters(tableGrid, gridShape);
    maxAllowed := CutoffFromCenters(centers, settings, dist);
  }

  /** The scan state matches `Nearest` on the slots met so far. */
  ghost predicate Tracks(s: seq<Slot>, p: Point, cutoff: real, dist: (Point, Point) -> real,
                         bestPosition: Option<Pos>, bestDistance: real)
  {
    match Nearest(s, p, cutoff, dist)
    case None => bestPosition == None
    case Some(k) => bestPosition == Some(s[k].pos) && bestDistance == SlotDistance(p, s[k], dist)
  }

  /** One step of the nearest-table scan over an occupied cell (r, c): the table becomes
      the best one exactly when it is strictly below the cutoff and strictly closer than
      the best one so far. */
  lemma TracksStep(v: seq<seq<Cell>>, r: nat, c: nat, p: Point, cutoff: real, dist: (Point, Point) -> real,
                   bestPosition: Option<Pos>, bestDistance: real)
    requires r < |v| && c < |v[r]| && v[r][c].Occupied?
    requires Tracks(ScanTo(v, r, c), p, cutoff, dist, bestPosition, bestDistance)
    ensures var d := dist(p, v[r][c].table.center);
      if (bestPosition.None? || d < bestDistance) && d < cutoff
      then Tracks(ScanTo(v, r, c + 1), p, cutoff, dist, Some((r, c)), d)
      else Tracks(ScanTo(v, r, c + 1), p, cutoff, dist, bestPosition, bestDistance)
  {
    ScanStep(v, r, c);
    TracksAppend(ScanTo(v, r, c), Slot((r, c), v[r][c].table), p, cutoff, dist, bestPosition, bestDistance);
  }

  /** Appending one slot to the scanned sequence updates the scan state as one loop step. */
  lemma TracksAppend(before: seq<Slot>, x: Slot, p: Point, cutoff: real, dist: (Point, Point) -> real,
                     bestPosition: Option<Pos>, bestDistance: real)
    requires Tracks(before, p, cutoff, dist, bestPosition, bestDistance)
    ensures var d := SlotDistance(p, x, dist);
      if (bestPosition.None? || d < bestDistance) && d < cutoff
      then Tracks(before + [x], p, cutoff, dist, Some(x.pos), d)
      else Tracks(before + [x], p, cutoff, dist, bestPosition, bestDistance)
  {
    var after := before + [x];
    assert after[..|after| - 1] == before;
    assert after[|after| - 1] == x;
    var prev := Nearest(before, p, cutoff, dist);
    if prev.Some? {
      assert after[prev.value] == before[prev.value];
    }
  }

  /** An empty cell leaves the scan state as it was. */
  lemma TracksSkip(v: seq<seq<Cell>>, r: nat, c: nat, p: Point, cutoff: real, dist: (Point, Point) -> real,
                   bestPosition: Option<Pos>, bestDistance: real)
    requires r < |v| && c < |v[r]| && v[r][c].Empty?
    requires Tracks(ScanTo(v, r, c), p, cutoff, dist, bestPosition, bestDistance)
    ensures Tracks(ScanTo(v, r, c + 1), p, cutoff, dist, bestPosition, bestDistance)
  {
    ScanStep(v, r, c);
    assert ScanTo(v, r, c) + [] == ScanTo(v, r, c);
  }

  /** `_find_best_table`: scan the grid row-major and keep the first strictly nearest
      table closer than the cutoff. */
  method FindBestTable(personCenter: Point, tableGrid: array2<Cell>, gridShape: (nat, nat), settings: Settings,
                       dist: (Point, Point) -> real)
    returns (bestPosition: Option<Pos>)
    requires gridShape.0 <= tableGrid.Length0 && gridShape.1 <= tableGrid.Length1
    ensures bestPosition == BestTable(View(tableGrid, gridShape.0, gridShape.1), personCenter,
                                      MaxAllowedDistance(View(tableGrid, gridShape.0, gridShape.1), settings, dist), dist)
    ensures bestPosition.Some? ==>
      && 0 <= bestPosition.value.0 < gridShape.0 && 0 <= bestPosition.value.1 < gridShape.1
      && tableGrid[bestPosition.value.0, bestPosition.value.1].Occupied?
  {
    ghost var v := View(tableGrid, gridShape.0, gridShape.1);
    ghost var cutoff := MaxAllowedDistance(v, settings, dist);
    // `bestDistance` plays float('inf') as long as `bestPosition` is None
    var bestDistance: real := 0.0;
    bestPosition := None;
    for row := 0 to gridShape.0
      invariant Tracks(GridSlotsTo(v, row), personCenter, cutoff, dist, bestPosition, bestDistance)
    {
      ScanRow(v, row);
      for col := 0 to gridShape.1
        invariant Tracks(ScanTo(v, row, col), personCenter, cutoff, dist, bestPosition, bestDistance)
      {
        if tableGrid[row, col] == Empty {
          TracksSkip(v, row, col, personCenter, cutoff, dist, bestPosition, bestDistance);
        } else {
          TracksStep(v, row, col, personCenter, cutoff, dist, bestPosition, bestDistance);
          var tableCenter := tableGrid[row, col].table.center;
          var distance := dist(personCenter, tableCenter);
          var maxAllowed := GetMaxAllowedDistance(tableGrid, gridShape, settings, dist);
          if (bestPosition.None? || distance < bestDistance) && distance < maxAllowed {
            bestDistance := distance;
            bestPosition := Some((row, col));
          }
        }
      }
    }
    BestTableIsNearestQualifying(v, personCenter, cutoff, dist);
  }

  /** `assign_persons_to_tables`: seat every person that has a best table, later
      persons overwriting earlier ones on the same seat. */
  method AssignPersonsToTables(persons: seq<Detection>, tableGrid: array2<Cell>, gridShape: (nat, nat), settings: Settings,
                               dist: (Point, Point) -> real)
    returns (assignments: map<Pos, Detection>)
    requires gridShape.0 <= tableGrid.Length0 && gridShape.1 <= tableGrid.Length1
    ensures assignments == Assign(persons, View(tableGrid, gridShape.0, gridShape.1),
                                  MaxAllowedDistance(View(tableGrid, gridShape.0, gridShape.1), settings, dist), dist)
    ensures forall pos :: pos in assignments ==>
      0 <= pos.0 < gridShape.0 && 0 <= pos.1 < gridShape.1 && tableGrid[pos.0, pos.1].Occupied?
    ensures |assignments| <= |persons|
  {
    ghost var v := View(tableGrid, gridShape.0, gridShape.1);
    ghost var cutoff := MaxAllowedDistance(v, settings, dist);
    assignments := map[];
    for i := 0 to |persons|
      invariant assignments == Assign(persons[..i], v, cutoff, dist)
    {
      assert persons[..i + 1][..i] == persons[..i];
      var tablePos := FindBestTable(persons[i].center, tableGrid, gridShape, settings, dist);
      if tablePos.Some? {
        assignments := assignments[tablePos.value := persons[i]];
      }
    }
    assert persons[..|persons|] == persons;
    forall pos | pos in assignments
      ensures 0 <= pos.0 < gridShape.0 && 0 <= pos.1 < gridShape.1 && tableGrid[pos.0, pos.1].Occupied?
    {
      AssignKeysAreQualifyingSeats(persons, v, cutoff, dist, pos);
    }
    AssignSize(persons, v, cutoff, dist);
  }
}
