/** The restriction-aware edge filter for heavy vehicles
    (`HeavyVehicleEdgeFilter`) and the destination-edge resolution it runs
    before a route search.

    The filter is a record of the vehicle profile plus a three-valued mode;
    `Accept` is the per-edge predicate, `SetDestinationEdge` the one state
    change.  The restriction storage and the auxiliary Dijkstra search are
    parameters: storage is a `Store` of decode functions, the search a
    function from a start node and an acceptance predicate to the edge ids of
    the search tree's entries. */
module HeavyVehicleEdgeFilter {
  import opened Wrappers

  /** `VehicleDimensionRestrictions`: height, width, weight, length and axle
      load occupy positions 0 to 4 of every dimension array. */
  const Count: nat := 5
  type Dimension = d: int | 0 <= d < 5

  const MaxHeight: Dimension := 0
  const MaxWidth: Dimension := 1
  const MaxWeight: Dimension := 2
  const MaxLength: Dimension := 3
  const MaxAxleLoad: Dimension := 4

  /** A value per dimension, indexed by `Dimension`. */
  type Vec5 = s: seq<real> | |s| == 5 witness [0.0, 0.0, 0.0, 0.0, 0.0]

  /** What `getEdgeVehicleType(id, buffer)` yields: the returned mask of
      restricted vehicle categories and the raw destination byte it leaves in
      `buffer[1]`. */
  datatype TypeEntry = TypeEntry(vehicleTypes: bv32, destinationByte: bv8)

  /** The restriction storage, read-only.  `unknown` and `hazmat` are the
      `HeavyVehicleAttributes.UNKNOWN` mask (no restriction) and `HAZMAT` bit;
      `limitAt` is `getEdgeRestrictionValue`, `limits` is
      `getEdgeRestrictionValues` (`None` when it returns false). */
  datatype Store = Store(
    unknown: bv32,
    hazmat: bv32,
    typeOf: int -> TypeEntry,
    limitAt: (int, Dimension) -> real,
    limits: int -> Option<Vec5>)

  /** The edge iterator state the filter looks at: its original edge id, its
      base node, and its direction flags under the filter's encoder. */
  datatype Edge = Edge(originalEdge: int, baseNode: int, isForward: bool, isBackward: bool)

  /** The vehicle parameters the constructor reads.  `carriesHazmat` is the
      outcome of testing the HAZMAT load-characteristics flag. */
  datatype VehicleParameters = VehicleParameters(
    height: real, width: real, weight: real, length: real, axleLoad: real,
    carriesHazmat: bool)

  /** MODE_CLOSEST_EDGE (-2, initial), MODE_DESTINATION_EDGES (-1), MODE_ROUTE (0). */
  datatype Mode = ClosestEdge | DestinationEdges | Route

  datatype Filter = Filter(
    incoming: bool,
    outgoing: bool,
    vehicleType: bv32,
    hasHazmat: bool,
    restrictionValues: Vec5,
    indexValues: seq<Dimension>,
    mode: Mode,
    destinationEdges: Option<seq<int>>)
  {
    /** `restCount`: how many dimensions the vehicle has set. */
    function RestCount(): nat {
      |indexValues|
    }
  }

  ghost predicate Increasing(s: seq<Dimension>) {
    forall i, j :: 0 <= i < j < |s| ==> s[i] < s[j]
  }

  /** The invariant the constructor establishes: `indexValues` lists exactly
      the dimensions whose vehicle value is positive, in increasing order. */
  ghost predicate WellFormed(f: Filter) {
    && Increasing(f.indexValues)
    && forall d: Dimension :: d in f.indexValues <==> f.restrictionValues[d] > 0.0
  }

  /** The vehicle attribute array, in dimension order. */
  function VehicleAttributes(p: VehicleParameters): Vec5 {
    [p.height, p.width, p.weight, p.length, p.axleLoad]
  }

  /** The constructor: selects the dimensions with a positive value, in
      increasing order, and starts in ClosestEdge mode with no destination
      edges. */
  method NewFilter(incoming: bool, outgoing: bool, vehicleType: bv32, p: VehicleParameters)
    returns (f: Filter)
    ensures WellFormed(f)
    ensures f.restrictionValues[MaxHeight] == p.height && f.restrictionValues[MaxWidth] == p.width
    ensures f.restrictionValues[MaxWeight] == p.weight && f.restrictionValues[MaxLength] == p.length
    ensures f.restrictionValues[MaxAxleLoad] == p.axleLoad
    ensures f.RestCount() <= Count
    ensures f.mode == ClosestEdge && f.destinationEdges == None
    ensures f.incoming == incoming && f.outgoing == outgoing
    ensures f.vehicleType == vehicleType && f.hasHazmat == p.carriesHazmat
  {
    var attrs := VehicleAttributes(p);
    var idx: seq<Dimension> := [];
    var i := 0;
    while i < Count
      invariant 0 <= i <= Count
      invariant |idx| <= i
      invariant Increasing(idx)
      invariant forall k :: 0 <= k < |idx| ==> idx[k] < i
      invariant forall d: Dimension :: d in idx <==> d < i && attrs[d] > 0.0
    {
      if attrs[i] > 0.0 {
        idx := idx + [i];
      }
      i := i + 1;
    }
    f := Filter(incoming, outgoing, vehicleType, p.carriesHazmat, attrs, idx, ClosestEdge, None);
  }

  /** A strictly increasing list of dimensions never holds more than `Count`. */
  lemma {:induction false} RestCountBounded(f: Filter)
    requires WellFormed(f)
    ensures f.RestCount() <= Count
  {
    var s := f.indexValues;
    if |s| > 0 {
      AtLeastPosition(s, |s| - 1);
    }
  }

  lemma {:induction false} AtLeastPosition(s: seq<Dimension>, k: nat)
    requires Increasing(s) && k < |s|
    ensures s[k] >= k
  {
    if k > 0 {
      AtLeastPosition(s, k - 1);
    }
  }

  // ----- accept ---------------------------------------------------------

  /** The direction gate: the edge is traversable in a direction the filter admits. */
  predicate Gate(f: Filter, e: Edge) {
    (f.outgoing && e.isForward) || (f.incoming && e.isBackward)
  }

  /** `(vt & vehicleType) == vehicleType`: the edge's mask contains every
      category bit of the vehicle. */
  predicate Matches(vt: bv32, vehicleType: bv32) {
    (vt & vehicleType) == vehicleType
  }

  /** The two's-complement value of a Java `byte`. */
  function ByteValue(b: bv8): int {
    if b < 0x80 then b as int else b as int - 0x100
  }

  /** The two's-complement value of a Java `int`. */
  function IntValue(w: bv32): int {
    if w < 0x8000_0000 then w as int else w as int - 0x1_0000_0000
  }

  /** The Java byte in `buffer[1]` widened to `int` for `(byte)buffer[1] != vehicleType`. */
  function SignExtend(b: bv8): (w: bv32)
    ensures IntValue(w) == ByteValue(b)
  {
    if b < 0x80 then b as bv32 else (b as bv32) | 0xFFFF_FF00
  }

  /** The outcome of the mode-dependent mask branch. */
  datatype MaskOutcome = Reject | AcceptNow | FallThrough

  /** The mask branch of `accept` for original edge `id`. */
  function MaskBranch(f: Filter, s: Store, id: int): MaskOutcome {
    var entry := s.typeOf(id);
    var vt := entry.vehicleTypes;
    var dst := entry.destinationByte != 0;
    var matches := Matches(vt, f.vehicleType);
    if vt != s.unknown then
      match f.mode
      case ClosestEdge =>
        if (matches || dst) && SignExtend(entry.destinationByte) != f.vehicleType then Reject
        else FallThrough
      case DestinationEdges =>
        if dst && matches then AcceptNow else Reject
      case Route =>
        if dst then
          if matches && f.destinationEdges.Some? && id in f.destinationEdges.value then FallThrough
          else Reject
        else if matches then Reject
        else FallThrough
    else if f.mode == DestinationEdges then Reject
    else FallThrough
  }

  /** A hazmat carrier may not use an edge whose mask has the HAZMAT bit. */
  predicate HazmatClear(f: Filter, s: Store, id: int) {
    !(f.hasHazmat && (s.typeOf(id).vehicleTypes & s.hazmat) != 0)
  }

  /** A limit blocks a vehicle when it is set (positive) and below the vehicle's value. */
  predicate Clears(limit: real, required: real) {
    !(limit > 0.0 && limit < required)
  }

  /** The dimension check as `accept` writes it.  With one dimension set it
      reads the edge's limit for that dimension but compares it with the
      vehicle's HEIGHT value; with two or more it compares the edge limits at
      positions 0 .. restCount-1 with the vehicle values at the same
      positions, whichever dimensions are actually set. */
  function DimensionsClear(f: Filter, s: Store, id: int): bool {
    var n := f.RestCount();
    var rv := f.restrictionValues;
    if n == 0 then true
    else if n == 1 then Clears(s.limitAt(id, f.indexValues[0]), rv[0])
    else
      match s.limits(id)
      case None => true
      case Some(lim) =>
        && Clears(lim[0], rv[0])
        && Clears(lim[1], rv[1])
        && (n >= 3 ==> Clears(lim[2], rv[2]))
        && (n >= 4 ==> Clears(lim[3], rv[3]))
        && (n == 5 ==> Clears(lim[4], rv[4]))
  }

  /** The dimension check as evidently intended: every set dimension is
      compared with the edge's limit for that same dimension. */
  function DimensionsClearIntended(f: Filter, s: Store, id: int): bool {
    var n := f.RestCount();
    var rv := f.restrictionValues;
    if n == 0 then true
    else if n == 1 then Clears(s.limitAt(id, f.indexValues[0]), rv[f.indexValues[0]])
    else
      match s.limits(id)
      case None => true
      case Some(lim) =>
        forall k :: 0 <= k < n ==> Clears(lim[f.indexValues[k]], rv[f.indexValues[k]])
  }

  /** `accept` with the dimension check chosen by `intended`. */
  function Evaluate(f: Filter, s: Store, e: Edge, intended: bool): bool {
    if !Gate(f, e) then false
    else
      var id := e.originalEdge;
      match MaskBranch(f, s, id)
      case Reject => false
      case AcceptNow => true
      case FallThrough =>
        && HazmatClear(f, s, id)
        && (if intended then DimensionsClearIntended(f, s, id) else DimensionsClear(f, s, id))
  }

  /** `accept(iter)` as written. */
  function Accept(f: Filter, s: Store, e: Edge): (r: bool)
    ensures r ==> Gate(f, e)
    ensures Gate(f, e) && f.mode == DestinationEdges ==>
              (r <==> var t := s.typeOf(e.originalEdge);
                      t.vehicleTypes != s.unknown && t.destinationByte != 0
                      && Matches(t.vehicleTypes, f.vehicleType))
    ensures r && f.mode != DestinationEdges ==>
              HazmatClear(f, s, e.originalEdge) && DimensionsClear(f, s, e.originalEdge)
    ensures f.mode != DestinationEdges && Gate(f, e) && s.typeOf(e.originalEdge).vehicleTypes == s.unknown ==>
              (r <==> HazmatClear(f, s, e.originalEdge) && DimensionsClear(f, s, e.originalEdge))
  {
    Evaluate(f, s, e, false)
  }

  /** `accept` with the intended dimension check. */
  function AcceptCorrected(f: Filter, s: Store, e: Edge): (r: bool)
    ensures r ==> Gate(f, e)
    ensures r && f.mode != DestinationEdges ==>
              HazmatClear(f, s, e.originalEdge) && DimensionsClearIntended(f, s, e.originalEdge)
    ensures f.mode == DestinationEdges ==> r == Accept(f, s, e)
  {
    Evaluate(f, s, e, true)
  }

  // ----- properties of accept ------------------------------------------

  /** In Route mode a restricted, destination-only edge survives the mask
      branch only if its mask contains the vehicle's categories and its id is
      in the resolved destination list; a mismatching mask rejects it outright. */
  lemma RouteDestinationOnlyEdge(f: Filter, s: Store, e: Edge)
    requires f.mode == Route && Gate(f, e)
    requires s.typeOf(e.originalEdge).vehicleTypes != s.unknown
    requires s.typeOf(e.originalEdge).destinationByte != 0
    ensures Accept(f, s, e) <==>
              && Matches(s.typeOf(e.originalEdge).vehicleTypes, f.vehicleType)
              && f.destinationEdges.Some? && e.originalEdge in f.destinationEdges.value
              && HazmatClear(f, s, e.originalEdge) && DimensionsClear(f, s, e.originalEdge)
  {
  }

  /** In Route mode a restricted through edge (no destination flag) is rejected
      iff its mask contains the vehicle's categories; otherwise the hazmat and
      dimension checks decide. */
  lemma RouteThroughEdge(f: Filter, s: Store, e: Edge)
    requires f.mode == Route && Gate(f, e)
    requires s.typeOf(e.originalEdge).vehicleTypes != s.unknown
    requires s.typeOf(e.originalEdge).destinationByte == 0
    ensures Matches(s.typeOf(e.originalEdge).vehicleTypes, f.vehicleType) ==> !Accept(f, s, e)
    ensures !Matches(s.typeOf(e.originalEdge).vehicleTypes, f.vehicleType) ==>
              (Accept(f, s, e) <==> HazmatClear(f, s, e.originalEdge) && DimensionsClear(f, s, e.originalEdge))
  {
  }

  /** In ClosestEdge mode a restricted edge is rejected iff it matches or is
      destination-only and its raw destination byte differs from the vehicle
      type; otherwise the hazmat and dimension checks decide. */
  lemma ClosestEdgeRestrictedEdge(f: Filter, s: Store, e: Edge)
    requires f.mode == ClosestEdge && Gate(f, e)
    requires s.typeOf(e.originalEdge).vehicleTypes != s.unknown
    ensures var t := s.typeOf(e.originalEdge);
            Accept(f, s, e) <==>
              && !((Matches(t.vehicleTypes, f.vehicleType) || t.destinationByte != 0)
                   && SignExtend(t.destinationByte) != f.vehicleType)
              && HazmatClear(f, s, e.originalEdge) && DimensionsClear(f, s, e.originalEdge)
  {
  }

  /** Whenever the mask branch falls through, a hazmat carrier is turned away
      from HAZMAT edges, and a vehicle with no dimensions set is admitted. */
  lemma SecondaryChecks(f: Filter, s: Store, e: Edge)
    requires Gate(f, e) && MaskBranch(f, s, e.originalEdge) == FallThrough
    ensures f.hasHazmat && (s.typeOf(e.originalEdge).vehicleTypes & s.hazmat) != 0 ==> !Accept(f, s, e)
    ensures f.RestCount() == 0 ==> (Accept(f, s, e) <==> HazmatClear(f, s, e.originalEdge))
  {
  }

  /** In DestinationEdges mode the vehicle's hazmat flag, its dimensions, the
      destination list and the stored limits are never consulted. */
  lemma DestinationModeIgnoresProfile(
    f: Filter, s: Store, e: Edge,
    hazmat: bool, values: Vec5, indices: seq<Dimension>, dest: Option<seq<int>>,
    limitAt: (int, Dimension) -> real, limits: int -> Option<Vec5>)
    requires f.mode == DestinationEdges
    ensures Accept(f, s, e) ==
            Accept(f.(hasHazmat := hazmat, restrictionValues := values, indexValues := indices,
                      destinationEdges := dest),
                   s.(limitAt := limitAt, limits := limits), e)
  {
  }

  /** Raising the vehicle's values (with the same dimensions set) can only
      turn accepted edges into rejected ones. */
  lemma RequiredValuesMonotone(f: Filter, values: Vec5, s: Store, e: Edge)
    requires forall d: Dimension :: f.restrictionValues[d] <= values[d]
    ensures Accept(f.(restrictionValues := values), s, e) ==> Accept(f, s, e)
    ensures AcceptCorrected(f.(restrictionValues := values), s, e) ==> AcceptCorrected(f, s, e)
  {
    var g := f.(restrictionValues := values);
    var id := e.originalEdge;
    assert MaskBranch(g, s, id) == MaskBranch(f, s, id);
    assert HazmatClear(g, s, id) == HazmatClear(f, s, id);
    assert DimensionsClear(g, s, id) ==> DimensionsClear(f, s, id);
    if f.RestCount() >= 2 && s.limits(id).Some? {
      var lim := s.limits(id).value;
      if DimensionsClearIntended(g, s, id) {
        forall k | 0 <= k < f.RestCount()
          ensures Clears(lim[f.indexValues[k]], f.restrictionValues[f.indexValues[k]])
        {
          assert Clears(lim[g.indexValues[k]], g.restrictionValues[g.indexValues[k]]);
        }
      }
    }
  }

  // ----- the dimension check: as written against as intended -----------

  /** The storage answers alike through both accessors for edge `id`, and an
      edge without dimensional data has no positive limit. */
  ghost predicate Consistent(s: Store, id: int) {
    match s.limits(id)
    case Some(lim) => forall d: Dimension :: lim[d] == s.limitAt(id, d)
    case None => forall d: Dimension :: !(s.limitAt(id, d) > 0.0)
  }

  /** The corrected check blocks exactly when some dimension the vehicle has
      set carries a positive edge limit below the vehicle's value. */
  lemma IntendedChecksEverySetDimension(f: Filter, s: Store, id: int)
    requires WellFormed(f) && Consistent(s, id)
    ensures DimensionsClearIntended(f, s, id) <==>
              forall d: Dimension :: f.restrictionValues[d] > 0.0 ==> Clears(s.limitAt(id, d), f.restrictionValues[d])
  {
    var n := f.RestCount();
    var rv := f.restrictionValues;
    var idx := f.indexValues;
    if n == 1 {
      forall d: Dimension | rv[d] > 0.0 ensures d == idx[0] {
        assert d in idx;
      }
    } else if n >= 2 {
      match s.limits(id)
      case None =>
      case Some(lim) =>
        if DimensionsClearIntended(f, s, id) {
          forall d: Dimension | rv[d] > 0.0 ensures Clears(s.limitAt(id, d), rv[d]) {
            assert d in idx;
            var k :| 0 <= k < n && idx[k] == d;
            assert Clears(lim[idx[k]], rv[idx[k]]);
          }
        }
    }
  }

  /** The two checks agree when the set dimensions are exactly the first
      `restCount` ones (height; height and width; ...), so the defect shows
      only for vehicles that leave an earlier dimension unset. */
  lemma AsWrittenAgreesOnLeadingDimensions(f: Filter, s: Store, id: int)
    requires forall k :: 0 <= k < f.RestCount() ==> f.indexValues[k] == k
    ensures DimensionsClear(f, s, id) == DimensionsClearIntended(f, s, id)
  {
    var n := f.RestCount();
    var idx := f.indexValues;
    var rv := f.restrictionValues;
    if n > 0 {
      assert idx[n - 1] == n - 1;
    }
    if n >= 2 && s.limits(id).Some? {
      var lim := s.limits(id).value;
      if DimensionsClear(f, s, id) {
        forall k | 0 <= k < n ensures Clears(lim[idx[k]], rv[idx[k]]) {
          assert idx[k] == k;
        }
      }
      if DimensionsClearIntended(f, s, id) {
        forall k | 0 <= k < n ensures Clears(lim[k], rv[k]) {
          assert idx[k] == k;
        }
      }
    }
  }

  /** A vehicle with only its weight set (40) meets an edge with a 7.5 weight
      limit: the code as written admits it, the corrected check does not. */
  lemma AsWrittenIgnoresSoleWeightLimit()
    ensures var f := Filter(true, true, 1, false, [0.0, 0.0, 40.0, 0.0, 0.0], [MaxWeight], Route, None);
            var s := Store(0, 2, id => TypeEntry(0, 0),
                           (id, d) => if d == MaxWeight then 7.5 else 0.0,
                           id => Some([0.0, 0.0, 7.5, 0.0, 0.0]));
            var e := Edge(7, 3, true, true);
            WellFormed(f) && Consistent(s, 7)
            && Accept(f, s, e) && !AcceptCorrected(f, s, e)
  {
    var f := Filter(true, true, 1, false, [0.0, 0.0, 40.0, 0.0, 0.0], [MaxWeight], Route, None);
    forall d: Dimension ensures d in f.indexValues <==> f.restrictionValues[d] > 0.0 {
      if d == MaxWeight { assert f.indexValues[0] == d; }
    }
  }

  /** A vehicle with weight 40 and length 18 set meets an edge with a 7.5
      weight limit: the code as written compares the edge's height and width
      limits with the vehicle's (unset) height and width and admits it. */
  lemma AsWrittenChecksLeadingPositions()
    ensures var f := Filter(true, true, 1, false, [0.0, 0.0, 40.0, 18.0, 0.0], [MaxWeight, MaxLength], Route, None);
            var s := Store(0, 2, id => TypeEntry(0, 0),
                           (id, d) => if d == MaxWeight then 7.5 else 0.0,
                           id => Some([0.0, 0.0, 7.5, 0.0, 0.0]));
            var e := Edge(7, 3, true, true);
            WellFormed(f) && Consistent(s, 7)
            && Accept(f, s, e) && !AcceptCorrected(f, s, e)
  {
    var f := Filter(true, true, 1, false, [0.0, 0.0, 40.0, 18.0, 0.0], [MaxWeight, MaxLength], Route, None);
    forall d: Dimension ensures d in f.indexValues <==> f.restrictionValues[d] > 0.0 {
      if d == MaxWeight { assert f.indexValues[0] == d; }
      if d == MaxLength { assert f.indexValues[1] == d; }
    }
    var s := Store(0, 2, id => TypeEntry(0, 0),
                   (id, d) => if d == MaxWeight then 7.5 else 0.0,
                   id => Some([0.0, 0.0, 7.5, 0.0, 0.0]));
    assert !Clears(7.5, 40.0);
    assert !DimensionsClearIntended(f, s, 7) by {
      assert f.indexValues[0] == 2;
    }
  }

  // ----- destination-edge resolution ------------------------------------

  /** The predicate the auxiliary search is gated by: this filter in
      DestinationEdges mode. */
  function DestinationProbe(f: Filter, s: Store): Edge -> bool {
    var probe := f.(mode := DestinationEdges);
    (e: Edge) => Accept(probe, s, e)
  }

  /** The direct test of the candidate's original edge: its mask contains the
      vehicle's categories and its destination byte is set.  Unlike `accept`
      it does not look at UNKNOWN. */
  predicate Qualifies(f: Filter, s: Store, id: int) {
    var t := s.typeOf(id);
    Matches(t.vehicleTypes, f.vehicleType) && t.destinationByte != 0
  }

  ghost predicate NoDuplicates(xs: seq<int>) {
    forall i, j :: 0 <= i < j < |xs| ==> xs[i] != xs[j]
  }

  /** What resolution leaves behind: a duplicate-free, non-empty list holding
      the search entries' edge ids plus the candidate when it qualifies, or
      `None` when there is nothing to hold. */
  ghost predicate Resolved(dest: Option<seq<int>>, entries: seq<int>, candidate: int, qualifies: bool) {
    && (dest.None? <==> |entries| == 0 && !qualifies)
    && (dest.Some? ==>
          && |dest.value| > 0
          && NoDuplicates(dest.value)
          && forall x :: x in dest.value <==> x in entries || (x == candidate && qualifies))
  }

  /** `setDestinationEdge(edge, ...)`.  `search(node, accept)` is the
      single-source Dijkstra run from `node` gated by `accept`, returning the
      edge ids of its search-tree entries in iteration order. */
  method SetDestinationEdge(f: Filter, s: Store, edge: Option<Edge>, search: (int, Edge -> bool) -> seq<int>)
    returns (g: Filter)
    ensures g.mode == Route
    ensures g == f.(mode := Route, destinationEdges := g.destinationEdges)
    ensures edge.None? || edge.value.baseNode == -1 ==> g.destinationEdges == f.destinationEdges
    ensures edge.Some? && edge.value.baseNode != -1 ==>
              Resolved(g.destinationEdges, search(edge.value.baseNode, DestinationProbe(f, s)),
                       edge.value.originalEdge, Qualifies(f, s, edge.value.originalEdge))
  {
    if edge.None? || edge.value.baseNode == -1 {
      return f.(mode := Route);
    }
    var entries := search(edge.value.baseNode, DestinationProbe(f, s));
    var list: seq<int> := [];
    var i := 0;
    while i < |entries|
      invariant 0 <= i <= |entries|
      invariant NoDuplicates(list)
      invariant forall x :: x in list <==> x in entries[..i]
    {
      if entries[i] !in list {
        list := list + [entries[i]];
      }
      i := i + 1;
    }
    assert entries[..i] == entries;
    assert forall x :: x in list <==> x in entries;
    // The collected list is empty exactly when the search returned nothing.
    if |entries| > 0 {
      assert entries[0] in entries;
    }
    if |list| > 0 {
      assert list[0] in list;
    }
    var candidate := edge.value.originalEdge;
    if candidate !in list && Qualifies(f, s, candidate) {
      list := list + [candidate];
    }
    g := f.(mode := Route, destinationEdges := if |list| == 0 then None else Some(list));
  }
}
