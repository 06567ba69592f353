/** Isochrone request bookkeeping (`IsochroneRequest`): the traveller list,
    its validity, the case-insensitive attribute lookup, and how the search
    parameters for one traveller are derived (unit scaling of distance ranges
    and the reverse-direction flag). */
module Isochrones {
  import opened Wrappers

  datatype Coordinate = Coordinate(x: real, y: real)

  datatype TravelRangeType = Time | Distance

  /** One traveller: where it starts, its ranges, what they measure, and its
      location type ("start" or "destination"; may be null). */
  datatype TravellerInfo = TravellerInfo(
    location: Coordinate,
    ranges: seq<real>,
    rangeType: TravelRangeType,
    locationType: Option<string>)

  datatype IsochroneRequest = IsochroneRequest(
    travellers: seq<TravellerInfo>,
    calcMethod: Option<string>,
    units: Option<string>,
    includeIntersections: bool,
    attributes: Option<seq<Option<string>>>)

  /** The parameters of one isochrone search; `reverseDirection` starts false
      and is only ever switched on. */
  datatype IsochroneSearchParameters = IsochroneSearchParameters(
    travellerIndex: int,
    location: Coordinate,
    ranges: seq<real>,
    rangeType: TravelRangeType,
    calcMethod: Option<string>,
    reverseDirection: bool)

  /** The exception `getSearchParameters` lets escape from `List.get`. */
  datatype IndexOutOfBounds = IndexOutOfBounds(index: int, size: nat)

  const NullTravellerMessage: string := "'traveller' argument is null."

  /** The constructor: no travellers, no units, no attributes. */
  function NewRequest(): (r: IsochroneRequest)
    ensures !IsValid(r) && GetLocations(r) == []
    ensures forall a :: !HasAttribute(r, a)
    ensures forall i :: GetSearchParameters(r, i).Failure?
    ensures !r.includeIntersections
  {
    IsochroneRequest([], None, None, false, None)
  }

  // ----- case-insensitive comparison ------------------------------------

  /** Case folding of one character, restricted to ASCII letters. */
  function Lower(c: char): char {
    if 'A' <= c <= 'Z' then (c as int + 32) as char else c
  }

  /** `String.equalsIgnoreCase` on non-null strings: same length and equal
      after folding, position by position. */
  predicate EqualsIgnoreCase(a: string, b: string) {
    |a| == |b| && forall i :: 0 <= i < |a| ==> Lower(a[i]) == Lower(b[i])
  }

  lemma EqualsIgnoreCaseIsEquivalence(a: string, b: string, c: string)
    ensures EqualsIgnoreCase(a, a)
    ensures EqualsIgnoreCase(a, b) ==> EqualsIgnoreCase(b, a)
    ensures EqualsIgnoreCase(a, b) && EqualsIgnoreCase(b, c) ==> EqualsIgnoreCase(a, c)
  {
  }

  /** The only spellings `"m".equalsIgnoreCase(u)` admits are "m" and "M". */
  lemma MetresSpellings(u: string)
    ensures EqualsIgnoreCase("m", u) <==> u == "m" || u == "M"
  {
    if EqualsIgnoreCase("m", u) {
      assert Lower(u[0]) == 'm';
      assert u == [u[0]];
    }
  }

  // ----- validity and travellers ----------------------------------------

  /** `isValid()`: at least one traveller. */
  predicate IsValid(req: IsochroneRequest): (b: bool)
    ensures b <==> GetLocations(req) != []
    ensures b <==> GetSearchParameters(req, 0).Success?
  {
    |req.travellers| >= 1
  }

  /** `addTraveller(t)`: a null traveller throws (the message is the second
      component) and leaves the request as it was; otherwise `t` is appended. */
  function AddTraveller(req: IsochroneRequest, traveller: Option<TravellerInfo>): (r: (IsochroneRequest, Option<string>))
    ensures traveller.None? ==> r.0 == req && r.1 == Some(NullTravellerMessage)
    ensures traveller.Some? ==> r.1.None?
    ensures traveller.Some? ==>
              && |r.0.travellers| == |req.travellers| + 1
              && r.0.travellers[..|req.travellers|] == req.travellers
              && r.0.travellers[|req.travellers|] == traveller.value
              && r.0 == req.(travellers := r.0.travellers)
  {
    match traveller
    case None => (req, Some(NullTravellerMessage))
    case Some(t) => (req.(travellers := req.travellers + [t]), None)
  }

  /** A fresh request is invalid; adding a traveller makes any request valid;
      a rejected add changes nothing. */
  lemma AddTravellerValidity(req: IsochroneRequest, t: TravellerInfo)
    ensures !IsValid(NewRequest())
    ensures IsValid(AddTraveller(req, Some(t)).0)
    ensures IsValid(AddTraveller(req, None).0) == IsValid(req)
  {
  }

  /** The locations of a traveller list, in order. */
  function LocationsOf(ts: seq<TravellerInfo>): (locs: seq<Coordinate>)
    ensures |locs| == |ts|
    ensures forall i :: 0 <= i < |ts| ==> locs[i] == ts[i].location
  {
    if ts == [] then [] else LocationsOf(ts[..|ts| - 1]) + [ts[|ts| - 1].location]
  }

  /** `getLocations()`: one location per traveller, in traveller order. */
  function GetLocations(req: IsochroneRequest): (locs: seq<Coordinate>)
    ensures |locs| == |req.travellers|
    ensures forall i :: 0 <= i < |locs| ==> locs[i] == req.travellers[i].location
  {
    LocationsOf(req.travellers)
  }

  /** Adding a traveller appends its location to the request's locations. */
  lemma LocationsAfterAdd(req: IsochroneRequest, t: TravellerInfo)
    ensures GetLocations(AddTraveller(req, Some(t)).0) == GetLocations(req) + [t.location]
  {
  }

  // ----- attributes -----------------------------------------------------

  /** True when some non-null entry of `xs` at or after `from` equals `attr`
      ignoring case: the loop of `hasAttribute`. */
  function FoundFrom(attr: string, xs: seq<Option<string>>, from: nat): (b: bool)
    decreases |xs| - from
    ensures b <==> exists i :: from <= i < |xs| && xs[i].Some? && EqualsIgnoreCase(attr, xs[i].value)
  {
    if from >= |xs| then false
    else if xs[from].Some? && EqualsIgnoreCase(attr, xs[from].value) then true
    else FoundFrom(attr, xs, from + 1)
  }

  /** `hasAttribute(attr)`. */
  function HasAttribute(req: IsochroneRequest, attr: Option<string>): (b: bool)
    ensures req.attributes.None? || attr.None? ==> !b
    ensures req.attributes.Some? && attr.Some? ==>
              (b <==> exists i :: 0 <= i < |req.attributes.value| && req.attributes.value[i].Some?
                                  && EqualsIgnoreCase(attr.value, req.attributes.value[i].value))
  {
    match (req.attributes, attr)
    case (Some(xs), Some(a)) => FoundFrom(a, xs, 0)
    case _ => false
  }

  /** The lookup cannot tell apart two spellings that differ only in case. */
  lemma HasAttributeIgnoresCase(req: IsochroneRequest, a: string, b: string)
    requires EqualsIgnoreCase(a, b)
    ensures HasAttribute(req, Some(a)) == HasAttribute(req, Some(b))
  {
    if req.attributes.Some? {
      var xs := req.attributes.value;
      if HasAttribute(req, Some(a)) {
        var i :| 0 <= i < |xs| && xs[i].Some? && EqualsIgnoreCase(a, xs[i].value);
        EqualsIgnoreCaseIsEquivalence(b, a, xs[i].value);
      }
      if HasAttribute(req, Some(b)) {
        var i :| 0 <= i < |xs| && xs[i].Some? && EqualsIgnoreCase(b, xs[i].value);
        EqualsIgnoreCaseIsEquivalence(a, b, xs[i].value);
      }
    }
  }

  // ----- search parameters ----------------------------------------------

  /** The factor `getSearchParameters` multiplies a traveller's ranges by. */
  function RangeScale(units: Option<string>, rangeType: TravelRangeType): (scale: real)
    ensures scale == 1000.0 <==> units == Some("km") && rangeType == Distance
    ensures scale == 1609.34 <==> units == Some("mi") && rangeType == Distance
    ensures scale == 1.0 <==> !(rangeType == Distance && (units == Some("km") || units == Some("mi")))
  {
    if units.None? || EqualsIgnoreCase("m", units.value) then 1.0
    else if rangeType == Distance then
      match units.value
      case "m" => 1.0
      case "km" => 1000.0
      case "mi" => 1609.34
      case _ => 1.0
    else 1.0
  }

  /** The ranges multiplied by `scale`, element by element. */
  function Scaled(ranges: seq<real>, scale: real): (r: seq<real>)
    ensures |r| == |ranges|
    ensures forall k :: 0 <= k < |ranges| ==> r[k] == ranges[k] * scale
  {
    if ranges == [] then [] else Scaled(ranges[..|ranges| - 1], scale) + [ranges[|ranges| - 1] * scale]
  }

  /** `getSearchParameters(i)`.  The scaled ranges are written back into the
      traveller's own range array, so the request comes back updated beside
      the parameters. */
  function GetSearchParameters(req: IsochroneRequest, travellerIndex: int)
    : (r: Result<(IsochroneRequest, IsochroneSearchParameters), IndexOutOfBounds>)
    ensures r.Success? <==> 0 <= travellerIndex < |req.travellers|
    ensures r.Failure? ==> r.error == IndexOutOfBounds(travellerIndex, |req.travellers|)
    ensures r.Success? ==>
              var t := req.travellers[travellerIndex];
              var p := r.value.1;
              && |p.ranges| == |t.ranges|
              && (forall k :: 0 <= k < |t.ranges| ==> p.ranges[k] == t.ranges[k] * RangeScale(req.units, t.rangeType))
              && r.value.0 == req.(travellers := req.travellers[travellerIndex := t.(ranges := p.ranges)])
              && p.travellerIndex == travellerIndex && p.location == t.location
              && p.rangeType == t.rangeType && p.calcMethod == req.calcMethod
              && (p.reverseDirection <==>
                    t.locationType.Some? && EqualsIgnoreCase("destination", t.locationType.value))
  {
    if !(0 <= travellerIndex < |req.travellers|) then
      Failure(IndexOutOfBounds(travellerIndex, |req.travellers|))
    else
      var t := req.travellers[travellerIndex];
      var scale := RangeScale(req.units, t.rangeType);
      var ranges := if scale != 1.0 then Scaled(t.ranges, scale) else t.ranges;
      var reverse := t.locationType.Some? && EqualsIgnoreCase("destination", t.locationType.value);
      var p := IsochroneSearchParameters(travellerIndex, t.location, ranges, t.rangeType, req.calcMethod, reverse);
      Success((req.(travellers := req.travellers[travellerIndex := t.(ranges := ranges)]), p))
  }

  /** Units spelled other than "km" or "mi" exactly (e.g. "KM", "M") and
      time ranges are never scaled. */
  lemma UnscaledUnits(req: IsochroneRequest, i: int)
    requires 0 <= i < |req.travellers|
    requires req.units == Some("KM") || req.units == Some("M") || req.units.None?
             || req.travellers[i].rangeType == Time
    ensures GetSearchParameters(req, i).value.1.ranges == req.travellers[i].ranges
  {
    var p := GetSearchParameters(req, i).value.1;
    assert p.ranges == req.travellers[i].ranges;
  }

  /** Because the scaling happens in place, asking twice for the same
      traveller's parameters scales its ranges twice. */
  lemma SecondCallScalesAgain(req: IsochroneRequest, i: int)
    requires 0 <= i < |req.travellers|
    ensures var t := req.travellers[i];
            var scale := RangeScale(req.units, t.rangeType);
            var again := GetSearchParameters(GetSearchParameters(req, i).value.0, i).value.1;
            |again.ranges| == |t.ranges|
            && forall k :: 0 <= k < |t.ranges| ==> again.ranges[k] == t.ranges[k] * scale * scale
  {
    var first := GetSearchParameters(req, i).value.0;
    assert first.travellers[i].rangeType == req.travellers[i].rangeType;
    assert first.units == req.units;
  }
}
