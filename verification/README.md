# Heavy-vehicle edge filter, API enums and isochrone requests of openrouteservice

A Dafny model of three pieces of openrouteservice.

- **`HeavyVehicleEdgeFilter`** (`heavy_vehicle_edge_filter.dfy`) is the edge-acceptance predicate used when routing heavy goods vehicles.
  - It works in three modes:
    - ClosestEdge (code -2) is the initial mode.
    - DestinationEdges (code -1) is used while the filter enumerates destination-only edges.
    - Route (code 0) is used during the real route search.
  - `Accept` applies, in order:
    - the direction gate;
    - the mode-dependent vehicle-type mask branch;
    - the hazmat check;
    - the dimension-clearance check.
  - `SetDestinationEdge` runs the auxiliary single-source search in DestinationEdges mode. It collects a duplicate-free list of destination edge ids, or `None`, and then leaves the filter in Route mode. The search is modelled as one that always returns.
  - The filter is an immutable record, and every operation returns a new one.
  - The restriction storage is a `Store` record of decode functions. The Dijkstra search is a function parameter.
- **`ApiEnums`** (`api_enums.dfy`) covers the thirteen request vocabularies. Each has:
  - a value table;
  - a case-sensitive `forValue` parser that throws a `ParameterValueException` naming the enum's parameter;
  - a `toString` printer.

  All thirteen share one generic lookup.
- **`Isochrones`** (`isochrone_request.dfy`) covers the isochrone request bookkeeping:
  - validity;
  - the null-rejecting traveller append;
  - the case-insensitive attribute lookup;
  - traveller locations;
  - the unit scale factor and reverse-direction flag of `getSearchParameters`.

`wrappers.dfy` holds the shared `Option` (a possibly-null reference) and `Result` (a value or a thrown exception).

Representation choices:
- Java `int` masks are `bv32`.
- The destination byte `buffer[1]` is a `bv8`. It is sign-extended explicitly where the code compares `(byte)buffer[1]` with the `int` vehicle type.
- The `float`/`double` values and the constant 1609.34 are exact `real`s.
- `VehicleDimensionRestrictions` is not part of this model. Its constants are taken as MaxHeight..MaxAxleLoad = 0..4 and Count = 5. This matches the five-element arrays the filter allocates.

Behaviour of the code that the model keeps:
- `setDestinationEdge` has no fallback for a search that fails.
- The dimension check compares by position; see Findings.
- `accept` has no special case for an edge id outside the store; whatever the store's decode calls return for it is used.

## Model

| member | source | states |
|---|---|---|
| HeavyVehicleEdgeFilter.NewFilter | openrouteservice/src/main/java/heigit/ors/routing/graphhopper/extensions/edgefilters/HeavyVehicleEdgeFilter.java:82-122 | The constructor starts in ClosestEdge mode with no destination list. The vehicle's height, width, weight, length and axle load land at their dimension positions of `restrictionValues`. `indexValues` lists exactly the dimensions with a positive vehicle value, in increasing order, and `restCount` is at most Count. |
| HeavyVehicleEdgeFilter.RestCountBounded | openrouteservice/src/main/java/heigit/ors/routing/graphhopper/extensions/edgefilters/HeavyVehicleEdgeFilter.java:98-111 | A strictly increasing list of dimension indices has at most five entries, so `restCount <= Count` for every well-formed filter. |
| HeavyVehicleEdgeFilter.SignExtend | openrouteservice/src/main/java/heigit/ors/routing/graphhopper/extensions/edgefilters/HeavyVehicleEdgeFilter.java:177 | Widening the destination byte to `int` preserves its two's-complement value. |
| HeavyVehicleEdgeFilter.Accept | openrouteservice/src/main/java/heigit/ors/routing/graphhopper/extensions/edgefilters/HeavyVehicleEdgeFilter.java:164-307 | An accepted edge always passes the direction gate. In DestinationEdges mode, past the gate, the result is exactly: restricted, destination-flagged and mask contains the vehicle type. In the other modes an accepted edge passes the hazmat and dimension checks, and an unrestricted edge is decided by those checks alone. |
| HeavyVehicleEdgeFilter.RouteDestinationOnlyEdge | openrouteservice/src/main/java/heigit/ors/routing/graphhopper/extensions/edgefilters/HeavyVehicleEdgeFilter.java:229-242 | In Route mode a restricted destination-only edge is accepted iff all of these hold: its mask contains the vehicle type, the destination list exists and holds its id, and it passes the hazmat and dimension checks. A mismatching mask rejects it outright. |
| HeavyVehicleEdgeFilter.RouteThroughEdge | openrouteservice/src/main/java/heigit/ors/routing/graphhopper/extensions/edgefilters/HeavyVehicleEdgeFilter.java:243-244 | In Route mode a restricted edge without the destination flag is rejected when its mask contains the vehicle type. Otherwise the hazmat and dimension checks decide. |
| HeavyVehicleEdgeFilter.ClosestEdgeRestrictedEdge | openrouteservice/src/main/java/heigit/ors/routing/graphhopper/extensions/edgefilters/HeavyVehicleEdgeFilter.java:173-179 | In ClosestEdge mode a restricted edge is rejected iff (mask matches or destination flag) and the sign-extended destination byte differs from the vehicle type. Otherwise the later checks decide. |
| HeavyVehicleEdgeFilter.SecondaryChecks | openrouteservice/src/main/java/heigit/ors/routing/graphhopper/extensions/edgefilters/HeavyVehicleEdgeFilter.java:256-303 | After the mask branch falls through, a hazmat carrier is rejected from an edge whose mask has the HAZMAT bit. With no dimensions set, the edge is accepted iff the hazmat check passes. |
| HeavyVehicleEdgeFilter.DestinationModeIgnoresProfile | openrouteservice/src/main/java/heigit/ors/routing/graphhopper/extensions/edgefilters/HeavyVehicleEdgeFilter.java:180-184 | In DestinationEdges mode the result does not change whatever the hazmat flag, vehicle dimensions, destination list or stored limits are. |
| HeavyVehicleEdgeFilter.RequiredValuesMonotone | openrouteservice/src/main/java/heigit/ors/routing/graphhopper/extensions/edgefilters/HeavyVehicleEdgeFilter.java:263-300 | With the same dimensions set, raising the vehicle's values can only turn accepted edges into rejected ones. This holds for both the as-written and the corrected check. |
| HeavyVehicleEdgeFilter.AcceptCorrected | openrouteservice/src/main/java/heigit/ors/routing/graphhopper/extensions/edgefilters/HeavyVehicleEdgeFilter.java:263-300 | `accept` with the per-dimension check. An accepted edge passes the gate, the hazmat check and every set dimension. In DestinationEdges mode it agrees with `Accept`, so destination resolution is unaffected by the correction. |
| HeavyVehicleEdgeFilter.IntendedChecksEverySetDimension | openrouteservice/src/main/java/heigit/ors/routing/graphhopper/extensions/edgefilters/HeavyVehicleEdgeFilter.java:263-300 | For a well-formed filter and consistent storage, the corrected check passes iff no dimension with a positive vehicle value has a positive edge limit below that value. |
| HeavyVehicleEdgeFilter.AsWrittenAgreesOnLeadingDimensions | openrouteservice/src/main/java/heigit/ors/routing/graphhopper/extensions/edgefilters/HeavyVehicleEdgeFilter.java:264-297 | When the set dimensions are exactly the first `restCount` ones, the as-written and corrected checks agree. |
| HeavyVehicleEdgeFilter.AsWrittenIgnoresSoleWeightLimit | openrouteservice/src/main/java/heigit/ors/routing/graphhopper/extensions/edgefilters/HeavyVehicleEdgeFilter.java:264-269 | Take a vehicle with only weight 40 set and an edge with weight limit 7.5. `accept` as written admits it; the corrected version rejects it. |
| HeavyVehicleEdgeFilter.AsWrittenChecksLeadingPositions | openrouteservice/src/main/java/heigit/ors/routing/graphhopper/extensions/edgefilters/HeavyVehicleEdgeFilter.java:270-297 | Take a vehicle with weight 40 and length 18 set and an edge with weight limit 7.5. `accept` as written admits it; the corrected version rejects it. |
| HeavyVehicleEdgeFilter.SetDestinationEdge | openrouteservice/src/main/java/heigit/ors/routing/graphhopper/extensions/edgefilters/HeavyVehicleEdgeFilter.java:124-161 | For a search that returns, the call leaves Route mode and changes no other field except the destination list. With no edge, or base node -1, the list is kept. Otherwise it becomes a duplicate-free, non-empty list of exactly the search entries' ids, plus the candidate's original edge when its mask matches and its destination byte is set. It becomes `None` iff there are no entries and the candidate does not qualify. |
| ApiEnums.Values | openrouteservice/src/main/java/heigit/ors/api/requests/common/APIEnums.java:43-431 | The thirteen value tables, in declaration order. Every enum has at least one constant, and no value string is empty. Their distinctness is ApiEnums.ValuesDistinct. |
| ApiEnums.ParameterName | openrouteservice/src/main/java/heigit/ors/api/requests/common/APIEnums.java:61-431 | The parameter name each enum's parse error reports. None is empty; "profile" is reported exactly by the two profile enums and "format" exactly by the two response-type enums. |
| ApiEnums.ParameterNamesShared | openrouteservice/src/main/java/heigit/ors/api/requests/common/APIEnums.java:61-431 | Two different enums report the same parameter name only when they are the two profile enums or the two response-type enums. |
| ApiEnums.ToString | openrouteservice/src/main/java/heigit/ors/api/requests/common/APIEnums.java:64-68 | A constant prints as a non-empty string that no other constant of its enum prints. |
| ApiEnums.FirstMatch | openrouteservice/src/main/java/heigit/ors/api/requests/common/APIEnums.java:56-59 | The scan returns the first position whose value equals the argument, or nothing iff no value equals it. `null` equals nothing. |
| ApiEnums.ForValue | openrouteservice/src/main/java/heigit/ors/api/requests/common/APIEnums.java:55-62 | On success the parsed constant belongs to the enum and prints as the argument. The parser throws iff no value of the enum equals the argument, and the exception is INVALID_PARAMETER_VALUE with the enum's parameter name and the rejected value. |
| ApiEnums.ValuesDistinct | openrouteservice/src/main/java/heigit/ors/api/requests/common/APIEnums.java:159-167 | In each of the thirteen enums, the value strings are pairwise distinct. |
| ApiEnums.ToStringInjective | openrouteservice/src/main/java/heigit/ors/api/requests/common/APIEnums.java:184-188 | Two constants of one enum that print alike are the same constant. |
| ApiEnums.ForValueToString | openrouteservice/src/main/java/heigit/ors/api/requests/common/APIEnums.java:176-188 | `forValue(c.toString()) == c` for every constant of every enum. |
| ApiEnums.ToStringForValue | openrouteservice/src/main/java/heigit/ors/api/requests/common/APIEnums.java:336-347 | Whatever string `forValue` accepts, the parsed constant prints back as that same string. |
| ApiEnums.ForValueNull | openrouteservice/src/main/java/heigit/ors/api/requests/common/APIEnums.java:89-94 | `forValue(null)` throws INVALID_PARAMETER_VALUE naming the enum's parameter and a null value. |
| ApiEnums.ForValueCaseSensitive | openrouteservice/src/main/java/heigit/ors/api/requests/common/APIEnums.java:336-341 | Matching is case-sensitive: "KM" is not a unit and "HGV" is not a vehicle type, while "km" parses to KILOMETRES. |
| ApiEnums.ForValueUnknownVehicle | openrouteservice/src/main/java/heigit/ors/api/requests/common/APIEnums.java:167-182 | The JSON-hidden UNKNOWN vehicle type is still returned for "unknown". |
| ApiEnums.ProfilesAgree | openrouteservice/src/main/java/heigit/ors/api/requests/common/APIEnums.java:254-314 | Routing and matrix profiles accept the same strings at the same ordinals, and both name "profile". Both response types name "format". |
| Isochrones.NewRequest | openrouteservice/src/main/java/heigit/ors/isochrones/IsochroneRequest.java:31-34 | A fresh request is invalid, has no locations, has no attributes, fails `getSearchParameters` for every index, and does not include intersections. |
| Isochrones.IsValid | openrouteservice/src/main/java/heigit/ors/isochrones/IsochroneRequest.java:54-57 | A request is valid iff it has a location to search from, which is iff `getSearchParameters(0)` does not throw. |
| Isochrones.AddTraveller | openrouteservice/src/main/java/heigit/ors/isochrones/IsochroneRequest.java:146-152 | A null traveller throws the null-argument message and leaves the request unchanged. Otherwise the list grows by exactly one, keeps its prefix and ends with the new traveller, and nothing else changes. |
| Isochrones.AddTravellerValidity | openrouteservice/src/main/java/heigit/ors/isochrones/IsochroneRequest.java:54-57 | A fresh request is invalid, a successful add makes any request valid, and a rejected add leaves validity unchanged. |
| Isochrones.GetLocations | openrouteservice/src/main/java/heigit/ors/isochrones/IsochroneRequest.java:88-98 | One location per traveller, in traveller order. |
| Isochrones.LocationsAfterAdd | openrouteservice/src/main/java/heigit/ors/isochrones/IsochroneRequest.java:146-152 | Adding a traveller appends its location to the request's locations. |
| Isochrones.EqualsIgnoreCaseIsEquivalence | openrouteservice/src/main/java/heigit/ors/isochrones/IsochroneRequest.java:72 | The case-insensitive comparison is reflexive, symmetric and transitive. |
| Isochrones.FoundFrom | openrouteservice/src/main/java/heigit/ors/isochrones/IsochroneRequest.java:71-75 | The loop finds a match iff some non-null entry from the start index on equals the argument, ignoring case. |
| Isochrones.HasAttribute | openrouteservice/src/main/java/heigit/ors/isochrones/IsochroneRequest.java:67-76 | False when the attribute array or the argument is null. Otherwise true iff some entry equals the argument, ignoring case. |
| Isochrones.HasAttributeIgnoresCase | openrouteservice/src/main/java/heigit/ors/isochrones/IsochroneRequest.java:71-73 | Two spellings of an attribute that differ only in case get the same answer. |
| Isochrones.MetresSpellings | openrouteservice/src/main/java/heigit/ors/isochrones/IsochroneRequest.java:106 | The units guard treats exactly "m" and "M" as metres. |
| Isochrones.RangeScale | openrouteservice/src/main/java/heigit/ors/isochrones/IsochroneRequest.java:106-122 | The scale is 1000 iff units are exactly "km" and the range type is Distance. It is 1609.34 iff units are exactly "mi" and the range type is Distance. In every other case, including null, "m", "M" and "KM", it is 1.0. |
| Isochrones.GetSearchParameters | openrouteservice/src/main/java/heigit/ors/isochrones/IsochroneRequest.java:100-140 | An index out of range throws. Otherwise each range is multiplied by the scale and written back into the traveller inside the returned request, and the parameters carry those same ranges. The other positions of the traveller list keep their values (the model has no shared travellers or arrays; see Left out), and reverse direction is set iff the location type equals "destination" ignoring case. |
| Isochrones.UnscaledUnits | openrouteservice/src/main/java/heigit/ors/isochrones/IsochroneRequest.java:111-128 | Units "KM", "M" or null, or a Time range, leave the ranges unchanged. |
| Isochrones.SecondCallScalesAgain | openrouteservice/src/main/java/heigit/ors/isochrones/IsochroneRequest.java:103-127 | The scaling is in place, so asking twice for the same traveller's parameters multiplies its ranges by the scale twice. |

## Left out

- Restriction storage (`HeavyVehicleAttributesGraphStorage`, `HeavyVehicleAttributes`, `GraphStorageUtils`) is not part of this model. Its decode calls are the function fields of `Store`, and UNKNOWN and HAZMAT are opaque `Store` fields. The shared `buffer` scratch array is not modelled, since each decode call returns its values.
- The auxiliary Dijkstra search (`CustomDijkstra`, `FastestWeighting`, the search-tree map) is library code. It is the `search` parameter of `SetDestinationEdge`. Nothing is assumed about its entries: a root entry's edge id and the relation between entry ids and original edge ids are both left open.
- HeavyVehicleEdgeFilter.SetDestinationEdge: states the membership and the absence of duplicates of the collected list, not its order, because the code only ever reads the list through `contains` (HeavyVehicleEdgeFilter.java lines 146 and 234), so its order never changes a result.
- The constructor's hazmat flag test (`VehicleLoadCharacteristicsFlags.isSet`) is not part of this model. `VehicleParameters.carriesHazmat` is its outcome.
- Float and double casts and IEEE rounding are out of scope. The vehicle values, stored limits, ranges and 1609.34 are exact reals.
- `toString` of the filter is diagnostic output. The empty `HeavyVehicleFlagEncoder` branch of the constructor does nothing.
- The encoder and graph objects are left out. Direction flags come with each `Edge`. The encoder and traversal mode passed to `setDestinationEdge` only configure the search.
- Thread safety of filter instances is out of scope; every call here is sequential.
- Jackson and Swagger annotations are out of scope, except that the JSON-hidden UNKNOWN vehicle type is still in its enum's table.
- `RestResponseEntityExceptionHandler` is Spring exception-to-HTTP glue, and `BrotliResponseStream` is servlet stream I/O over a native library. Neither is part of this model.
- `equalsIgnoreCase` is modelled with ASCII case folding only. Java's Unicode case mapping for other letters is not modelled.
- The plain getters and setters of `IsochroneRequest` are the fields of the `IsochroneRequest` record. The traveller's route search parameters, which `getSearchParameters` only copies through, are not modelled.
- Isochrones.GetSearchParameters: the parameters get their own copy of the scaled ranges. In the code they share the traveller's array, so a later call that scales it in place also changes the ranges of parameters returned earlier. The records here have no references, so that sharing is not modelled. Travellers are likewise values: when the code holds one traveller object at two positions (`addTraveller` stores the reference it is given), or two travellers share one ranges array, scaling one position rescales the others too, and the model does not capture that.
- HeavyVehicleEdgeFilter.SetDestinationEdge: the search is a total function. A search that throws, which in the code leaves the filter in DestinationEdges mode with its old destination list, is not modelled.
- A null range array in a traveller is not modelled: ranges are always a sequence.

## Findings

| source | as written | input that shows it | evidently intended | confidence | as-written member | corrected member |
|---|---|---|---|---|---|---|
| openrouteservice/src/main/java/heigit/ors/routing/graphhopper/extensions/edgefilters/HeavyVehicleEdgeFilter.java:264-269 | With one dimension set, the edge's limit for that dimension is compared with `restrictionValues[0]`, the vehicle's height. | A vehicle with only weight 40 meets an edge with weight limit 7.5. The edge is accepted, because 7.5 < 0 is false. | Compare with `restrictionValues[indexValues[0]]`. | high; not executed | HeavyVehicleEdgeFilter.AsWrittenIgnoresSoleWeightLimit | HeavyVehicleEdgeFilter.IntendedChecksEverySetDimension |
| openrouteservice/src/main/java/heigit/ors/routing/graphhopper/extensions/edgefilters/HeavyVehicleEdgeFilter.java:270-297 | With two or more dimensions set, limits and vehicle values are compared at positions 0 .. restCount-1, whichever dimensions are set. | A vehicle with weight 40 and length 18 meets an edge with weight limit 7.5. Height and width are compared instead, and the edge is accepted. | Compare position `indexValues[k]` for each k < restCount. | medium, as it depends on the store filling all five limits in dimension order; not executed | HeavyVehicleEdgeFilter.AsWrittenChecksLeadingPositions | HeavyVehicleEdgeFilter.IntendedChecksEverySetDimension |

`Accept` keeps the code as written. `AcceptCorrected` uses the corrected check and is proved to agree with `Accept` in DestinationEdges mode. The destination resolution therefore has the same result either way.
