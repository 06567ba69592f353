/** The request vocabularies of the public API (`APIEnums`).  Every Java enum
    there has the same shape: each constant carries one string value, the
    constant's `toString` prints that value, and `forValue` scans the constants
    in declaration order and returns the first whose value equals the argument
    exactly (case-sensitive), throwing a `ParameterValueException` that names
    the enum's request parameter otherwise.  The model keeps one generic lookup
    over a per-enum value table; a constant is its enum and its ordinal. */
module ApiEnums {
  import opened Wrappers

  /** The thirteen enums, in the order they are declared. */
  datatype EnumType =
    | AvoidBorders
    | ExtraInfo
    | RouteResponseType
    | MatrixResponseType
    | VehicleType
    | AvoidFeatures
    | RoutePreference
    | RoutingProfile
    | MatrixProfile
    | Units
    | Languages
    | InstructionsFormat
    | Attributes

  /** The value strings of an enum's constants, in declaration order. */
  function Values(t: EnumType): (table: seq<string>)
    ensures |table| >= 1
    ensures forall i :: 0 <= i < |table| ==> |table[i]| > 0
  {
    match t
    case AvoidBorders => ["all", "controlled", "none"]
    case ExtraInfo =>
      ["steepness", "suitability", "surface", "waycategory", "waytype",
       "tollways", "traildifficulty", "osmid"]
    case RouteResponseType => ["gpx", "json", "geojson"]
    case MatrixResponseType => ["json"]
    // The last constant, UNKNOWN, is hidden from JSON but still scanned by forValue.
    case VehicleType => ["hgv", "bus", "agricultural", "delivery", "forestry", "goods", "unknown"]
    case AvoidFeatures =>
      ["highways", "tollways", "ferries", "tunnels", "pavedroads",
       "unpavedroads", "tracks", "fords", "steps", "hills"]
    case RoutePreference => ["fastest", "shortest", "recommended"]
    case RoutingProfile => ProfileValues()
    case MatrixProfile => ProfileValues()
    case Units => ["m", "km", "mi"]
    case Languages => ["en", "cn", "de", "es", "ru", "dk", "fr", "it", "nl", "br", "se", "tr", "gr"]
    case InstructionsFormat => ["html", "text"]
    case Attributes => ["avgspeed", "detourfactor", "percentage"]
  }

  /** The value table written out twice in `APIEnums`, once for routing and
      once for matrix profiles. */
  function ProfileValues(): seq<string> {
    ["driving-car", "driving-hgv", "cycling-regular", "cycling-road", "cycling-safe",
     "cycling-mountain", "cycling-tour", "cycling-electric", "foot-walking",
     "foot-hiking", "wheelchair"]
  }

  /** The request parameter an enum's parse error names. */
  function ParameterName(t: EnumType): (name: string)
    ensures |name| > 0
    ensures name == "profile" <==> t == RoutingProfile || t == MatrixProfile
    ensures name == "format" <==> t == RouteResponseType || t == MatrixResponseType
  {
    match t
    case AvoidBorders => "avoid_borders"
    case ExtraInfo => "extra_info"
    case RouteResponseType => "format"
    case MatrixResponseType => "format"
    case VehicleType => "vehicle_type"
    case AvoidFeatures => "avoid_features"
    case RoutePreference => "preference"
    case RoutingProfile => "profile"
    case MatrixProfile => "profile"
    case Units => "units"
    case Languages => "language"
    case InstructionsFormat => "instructions_format"
    case Attributes => "attributes"
  }

  /** Only the two profile enums and the two response-type enums share a
      parameter name; every other enum reports its own. */
  lemma ParameterNamesShared(t: EnumType, u: EnumType)
    requires t != u && ParameterName(t) == ParameterName(u)
    ensures {t, u} == {RoutingProfile, MatrixProfile} || {t, u} == {RouteResponseType, MatrixResponseType}
  {
  }

  /** One constant of one enum: its position in the enum's value table. */
  datatype EnumValue = EnumValue(enumType: EnumType, ordinal: nat)

  type Constant = c: EnumValue | c.ordinal < |Values(c.enumType)|
    witness EnumValue(MatrixResponseType, 0)

  const HGV: Constant := EnumValue(VehicleType, 0)
  const UNKNOWN: Constant := EnumValue(VehicleType, 6)
  const METRES: Constant := EnumValue(Units, 0)
  const KILOMETRES: Constant := EnumValue(Units, 1)
  const MILES: Constant := EnumValue(Units, 2)

  /** `RoutingErrorCodes.INVALID_PARAMETER_VALUE`, the only code these parsers raise. */
  datatype ErrorCode = InvalidParameterValue

  /** `ParameterValueException(code, parameter, value)`; `value` is the
      rejected argument, which may be `null`. */
  datatype ParameterValueException =
    ParameterValueException(code: ErrorCode, parameter: string, value: Option<string>)

  /** The serialiser: a constant prints as its value string. */
  function ToString(c: Constant): (s: string)
    ensures |s| > 0
    ensures forall k :: 0 <= k < |Values(c.enumType)| ==> (Values(c.enumType)[k] == s <==> k == c.ordinal)
  {
    ValuesDistinct(c.enumType);
    Values(c.enumType)[c.ordinal]
  }

  /** True when no entry of `table` at or after `from` equals `v`.  A `null`
      argument equals nothing, as `String.equals(null)` is false. */
  ghost predicate AbsentFrom(table: seq<string>, v: Option<string>, from: nat) {
    forall k :: from <= k < |table| ==> Some(table[k]) != v
  }

  /** The scan of `forValue`: the first position at or after `from` whose
      entry equals `v`, or `None`. */
  function FirstMatch(table: seq<string>, v: Option<string>, from: nat): (r: Option<nat>)
    decreases |table| - from
    ensures r.Some? ==> from <= r.value < |table| && Some(table[r.value]) == v
    ensures r.Some? ==> forall k :: from <= k < r.value ==> Some(table[k]) != v
    ensures r.None? <==> AbsentFrom(table, v, from)
  {
    if from >= |table| then None
    else if Some(table[from]) == v then Some(from)
    else FirstMatch(table, v, from + 1)
  }

  /** The parser `forValue`. */
  function ForValue(t: EnumType, v: Option<string>): (r: Result<Constant, ParameterValueException>)
    ensures r.Success? ==> r.value.enumType == t && v == Some(ToString(r.value))
    ensures r.Failure? <==> AbsentFrom(Values(t), v, 0)
    ensures r.Failure? ==> r.error == ParameterValueException(InvalidParameterValue, ParameterName(t), v)
  {
    match FirstMatch(Values(t), v, 0)
    case Some(i) => Success(EnumValue(t, i))
    case None => Failure(ParameterValueException(InvalidParameterValue, ParameterName(t), v))
  }

  /** No two constants of one enum share a value string. */
  ghost predicate Distinct(table: seq<string>) {
    forall i, j :: 0 <= i < j < |table| ==> table[i] != table[j]
  }

  /** `Distinct`, computably: no entry at or after `from` equals `x`. */
  predicate NoneEqual(x: string, table: seq<string>, from: nat)
    decreases |table| - from
  {
    from >= |table| || (x != table[from] && NoneEqual(x, table, from + 1))
  }

  /** Every entry at or after `from` differs from all entries after it. */
  predicate DistinctFrom(table: seq<string>, from: nat)
    decreases |table| - from
  {
    from >= |table| || (NoneEqual(table[from], table, from + 1) && DistinctFrom(table, from + 1))
  }

  lemma {:induction false} NoneEqualSound(x: string, table: seq<string>, from: nat)
    requires NoneEqual(x, table, from)
    ensures forall k :: from <= k < |table| ==> table[k] != x
    decreases |table| - from
  {
    if from < |table| {
      NoneEqualSound(x, table, from + 1);
    }
  }

  lemma {:induction false} DistinctFromSound(table: seq<string>, from: nat)
    requires DistinctFrom(table, from)
    ensures forall i, j :: from <= i < j < |table| ==> table[i] != table[j]
    decreases |table| - from
  {
    if from < |table| {
      NoneEqualSound(table[from], table, from + 1);
      DistinctFromSound(table, from + 1);
    }
  }

  // One evaluation per table keeps each proof obligation small.
  lemma AvoidBordersTableDistinct() ensures DistinctFrom(Values(AvoidBorders), 0) {}
  lemma ExtraInfoTableDistinct() ensures DistinctFrom(Values(ExtraInfo), 0) {}
  lemma RouteResponseTypeTableDistinct() ensures DistinctFrom(Values(RouteResponseType), 0) {}
  lemma MatrixResponseTypeTableDistinct() ensures DistinctFrom(Values(MatrixResponseType), 0) {}
  lemma VehicleTypeTableDistinct() ensures DistinctFrom(Values(VehicleType), 0) {}
  lemma AvoidFeaturesTableDistinct() ensures DistinctFrom(Values(AvoidFeatures), 0) {}
  lemma RoutePreferenceTableDistinct() ensures DistinctFrom(Values(RoutePreference), 0) {}
  lemma RoutingProfileTableDistinct() ensures DistinctFrom(Values(RoutingProfile), 0) {}
  lemma MatrixProfileTableDistinct() ensures DistinctFrom(Values(MatrixProfile), 0) {}
  lemma UnitsTableDistinct() ensures DistinctFrom(Values(Units), 0) {}
  lemma LanguagesTableDistinct() ensures DistinctFrom(Values(Languages), 0) {}
  lemma InstructionsFormatTableDistinct() ensures DistinctFrom(Values(InstructionsFormat), 0) {}
  lemma AttributesTableDistinct() ensures DistinctFrom(Values(Attributes), 0) {}

  /** Each value table is free of duplicates, by evaluation. */
  lemma ValuesDistinctByEvaluation(t: EnumType)
    ensures DistinctFrom(Values(t), 0)
  {
    match t
    case AvoidBorders => AvoidBordersTableDistinct();
    case ExtraInfo => ExtraInfoTableDistinct();
    case RouteResponseType => RouteResponseTypeTableDistinct();
    case MatrixResponseType => MatrixResponseTypeTableDistinct();
    case VehicleType => VehicleTypeTableDistinct();
    case AvoidFeatures => AvoidFeaturesTableDistinct();
    case RoutePreference => RoutePreferenceTableDistinct();
    case RoutingProfile => RoutingProfileTableDistinct();
    case MatrixProfile => MatrixProfileTableDistinct();
    case Units => UnitsTableDistinct();
    case Languages => LanguagesTableDistinct();
    case InstructionsFormat => InstructionsFormatTableDistinct();
    case Attributes => AttributesTableDistinct();
  }

  /** Within each enum the value strings are pairwise distinct, so `toString`
      is injective and `forValue` has at most one match. */
  lemma ValuesDistinct(t: EnumType)
    ensures Distinct(Values(t))
  {
    ValuesDistinctByEvaluation(t);
    DistinctFromSound(Values(t), 0);
  }

  /** Printing is injective: two constants of one enum that print alike are equal. */
  lemma ToStringInjective(c: Constant, d: Constant)
    requires c.enumType == d.enumType && ToString(c) == ToString(d)
    ensures c == d
  {
    ValuesDistinct(c.enumType);
  }

  /** Parsing inverts printing: `forValue(c.toString()) == c` for every constant. */
  lemma ForValueToString(c: Constant)
    ensures ForValue(c.enumType, Some(ToString(c))) == Success(c)
  {
    var r := ForValue(c.enumType, Some(ToString(c)));
    assert !AbsentFrom(Values(c.enumType), Some(ToString(c)), 0) by {
      assert Values(c.enumType)[c.ordinal] == ToString(c);
    }
    ToStringInjective(r.value, c);
  }

  /** Printing inverts parsing: whatever `forValue` accepts prints back as the
      argument it was parsed from. */
  lemma ToStringForValue(t: EnumType, s: string)
    requires ForValue(t, Some(s)).Success?
    ensures ToString(ForValue(t, Some(s)).value) == s
  {
  }

  /** `forValue(null)` throws, naming the enum's parameter and the `null` value. */
  lemma ForValueNull(t: EnumType)
    ensures ForValue(t, None) == Failure(ParameterValueException(InvalidParameterValue, ParameterName(t), None))
  {
  }

  /** Matching is case-sensitive: upper-case spellings of valid values are rejected. */
  lemma ForValueCaseSensitive()
    ensures ForValue(Units, Some("KM")).Failure?
    ensures ForValue(VehicleType, Some("HGV")).Failure?
    ensures ForValue(Units, Some("km")) == Success(KILOMETRES)
  {
    assert Values(Units)[1] == "km";
    ForValueToString(KILOMETRES);
  }

  /** The hidden UNKNOWN vehicle type is still reachable through `forValue`. */
  lemma ForValueUnknownVehicle()
    ensures ForValue(VehicleType, Some("unknown")) == Success(UNKNOWN)
  {
    ForValueToString(UNKNOWN);
  }

  /** The two profile enums parse the same strings to the same ordinals, and
      the two response-type enums report the same parameter name. */
  lemma ProfilesAgree(v: Option<string>)
    ensures ForValue(RoutingProfile, v).Success? <==> ForValue(MatrixProfile, v).Success?
    ensures ForValue(RoutingProfile, v).Success? ==>
              ForValue(RoutingProfile, v).value.ordinal == ForValue(MatrixProfile, v).value.ordinal
    ensures ParameterName(RoutingProfile) == ParameterName(MatrixProfile) == "profile"
    ensures ParameterName(RouteResponseType) == ParameterName(MatrixResponseType) == "format"
  {
  }
}
