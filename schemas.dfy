/** The `ExtractedShipment` record shared by extraction and scoring: its fields,
    which of them are optional, their defaults, the shape check that
    `model_validate` performs on a dictionary, and the dictionary that
    `model_dump(mode="json")` produces. */
module Schemas {
  import opened Options
  import opened JsonValue

  const IdKey := "id"
  const ProductLineKey := "product_line"
  const OriginPortCodeKey := "origin_port_code"
  const OriginPortNameKey := "origin_port_name"
  const DestinationPortCodeKey := "destination_port_code"
  const DestinationPortNameKey := "destination_port_name"
  const IncotermKey := "incoterm"
  const CargoWeightKey := "cargo_weight_kg"
  const CargoCbmKey := "cargo_cbm"
  const IsDangerousKey := "is_dangerous"

  /** One extraction result. `id` is required; the six string fields and the two
      numeric fields are optional and default to null; `isDangerous` is a plain
      boolean that defaults to false. */
  datatype Shipment = Shipment(
    id: string,
    productLine: Option<string>,
    originPortCode: Option<string>,
    originPortName: Option<string>,
    destinationPortCode: Option<string>,
    destinationPortName: Option<string>,
    incoterm: Option<string>,
    cargoWeightKg: Option<real>,
    cargoCbm: Option<real>,
    isDangerous: bool)

  /** An `Optional[str]` field with default `None`: absent or null gives `None`,
      a string is kept, any other value fails validation (the outer `None`). */
  function OptionalStr(raw: Record, key: string): Option<Option<string>> {
    if key !in raw then Some(None)
    else match raw[key]
      case Null => Some(None)
      case Str(s) => Some(Some(s))
      case _ => None
  }

  /** An `Optional[float]` field with default `None`. */
  function OptionalFloat(raw: Record, key: string): Option<Option<real>> {
    if key !in raw then Some(None)
    else match raw[key]
      case Null => Some(None)
      case Num(x) => Some(Some(x))
      case _ => None
  }

  /** The `bool` field with default `False`; null is not a boolean. */
  function BoolWithDefault(raw: Record, key: string): Option<bool> {
    if key !in raw then Some(false)
    else match raw[key]
      case Bool(b) => Some(b)
      case _ => None
  }

  /** `ExtractedShipment.model_validate(raw)`: `None` when the dictionary does not
      have the record's shape; keys the record does not know are ignored. */
  function Validate(raw: Record): (r: Option<Shipment>)
    ensures r.Some? ==> IdKey in raw && raw[IdKey] == Str(r.value.id)
  {
    if IdKey !in raw || !raw[IdKey].Str? then None
    else
      var productLine :- OptionalStr(raw, ProductLineKey);
      var originCode :- OptionalStr(raw, OriginPortCodeKey);
      var originName :- OptionalStr(raw, OriginPortNameKey);
      var destinationCode :- OptionalStr(raw, DestinationPortCodeKey);
      var destinationName :- OptionalStr(raw, DestinationPortNameKey);
      var incoterm :- OptionalStr(raw, IncotermKey);
      var weight :- OptionalFloat(raw, CargoWeightKey);
      var cbm :- OptionalFloat(raw, CargoCbmKey);
      var dangerous :- BoolWithDefault(raw, IsDangerousKey);
      Some(Shipment(raw[IdKey].s, productLine, originCode, originName, destinationCode,
                    destinationName, incoterm, weight, cbm, dangerous))
  }

  function StrOrNull(v: Option<string>): Value {
    match v
    case Some(s) => Str(s)
    case None => Null
  }

  function NumOrNull(v: Option<real>): Value {
    match v
    case Some(x) => Num(x)
    case None => Null
  }

  /** `model_dump(mode="json")`: the record as a dictionary with all ten keys. */
  function Dump(s: Shipment): (d: Record)
    ensures d.Keys == {IdKey, ProductLineKey, OriginPortCodeKey, OriginPortNameKey,
                       DestinationPortCodeKey, DestinationPortNameKey, IncotermKey,
                       CargoWeightKey, CargoCbmKey, IsDangerousKey}
  {
    map[IdKey := Str(s.id),
        ProductLineKey := StrOrNull(s.productLine),
        OriginPortCodeKey := StrOrNull(s.originPortCode),
        OriginPortNameKey := StrOrNull(s.originPortName),
        DestinationPortCodeKey := StrOrNull(s.destinationPortCode),
        DestinationPortNameKey := StrOrNull(s.destinationPortName),
        IncotermKey := StrOrNull(s.incoterm),
        CargoWeightKey := NumOrNull(s.cargoWeightKg),
        CargoCbmKey := NumOrNull(s.cargoCbm),
        IsDangerousKey := Bool(s.isDangerous)]
  }

  /** The value under `key` may stand in an `Optional[str]` field. */
  predicate StrShaped(raw: Record, key: string) {
    key !in raw || raw[key].Null? || raw[key].Str?
  }

  /** The value under `key` may stand in an `Optional[float]` field. */
  predicate NumShaped(raw: Record, key: string) {
    key !in raw || raw[key].Null? || raw[key].Num?
  }

  /** `v` is what an optional string field holds for `key`: a string exactly
      when the key holds one, and then that string. */
  predicate ReadsStr(raw: Record, key: string, v: Option<string>) {
    (v.Some? <==> key in raw && raw[key].Str?) && (v.Some? ==> raw[key] == Str(v.value))
  }

  /** `v` is what an optional number field holds for `key`. */
  predicate ReadsNum(raw: Record, key: string, v: Option<real>) {
    (v.Some? <==> key in raw && raw[key].Num?) && (v.Some? ==> raw[key] == Num(v.value))
  }

  /** A dictionary validates exactly when `id` holds a string, each of the six
      string fields is absent, null or a string, each of the two number fields
      is absent, null or a number, and `is_dangerous`, when present, is a boolean. */
  lemma ValidateAccepts(raw: Record)
    ensures Validate(raw).Some? <==>
      && IdKey in raw && raw[IdKey].Str?
      && StrShaped(raw, ProductLineKey)
      && StrShaped(raw, OriginPortCodeKey)
      && StrShaped(raw, OriginPortNameKey)
      && StrShaped(raw, DestinationPortCodeKey)
      && StrShaped(raw, DestinationPortNameKey)
      && StrShaped(raw, IncotermKey)
      && NumShaped(raw, CargoWeightKey)
      && NumShaped(raw, CargoCbmKey)
      && (IsDangerousKey in raw ==> raw[IsDangerousKey].Bool?)
  {
  }

  /** Every field of a validated record is read from its own key: the string
      or number stored there, null when the key is absent or null, and
      `isDangerous` true exactly when the key holds `true`. */
  lemma ValidateReadsFields(raw: Record, s: Shipment)
    requires Validate(raw) == Some(s)
    ensures ReadsStr(raw, ProductLineKey, s.productLine)
    ensures ReadsStr(raw, OriginPortCodeKey, s.originPortCode)
    ensures ReadsStr(raw, OriginPortNameKey, s.originPortName)
    ensures ReadsStr(raw, DestinationPortCodeKey, s.destinationPortCode)
    ensures ReadsStr(raw, DestinationPortNameKey, s.destinationPortName)
    ensures ReadsStr(raw, IncotermKey, s.incoterm)
    ensures ReadsNum(raw, CargoWeightKey, s.cargoWeightKg)
    ensures ReadsNum(raw, CargoCbmKey, s.cargoCbm)
    ensures s.isDangerous <==> IsDangerousKey in raw && raw[IsDangerousKey] == Bool(true)
  {
    assert OptionalStr(raw, ProductLineKey) == Some(s.productLine)
        && OptionalStr(raw, OriginPortCodeKey) == Some(s.originPortCode)
        && OptionalStr(raw, OriginPortNameKey) == Some(s.originPortName)
        && OptionalStr(raw, DestinationPortCodeKey) == Some(s.destinationPortCode)
        && OptionalStr(raw, DestinationPortNameKey) == Some(s.destinationPortName)
        && OptionalStr(raw, IncotermKey) == Some(s.incoterm)
        && OptionalFloat(raw, CargoWeightKey) == Some(s.cargoWeightKg)
        && OptionalFloat(raw, CargoCbmKey) == Some(s.cargoCbm)
        && BoolWithDefault(raw, IsDangerousKey) == Some(s.isDangerous);
    OptionalStrReads(raw, ProductLineKey, s.productLine);
    OptionalStrReads(raw, OriginPortCodeKey, s.originPortCode);
    OptionalStrReads(raw, OriginPortNameKey, s.originPortName);
    OptionalStrReads(raw, DestinationPortCodeKey, s.destinationPortCode);
    OptionalStrReads(raw, DestinationPortNameKey, s.destinationPortName);
    OptionalStrReads(raw, IncotermKey, s.incoterm);
    OptionalFloatReads(raw, CargoWeightKey, s.cargoWeightKg);
    OptionalFloatReads(raw, CargoCbmKey, s.cargoCbm);
  }

  lemma OptionalStrReads(raw: Record, key: string, v: Option<string>)
    requires OptionalStr(raw, key) == Some(v)
    ensures ReadsStr(raw, key, v)
  {
  }

  lemma OptionalFloatReads(raw: Record, key: string, v: Option<real>)
    requires OptionalFloat(raw, key) == Some(v)
    ensures ReadsNum(raw, key, v)
  {
  }

  /** The dumped dictionary carries the record's id. */
  lemma DumpKeepsId(s: Shipment)
    ensures IdKey in Dump(s) && Dump(s)[IdKey] == Str(s.id)
  {
  }

  /** `id` has no default: a dictionary without it never validates. */
  lemma IdIsRequired(raw: Record)
    requires IdKey !in raw
    ensures Validate(raw) == None
  {
  }

  /** Every field other than `id` may be left out, and then takes its default:
      null for the optional fields, false for `is_dangerous`. */
  lemma AbsentFieldsTakeDefaults(raw: Record)
    requires Validate(raw).Some?
    ensures var s := Validate(raw).value;
      && (ProductLineKey !in raw ==> s.productLine == None)
      && (OriginPortCodeKey !in raw ==> s.originPortCode == None)
      && (OriginPortNameKey !in raw ==> s.originPortName == None)
      && (DestinationPortCodeKey !in raw ==> s.destinationPortCode == None)
      && (DestinationPortNameKey !in raw ==> s.destinationPortName == None)
      && (IncotermKey !in raw ==> s.incoterm == None)
      && (CargoWeightKey !in raw ==> s.cargoWeightKg == None)
      && (CargoCbmKey !in raw ==> s.cargoCbm == None)
      && (IsDangerousKey !in raw ==> !s.isDangerous)
  {
  }

  /** What `model_dump` writes, `model_validate` reads back unchanged. */
  lemma DumpValidates(s: Shipment)
    ensures Validate(Dump(s)) == Some(s)
  {
    var d := Dump(s);
    StrOrNullReadsBack(d, ProductLineKey, s.productLine);
    StrOrNullReadsBack(d, OriginPortCodeKey, s.originPortCode);
    StrOrNullReadsBack(d, OriginPortNameKey, s.originPortName);
    StrOrNullReadsBack(d, DestinationPortCodeKey, s.destinationPortCode);
    StrOrNullReadsBack(d, DestinationPortNameKey, s.destinationPortName);
    StrOrNullReadsBack(d, IncotermKey, s.incoterm);
    NumOrNullReadsBack(d, CargoWeightKey, s.cargoWeightKg);
    NumOrNullReadsBack(d, CargoCbmKey, s.cargoCbm);
    assert BoolWithDefault(d, IsDangerousKey) == Some(s.isDangerous);
  }

  lemma StrOrNullReadsBack(d: Record, key: string, v: Option<string>)
    requires key in d && d[key] == StrOrNull(v)
    ensures OptionalStr(d, key) == Some(v)
  {
  }

  lemma NumOrNullReadsBack(d: Record, key: string, v: Option<real>)
    requires key in d && d[key] == NumOrNull(v)
    ensures OptionalFloat(d, key) == Some(v)
  {
  }
}
