/** The scorer: type-directed comparison of two JSON values, the join of output
    records to ground truth by id, the per-field and overall counters, and the
    percentages with their zero-denominator guard. */
module Evaluate {
  import opened Options
  import opened JsonValue
  import opened PyText
  import opened PyRound
  import opened Schemas
  import Extract

  /** The nine scored fields, in report order. */
  const Fields: seq<string> := [ProductLineKey, OriginPortCodeKey, OriginPortNameKey,
                                DestinationPortCodeKey, DestinationPortNameKey, IncotermKey,
                                CargoWeightKey, CargoCbmKey, IsDangerousKey]

  // ---------------------------------------------------------------------------
  // values_equal

  /** `isinstance(v, (int, float))`; Python's `bool` is a subclass of `int`. */
  predicate IsNumeric(v: Value) {
    v.Bool? || v.Num?
  }

  /** `float(v)` for a numeric value; `True` is 1 and `False` is 0. */
  function NumericValue(v: Value): real
    requires IsNumeric(v)
  {
    if v.Bool? then (if v.b then 1.0 else 0.0) else v.x
  }

  /** Scoring reads a boolean or number as the same float that extraction's
      normalisation converts it to, whatever the string parser. */
  lemma NumericAgreesWithNormalisation(v: Value, lib: Extract.Library)
    requires IsNumeric(v)
    ensures Extract.ToFloat(v, lib) == Some(NumericValue(v))
  {
  }

  /** What `values_equal` looks at in a value: nothing for null, the number of
      hundredths after rounding for booleans and numbers, the trimmed
      lower-cased text for strings, the representation for anything else. */
  datatype Key = NullKey | NumberKey(hundredths: int) | TextKey(folded: string) | OtherKey(repr: string)

  function KeyOf(v: Value): Key {
    match v
    case Null => NullKey
    case Bool(b) => NumberKey(if b then 100 else 0)
    case Num(x) => NumberKey(RoundHalfEven(x * 100.0))
    case Str(s) => TextKey(Lower(Strip(s)))
    case Other(r) => OtherKey(r)
  }

  /** `values_equal(expected, actual)`, branch by branch. It holds exactly when
      the two values have the same key. */
  function ValuesEqual(expected: Value, actual: Value): (r: bool)
    ensures r <==> KeyOf(expected) == KeyOf(actual)
  {
    if expected.Null? && actual.Null? then true
    else if expected.Null? || actual.Null? then false
    else if expected.Bool? && actual.Bool? then expected.b == actual.b
    else if IsNumeric(expected) && IsNumeric(actual) then
      Round2(NumericValue(expected)) == Round2(NumericValue(actual))
    else if expected.Str? && actual.Str? then
      Lower(Strip(expected.s)) == Lower(Strip(actual.s))
    else expected == actual
  }

  /** `values_equal` is an equivalence: reflexive, symmetric and transitive. */
  lemma ValuesEqualIsEquivalence(a: Value, b: Value, c: Value)
    ensures ValuesEqual(a, a)
    ensures ValuesEqual(a, b) == ValuesEqual(b, a)
    ensures ValuesEqual(a, b) && ValuesEqual(b, c) ==> ValuesEqual(a, c)
  {
  }

  /** Null equals only null, on either side. */
  lemma NullEqualsOnlyNull(v: Value)
    ensures ValuesEqual(Null, v) <==> v == Null
    ensures ValuesEqual(v, Null) <==> v == Null
  {
  }

  /** A boolean and the number 1 are equal because `True` is an `int`, while two
      booleans must be identical; numbers agree when they agree to two decimals. */
  lemma NumericSamples()
    ensures ValuesEqual(Bool(true), Num(1.0)) && ValuesEqual(Num(0.0), Bool(false))
    ensures !ValuesEqual(Bool(true), Bool(false))
    ensures ValuesEqual(Num(1.004), Num(1.0)) && !ValuesEqual(Num(1.006), Num(1.0))
    ensures ValuesEqual(Num(1.005), Num(1.0))
  {
    RoundHalfEvenUnique(100.0, 100);
    RoundHalfEvenUnique(0.0, 0);
    RoundHalfEvenUnique(1.004 * 100.0, 100);
    RoundHalfEvenUnique(1.006 * 100.0, 101);
    RoundHalfEvenUnique(1.005 * 100.0, 100);
  }

  lemma StripSamples()
    ensures Strip("FOB ") == "FOB" && Strip("fob") == "fob"
  {
    assert "FOB "[0..3] == "FOB" && "FOB "[..0] == "" && "FOB "[3..] == " ";
    StripCharacterised("FOB ", "FOB", 0);
    assert "fob"[0..3] == "fob" && "fob"[..0] == "" && "fob"[3..] == "";
    StripCharacterised("fob", "fob", 0);
  }

  lemma LowerSamples()
    ensures Lower("FOB") == "fob" && Lower("fob") == "fob"
  {
    assert Lower("FOB")[0] == 'f' && Lower("FOB")[1] == 'o' && Lower("FOB")[2] == 'b';
    assert Lower("fob")[0] == 'f' && Lower("fob")[1] == 'o' && Lower("fob")[2] == 'b';
  }

  /** Strings agree up to surrounding space and case. */
  lemma TextSamples()
    ensures ValuesEqual(Str("FOB "), Str("fob"))
  {
    StripSamples();
    LowerSamples();
  }

  /** A string never equals a number, however alike they print. */
  lemma TextIsNotNumber(s: string, x: real)
    ensures !ValuesEqual(Str(s), Num(x)) && !ValuesEqual(Num(x), Str(s))
  {
  }

  // ---------------------------------------------------------------------------
  // The ground-truth index

  /** Whether Python can hash the value, i.e. use it as a dictionary key:
      lists and objects cannot. */
  predicate Hashable(v: Value) {
    !v.Other?
  }

  /** Every record's id, a missing one being `None`, can be hashed. */
  predicate HashableIds(rs: seq<Record>) {
    forall k :: 0 <= k < |rs| ==> Hashable(Get(rs[k], IdKey))
  }

  lemma HashableIdsStep(rs: seq<Record>, i: nat)
    requires i < |rs| && HashableIds(rs[..i]) && Hashable(Get(rs[i], IdKey))
    ensures HashableIds(rs[..i + 1])
  {
    assert forall k :: 0 <= k < i ==> rs[..i + 1][k] == rs[..i][k];
  }

  lemma UnhashableId(rs: seq<Record>, i: nat)
    requires i < |rs| && !Hashable(Get(rs[i], IdKey))
    ensures !HashableIds(rs)
  {
  }

  /** `{r["id"]: r for r in truth}`; `None` when a record has no id (the
      comprehension raises `KeyError`) or its id is a list or an object
      (`TypeError`). */
  function IndexById(truth: seq<Record>): (r: Option<map<Value, Record>>)
    ensures r.Some? <==> forall j :: 0 <= j < |truth| ==> IdKey in truth[j] && Hashable(truth[j][IdKey])
  {
    if |truth| == 0 then Some(map[])
    else
      var init := truth[..|truth| - 1];
      var last := truth[|truth| - 1];
      assert forall j :: 0 <= j < |init| ==> init[j] == truth[j];
      var m :- IndexById(init);
      if IdKey in last && Hashable(last[IdKey]) then Some(m[last[IdKey] := last]) else None
  }

  /** The index holds every id of the ground truth and no other. */
  lemma {:induction false} IndexHoldsEveryId(truth: seq<Record>)
    requires IndexById(truth).Some?
    ensures forall j :: 0 <= j < |truth| ==> truth[j][IdKey] in IndexById(truth).value
    ensures forall v :: v in IndexById(truth).value ==>
              exists j :: 0 <= j < |truth| && truth[j][IdKey] == v && IndexById(truth).value[v] == truth[j]
  {
    if |truth| > 0 {
      var init := truth[..|truth| - 1];
      assert forall j :: 0 <= j < |init| ==> init[j] == truth[j];
      IndexHoldsEveryId(init);
    }
  }

  /** A duplicated id is looked up to its last record: the comprehension keeps
      overwriting. */
  lemma {:induction false} IndexKeepsLast(truth: seq<Record>, k: nat)
    requires IndexById(truth).Some?
    requires k < |truth|
    requires forall j :: k < j < |truth| ==> truth[j][IdKey] != truth[k][IdKey]
    ensures truth[k][IdKey] in IndexById(truth).value
    ensures IndexById(truth).value[truth[k][IdKey]] == truth[k]
  {
    var init := truth[..|truth| - 1];
    assert forall j :: 0 <= j < |init| ==> init[j] == truth[j];
    if k < |truth| - 1 {
      IndexKeepsLast(init, k);
    }
  }

  // ---------------------------------------------------------------------------
  // The counters, as functions of the output records

  /** The output record has a ground-truth counterpart. */
  predicate Matched(rec: Record, byId: map<Value, Record>) {
    Get(rec, IdKey) in byId
  }

  /** The matched output record agrees with its ground truth on field `f`. */
  predicate FieldHit(rec: Record, byId: map<Value, Record>, f: string)
    requires Matched(rec, byId)
  {
    ValuesEqual(Get(byId[Get(rec, IdKey)], f), Get(rec, f))
  }

  /** How many output records are matched. */
  function MatchedCount(output: seq<Record>, byId: map<Value, Record>): nat {
    if |output| == 0 then 0
    else MatchedCount(output[..|output| - 1], byId) + (if Matched(output[|output| - 1], byId) then 1 else 0)
  }

  /** How many matched output records agree with their ground truth on `f`. */
  function FieldHits(output: seq<Record>, byId: map<Value, Record>, f: string): nat {
    if |output| == 0 then 0
    else
      var rec := output[|output| - 1];
      FieldHits(output[..|output| - 1], byId, f) + (if Matched(rec, byId) && FieldHit(rec, byId, f) then 1 else 0)
  }

  /** On how many of the fields `fs` the record agrees with its ground truth `gt`. */
  function RecordHits(gt: Record, rec: Record, fs: seq<string>): (n: nat)
    ensures n <= |fs|
  {
    if |fs| == 0 then 0
    else
      var f := fs[|fs| - 1];
      RecordHits(gt, rec, fs[..|fs| - 1]) + (if ValuesEqual(Get(gt, f), Get(rec, f)) then 1 else 0)
  }

  /** The agreements of all matched records over the fields `fs`, record by record. */
  function CorrectTotal(output: seq<Record>, byId: map<Value, Record>, fs: seq<string>): nat {
    if |output| == 0 then 0
    else
      var rec := output[|output| - 1];
      CorrectTotal(output[..|output| - 1], byId, fs)
      + (if Matched(rec, byId) then RecordHits(byId[Get(rec, IdKey)], rec, fs) else 0)
  }

  /** The per-field agreements summed over the fields `fs`. */
  function SumFieldHits(output: seq<Record>, byId: map<Value, Record>, fs: seq<string>): nat {
    if |fs| == 0 then 0
    else SumFieldHits(output, byId, fs[..|fs| - 1]) + FieldHits(output, byId, fs[|fs| - 1])
  }

  /** A field never has more agreements than there are matched records. */
  lemma {:induction false} FieldHitsAtMostMatched(output: seq<Record>, byId: map<Value, Record>, f: string)
    ensures FieldHits(output, byId, f) <= MatchedCount(output, byId)
  {
    if |output| > 0 {
      FieldHitsAtMostMatched(output[..|output| - 1], byId, f);
    }
  }

  lemma {:induction false} CorrectTotalLastField(output: seq<Record>, byId: map<Value, Record>, fs: seq<string>)
    requires |fs| > 0
    ensures CorrectTotal(output, byId, fs)
            == CorrectTotal(output, byId, fs[..|fs| - 1]) + FieldHits(output, byId, fs[|fs| - 1])
  {
    if |output| > 0 {
      CorrectTotalLastField(output[..|output| - 1], byId, fs);
    }
  }

  /** Counting agreements field by field or record by record gives the same
      total: the overall correct count is the sum of the per-field ones. */
  lemma {:induction false} FieldSumsToTotal(output: seq<Record>, byId: map<Value, Record>, fs: seq<string>)
    ensures SumFieldHits(output, byId, fs) == CorrectTotal(output, byId, fs)
  {
    if |fs| == 0 {
      ZeroFieldsZeroTotal(output, byId, fs);
    } else {
      FieldSumsToTotal(output, byId, fs[..|fs| - 1]);
      CorrectTotalLastField(output, byId, fs);
    }
  }

  lemma {:induction false} ZeroFieldsZeroTotal(output: seq<Record>, byId: map<Value, Record>, fs: seq<string>)
    requires |fs| == 0
    ensures CorrectTotal(output, byId, fs) == 0
  {
    if |output| > 0 {
      ZeroFieldsZeroTotal(output[..|output| - 1], byId, fs);
    }
  }

  /** An output record whose id the ground truth lacks changes no counter. */
  lemma UnmatchedRecordIsSkipped(output: seq<Record>, rec: Record, byId: map<Value, Record>)
    requires !Matched(rec, byId)
    ensures MatchedCount(output + [rec], byId) == MatchedCount(output, byId)
    ensures forall f :: FieldHits(output + [rec], byId, f) == FieldHits(output, byId, f)
    ensures CorrectTotal(output + [rec], byId, Fields) == CorrectTotal(output, byId, Fields)
  {
    assert (output + [rec])[..|output|] == output;
  }

  /** A matched output record is counted once on each of the nine fields and
      adds its agreements, at most nine, to the correct total. */
  lemma MatchedRecordCountsNine(output: seq<Record>, rec: Record, byId: map<Value, Record>)
    requires Matched(rec, byId)
    ensures |Fields| * MatchedCount(output + [rec], byId) == |Fields| * MatchedCount(output, byId) + 9
    ensures CorrectTotal(output + [rec], byId, Fields) <= CorrectTotal(output, byId, Fields) + 9
  {
    assert (output + [rec])[..|output|] == output;
  }

  // ---------------------------------------------------------------------------
  // The report

  /** The counters `main` ends with. */
  datatype Report = Report(fieldCorrect: map<string, nat>, fieldCount: map<string, nat>,
                           correctTotal: nat, fieldTotal: nat)

  function SumOver(m: map<string, nat>, fs: seq<string>): nat
    requires forall k :: 0 <= k < |fs| ==> fs[k] in m
  {
    if |fs| == 0 then 0 else SumOver(m, fs[..|fs| - 1]) + m[fs[|fs| - 1]]
  }

  /** The counter invariants: every field has both counters, no field has more
      correct than counted, and the totals are the sums of the per-field counters. */
  predicate Consistent(rep: Report) {
    && (forall k :: 0 <= k < |Fields| ==> Fields[k] in rep.fieldCorrect && Fields[k] in rep.fieldCount)
    && (forall k :: 0 <= k < |Fields| ==> rep.fieldCorrect[Fields[k]] <= rep.fieldCount[Fields[k]])
    && rep.correctTotal == SumOver(rep.fieldCorrect, Fields)
    && rep.fieldTotal == SumOver(rep.fieldCount, Fields)
  }

  lemma {:induction false} SumOverFieldHits(m: map<string, nat>, output: seq<Record>, byId: map<Value, Record>, fs: seq<string>)
    requires forall k :: 0 <= k < |fs| ==> fs[k] in m && m[fs[k]] == FieldHits(output, byId, fs[k])
    ensures SumOver(m, fs) == SumFieldHits(output, byId, fs)
  {
    if |fs| > 0 {
      SumOverFieldHits(m, output, byId, fs[..|fs| - 1]);
    }
  }

  lemma {:induction false} SumOverConstant(m: map<string, nat>, fs: seq<string>, c: nat)
    requires forall k :: 0 <= k < |fs| ==> fs[k] in m && m[fs[k]] == c
    ensures SumOver(m, fs) == |fs| * c
  {
    if |fs| > 0 {
      SumOverConstant(m, fs[..|fs| - 1], c);
    }
  }

  lemma {:induction false} SumOverMonotone(a: map<string, nat>, b: map<string, nat>, fs: seq<string>)
    requires forall k :: 0 <= k < |fs| ==> fs[k] in a && fs[k] in b && a[fs[k]] <= b[fs[k]]
    ensures SumOver(a, fs) <= SumOver(b, fs)
  {
    if |fs| > 0 {
      SumOverMonotone(a, b, fs[..|fs| - 1]);
    }
  }

  lemma FieldsDistinct()
    ensures forall a, b :: 0 <= a < b < |Fields| ==> Fields[a] != Fields[b]
  {
  }

  /** Updating the counter of one field leaves the counters of the others. */
  lemma UpdateOneField(m: map<string, nat>, j: nat, v: nat)
    requires j < |Fields|
    ensures forall k :: 0 <= k < |Fields| && k != j && Fields[k] in m ==>
      Fields[k] in m[Fields[j] := v] && m[Fields[j] := v][Fields[k]] == m[Fields[k]]
  {
    FieldsDistinct();
  }

  /** The inner loop of `main` for one matched output record `rec` whose
      ground truth is `gt`: each field's count goes up by one, its correct
      count by one when the values agree, and the totals likewise. */
  method CountRecord(gt: Record, rec: Record, fieldCorrect: map<string, nat>, fieldCount: map<string, nat>,
                     correctTotal: nat, fieldTotal: nat)
    returns (fieldCorrect': map<string, nat>, fieldCount': map<string, nat>, correctTotal': nat, fieldTotal': nat)
    requires forall k :: 0 <= k < |Fields| ==> Fields[k] in fieldCorrect && Fields[k] in fieldCount
    ensures forall k :: 0 <= k < |Fields| ==>
      && Fields[k] in fieldCount' && fieldCount'[Fields[k]] == fieldCount[Fields[k]] + 1
      && Fields[k] in fieldCorrect'
      && fieldCorrect'[Fields[k]] == fieldCorrect[Fields[k]] + (if ValuesEqual(Get(gt, Fields[k]), Get(rec, Fields[k])) then 1 else 0)
    ensures correctTotal' == correctTotal + RecordHits(gt, rec, Fields)
    ensures fieldTotal' == fieldTotal + |Fields|
  {
    fieldCorrect', fieldCount', correctTotal', fieldTotal' := fieldCorrect, fieldCount, correctTotal, fieldTotal;
    for j := 0 to |Fields|
      invariant forall k :: 0 <= k < j ==>
        && Fields[k] in fieldCount' && fieldCount'[Fields[k]] == fieldCount[Fields[k]] + 1
        && Fields[k] in fieldCorrect'
        && fieldCorrect'[Fields[k]] == fieldCorrect[Fields[k]] + (if ValuesEqual(Get(gt, Fields[k]), Get(rec, Fields[k])) then 1 else 0)
      invariant forall k :: j <= k < |Fields| ==>
        && Fields[k] in fieldCount' && fieldCount'[Fields[k]] == fieldCount[Fields[k]]
        && Fields[k] in fieldCorrect' && fieldCorrect'[Fields[k]] == fieldCorrect[Fields[k]]
      invariant fieldTotal' == fieldTotal + j
      invariant correctTotal' == correctTotal + RecordHits(gt, rec, Fields[..j])
    {
      var f := Fields[j];
      assert Fields[..j + 1][..j] == Fields[..j];
      UpdateOneField(fieldCount', j, fieldCount'[f] + 1);
      fieldCount' := fieldCount'[f := fieldCount'[f] + 1];
      if ValuesEqual(Get(gt, f), Get(rec, f)) {
        UpdateOneField(fieldCorrect', j, fieldCorrect'[f] + 1);
        fieldCorrect' := fieldCorrect'[f := fieldCorrect'[f] + 1];
        correctTotal' := correctTotal' + 1;
      }
      fieldTotal' := fieldTotal' + 1;
    }
    assert Fields[..|Fields|] == Fields;
  }

  /** Counters that agree with the counting functions satisfy the counter invariants. */
  lemma CountersConsistent(output: seq<Record>, byId: map<Value, Record>, rep: Report)
    requires forall k :: 0 <= k < |Fields| ==>
      && Fields[k] in rep.fieldCount && rep.fieldCount[Fields[k]] == MatchedCount(output, byId)
      && Fields[k] in rep.fieldCorrect && rep.fieldCorrect[Fields[k]] == FieldHits(output, byId, Fields[k])
    requires rep.fieldTotal == |Fields| * MatchedCount(output, byId)
    requires rep.correctTotal == CorrectTotal(output, byId, Fields)
    ensures Consistent(rep)
  {
    forall k | 0 <= k < |Fields| ensures rep.fieldCorrect[Fields[k]] <= rep.fieldCount[Fields[k]] {
      FieldHitsAtMostMatched(output, byId, Fields[k]);
    }
    SumOverFieldHits(rep.fieldCorrect, output, byId, Fields);
    FieldSumsToTotal(output, byId, Fields);
    SumOverConstant(rep.fieldCount, Fields, MatchedCount(output, byId));
  }

  /** How each counting function moves when one more output record is scored. */
  lemma CountersStep(output: seq<Record>, i: nat, byId: map<Value, Record>)
    requires i < |output|
    ensures var rec := output[i];
      && MatchedCount(output[..i + 1], byId) == MatchedCount(output[..i], byId) + (if Matched(rec, byId) then 1 else 0)
      && (forall f :: FieldHits(output[..i + 1], byId, f)
                      == FieldHits(output[..i], byId, f) + (if Matched(rec, byId) && FieldHit(rec, byId, f) then 1 else 0))
      && CorrectTotal(output[..i + 1], byId, Fields)
         == CorrectTotal(output[..i], byId, Fields) + (if Matched(rec, byId) then RecordHits(byId[Get(rec, IdKey)], rec, Fields) else 0)
  {
    assert output[..i + 1][..i] == output[..i];
  }

  /** The counters hold what the counting functions give for `output`. */
  predicate Agrees(output: seq<Record>, byId: map<Value, Record>, rep: Report) {
    && (forall k :: 0 <= k < |Fields| ==>
          && Fields[k] in rep.fieldCount && rep.fieldCount[Fields[k]] == MatchedCount(output, byId)
          && Fields[k] in rep.fieldCorrect && rep.fieldCorrect[Fields[k]] == FieldHits(output, byId, Fields[k]))
    && rep.fieldTotal == |Fields| * MatchedCount(output, byId)
    && rep.correctTotal == CorrectTotal(output, byId, Fields)
  }

  /** An output record whose id has no ground truth leaves the counters agreeing. */
  lemma AgreesSkip(output: seq<Record>, i: nat, byId: map<Value, Record>, rep: Report)
    requires i < |output| && !Matched(output[i], byId)
    requires Agrees(output[..i], byId, rep)
    ensures Agrees(output[..i + 1], byId, rep)
  {
    CountersStep(output, i, byId);
  }

  /** Counting a matched record field by field keeps the counters agreeing. */
  lemma AgreesCount(output: seq<Record>, i: nat, byId: map<Value, Record>, rep: Report, rep': Report)
    requires i < |output| && Matched(output[i], byId)
    requires Agrees(output[..i], byId, rep)
    requires var gt := byId[Get(output[i], IdKey)];
      && (forall k :: 0 <= k < |Fields| ==>
            && Fields[k] in rep'.fieldCount && rep'.fieldCount[Fields[k]] == rep.fieldCount[Fields[k]] + 1
            && Fields[k] in rep'.fieldCorrect
            && rep'.fieldCorrect[Fields[k]] == rep.fieldCorrect[Fields[k]] + (if ValuesEqual(Get(gt, Fields[k]), Get(output[i], Fields[k])) then 1 else 0))
      && rep'.correctTotal == rep.correctTotal + RecordHits(gt, output[i], Fields)
      && rep'.fieldTotal == rep.fieldTotal + |Fields|
    ensures Agrees(output[..i + 1], byId, rep')
  {
    CountersStep(output, i, byId);
  }

  /** The scoring part of `main`: `None` when a ground-truth record has no id
      or an unhashable one, or when an output record's id is unhashable (the
      `in` test raises `TypeError`); otherwise each field is counted once per
      matched output record and marked correct when its values agree, and the
      totals follow. */
  method Score(output: seq<Record>, truth: seq<Record>) returns (report: Option<Report>)
    ensures report.None? <==> IndexById(truth).None? || !HashableIds(output)
    ensures report.Some? ==>
      var byId := IndexById(truth).value;
      var rep := report.value;
      && (forall k :: 0 <= k < |Fields| ==>
            && Fields[k] in rep.fieldCount && rep.fieldCount[Fields[k]] == MatchedCount(output, byId)
            && Fields[k] in rep.fieldCorrect && rep.fieldCorrect[Fields[k]] == FieldHits(output, byId, Fields[k]))
      && rep.fieldTotal == |Fields| * MatchedCount(output, byId)
      && rep.correctTotal == CorrectTotal(output, byId, Fields)
    ensures report.Some? ==> Consistent(report.value)
  {
    var index := IndexById(truth);
    if index.None? {
      return None;
    }
    var byId := index.value;
    var correctTotal: nat := 0;
    var fieldTotal: nat := 0;
    var fieldCorrect: map<string, nat> := map f | f in Fields :: 0;
    var fieldCount: map<string, nat> := map f | f in Fields :: 0;
    assert Agrees(output[..0], byId, Report(fieldCorrect, fieldCount, correctTotal, fieldTotal));
    for i := 0 to |output|
      invariant Agrees(output[..i], byId, Report(fieldCorrect, fieldCount, correctTotal, fieldTotal))
      invariant HashableIds(output[..i])
    {
      var rec := output[i];
      var before := Report(fieldCorrect, fieldCount, correctTotal, fieldTotal);
      var eid := Get(rec, IdKey);
      if !Hashable(eid) {
        UnhashableId(output, i);
        return None;
      }
      HashableIdsStep(output, i);
      if eid !in byId {
        AgreesSkip(output, i, byId, before);
        continue;
      }
      fieldCorrect, fieldCount, correctTotal, fieldTotal :=
        CountRecord(byId[eid], rec, fieldCorrect, fieldCount, correctTotal, fieldTotal);
      AgreesCount(output, i, byId, before, Report(fieldCorrect, fieldCount, correctTotal, fieldTotal));
    }
    assert output[..|output|] == output;
    var rep := Report(fieldCorrect, fieldCount, correctTotal, fieldTotal);
    CountersConsistent(output, byId, rep);
    report := Some(rep);
  }

  /** `(100.0 * c / n) if n else 0`: a percentage, zero for an empty denominator. */
  function Percent(c: nat, n: nat): (p: real)
    ensures n == 0 ==> p == 0.0
    ensures n > 0 ==> p * (n as real) == 100.0 * (c as real)
    ensures c <= n ==> 0.0 <= p <= 100.0
  {
    if n == 0 then 0.0 else 100.0 * (c as real) / (n as real)
  }

  /** The reported percentages of a consistent report, per field and overall,
      all lie between 0 and 100. */
  lemma ReportPercentagesInRange(rep: Report)
    requires Consistent(rep)
    ensures forall k :: 0 <= k < |Fields| ==>
              0.0 <= Percent(rep.fieldCorrect[Fields[k]], rep.fieldCount[Fields[k]]) <= 100.0
    ensures 0.0 <= Percent(rep.correctTotal, rep.fieldTotal) <= 100.0
  {
    SumOverMonotone(rep.fieldCorrect, rep.fieldCount, Fields);
  }

  // ---------------------------------------------------------------------------
  // Scoring extraction results

  /** An extraction that reproduces the ground truth scores all nine fields. */
  lemma ExactRecordScoresNine(s: Shipment)
    ensures RecordHits(Dump(s), Dump(s), Fields) == 9
  {
    var d := Dump(s);
    forall k | 0 <= k <= |Fields| ensures RecordHits(d, d, Fields[..k]) == k {
      RecordHitsReflexive(d, Fields[..k]);
    }
    assert Fields[..9] == Fields;
  }

  lemma {:induction false} RecordHitsReflexive(d: Record, fs: seq<string>)
    ensures RecordHits(d, d, fs) == |fs|
  {
    if |fs| > 0 {
      RecordHitsReflexive(d, fs[..|fs| - 1]);
    }
  }

  /** Against a ground truth that fills in all eight optional fields, the
      fallback record scores only on `is_dangerous`, and only when the ground
      truth's value equals false. */
  lemma FallbackScoresOnlyDangerous(gt: Record, id: string)
    requires forall k :: 0 <= k < 8 ==> Get(gt, Fields[k]) != Null
    ensures RecordHits(gt, Dump(Extract.Fallback(id)), Fields)
            == (if ValuesEqual(Get(gt, IsDangerousKey), Bool(false)) then 1 else 0)
  {
    var d := Dump(Extract.Fallback(id));
    forall k | 0 <= k <= 8 ensures RecordHits(gt, d, Fields[..k]) == 0 {
      FallbackMissesOptional(gt, d, k);
    }
    assert Fields[..9][..8] == Fields[..8];
    assert Fields[..9] == Fields;
  }

  lemma {:induction false} FallbackMissesOptional(gt: Record, d: Record, k: nat)
    requires k <= 8
    requires forall j :: 0 <= j < 8 ==> Get(gt, Fields[j]) != Null && Get(d, Fields[j]) == Null
    ensures RecordHits(gt, d, Fields[..k]) == 0
  {
    if k > 0 {
      assert Fields[..k][..k - 1] == Fields[..k - 1];
      FallbackMissesOptional(gt, d, k - 1);
    }
  }
}
