/** The ground-truth correction for email `EMAIL_006`: the client confirmed
    that its incoterm is `FCA`, so the first record carrying that id has its
    `incoterm` overwritten and the file is saved again. */
module FixGroundTruth {
  import opened Options
  import opened JsonValue
  import opened Schemas

  /** The id of the record being corrected. */
  const TargetId: Value := Str("EMAIL_006")

  /** The incoterm the client confirmed. */
  const FixedIncoterm: Value := Str("FCA")

  /** Whether `record.get("id")` equals `id`. */
  predicate HasId(record: Record, id: Value) {
    Get(record, IdKey) == id
  }

  /** The position of the first record whose id is `id`, if any. */
  function FirstWithId(rs: seq<Record>, id: Value): (r: Option<nat>)
    ensures r.Some? ==> r.value < |rs| && HasId(rs[r.value], id)
    ensures r.Some? ==> forall k :: 0 <= k < r.value ==> !HasId(rs[k], id)
    ensures r.None? ==> forall k :: 0 <= k < |rs| ==> !HasId(rs[k], id)
  {
    if |rs| == 0 then None
    else if HasId(rs[0], id) then Some(0)
    else match FirstWithId(rs[1..], id)
      case None => None
      case Some(i) => Some(i + 1)
  }

  /** The records after the correction: the first `EMAIL_006` record gets
      incoterm `FCA` (the key is added if it was missing); nothing else changes.
      Without such a record the list is left as it is. */
  function Patched(rs: seq<Record>): (r: seq<Record>)
    ensures |r| == |rs|
    ensures FirstWithId(rs, TargetId).None? ==> r == rs
  {
    match FirstWithId(rs, TargetId)
    case None => rs
    case Some(i) => rs[i := rs[i][IncotermKey := FixedIncoterm]]
  }

  /** The list keeps its length and its order; every record other than the
      first `EMAIL_006` one is untouched. */
  lemma PatchedChangesOnlyTarget(rs: seq<Record>)
    ensures |Patched(rs)| == |rs|
    ensures forall k :: 0 <= k < |rs| && Some(k) != FirstWithId(rs, TargetId) ==> Patched(rs)[k] == rs[k]
  {
  }

  /** The corrected record has incoterm `FCA` whatever it had before, and all
      its other fields, its id included, are unchanged. */
  lemma PatchedSetsIncoterm(rs: seq<Record>, i: nat)
    requires FirstWithId(rs, TargetId) == Some(i)
    ensures IncotermKey in Patched(rs)[i] && Patched(rs)[i][IncotermKey] == FixedIncoterm
    ensures Patched(rs)[i].Keys == rs[i].Keys + {IncotermKey}
    ensures forall key :: key in rs[i] && key != IncotermKey ==> Patched(rs)[i][key] == rs[i][key]
    ensures HasId(Patched(rs)[i], TargetId)
  {
  }

  /** Later records with the same id are left alone, even when their incoterm
      is not `FCA`. */
  lemma PatchedLeavesLaterDuplicates(rs: seq<Record>, i: nat, k: nat)
    requires FirstWithId(rs, TargetId) == Some(i)
    requires i < k < |rs|
    ensures Patched(rs)[k] == rs[k]
  {
    PatchedChangesOnlyTarget(rs);
    assert Some(k) != FirstWithId(rs, TargetId);
  }

  /** Without an `EMAIL_006` record nothing changes. */
  lemma PatchedAbsent(rs: seq<Record>)
    requires forall k :: 0 <= k < |rs| ==> !HasId(rs[k], TargetId)
    ensures Patched(rs) == rs
  {
  }

  /** Applying the correction twice is the same as applying it once. */
  lemma PatchedIdempotent(rs: seq<Record>)
    ensures Patched(Patched(rs)) == Patched(rs)
  {
    match FirstWithId(rs, TargetId)
    case None =>
    case Some(i) =>
      var p := Patched(rs);
      PatchedSetsIncoterm(rs, i);
      assert forall k :: 0 <= k < i ==> p[k] == rs[k];
      FirstWithIdUnique(p, TargetId, i);
      assert p[i][IncotermKey := FixedIncoterm] == p[i];
  }

  /** A record with the id and none before it is the first one. */
  lemma {:induction false} FirstWithIdUnique(rs: seq<Record>, id: Value, i: nat)
    requires i < |rs| && HasId(rs[i], id)
    requires forall k :: 0 <= k < i ==> !HasId(rs[k], id)
    ensures FirstWithId(rs, id) == Some(i)
  {
    if i > 0 {
      assert !HasId(rs[0], id);
      FirstWithIdUnique(rs[1..], id, i - 1);
    }
  }

  /** The file `ground_truth.json`: the records it holds and how many times it
      has been written. */
  class GroundTruthFile {
    var records: seq<Record>
    var writes: nat

    constructor (initial: seq<Record>)
      ensures records == initial && writes == 0
    {
      records := initial;
      writes := 0;
    }

    /** `fix_email_006_incoterm`: loads the records, corrects the first
        `EMAIL_006` record and stops looking; saves the file only when a record
        was corrected. Returns whether it was. */
    method FixEmail006Incoterm() returns (updated: bool)
      modifies this
      ensures updated <==> FirstWithId(old(records), TargetId).Some?
      ensures records == Patched(old(records))
      ensures writes == if updated then old(writes) + 1 else old(writes)
    {
      var data := records;
      updated := false;
      var i := 0;
      while i < |data|
        invariant 0 <= i <= |data|
        invariant !updated ==> data == records && forall k :: 0 <= k < i ==> !HasId(records[k], TargetId)
        invariant updated ==> FirstWithId(records, TargetId).Some? && data == Patched(records)
        decreases |data| - i
      {
        if HasId(data[i], TargetId) {
          FirstWithIdUnique(records, TargetId, i);
          data := data[i := data[i][IncotermKey := FixedIncoterm]];
          updated := true;
          break;
        }
        i := i + 1;
      }
      if !updated {
        PatchedAbsent(records);
        return;
      }
      records := data;
      writes := writes + 1;
    }
  }
}
