/** The sanity check run after the correction: the first `EMAIL_006` record
    of the ground truth must have incoterm `FCA`. */
module GroundTruthCheck {
  import opened Options
  import opened JsonValue
  import opened Schemas
  import opened FixGroundTruth

  /** `test_email_006_incoterm`: scans the records in order; the first one
      with id `EMAIL_006` decides, passing exactly when its incoterm is `FCA`;
      with no such record the check fails. */
  function Email006Check(rs: seq<Record>): (ok: bool)
    ensures ok <==> match FirstWithId(rs, TargetId)
                    case None => false
                    case Some(i) => Get(rs[i], IncotermKey) == FixedIncoterm
  {
    if |rs| == 0 then false
    else if HasId(rs[0], TargetId) then Get(rs[0], IncotermKey) == FixedIncoterm
    else Email006Check(rs[1..])
  }

  /** Without an `EMAIL_006` record the check fails. */
  lemma CheckFailsWhenAbsent(rs: seq<Record>)
    requires forall k :: 0 <= k < |rs| ==> !HasId(rs[k], TargetId)
    ensures !Email006Check(rs)
  {
  }

  /** Records after the first `EMAIL_006` one are never consulted: replacing
      them by anything leaves the verdict as it is. */
  lemma CheckIgnoresLaterRecords(rs: seq<Record>, i: nat, later: seq<Record>)
    requires FirstWithId(rs, TargetId) == Some(i)
    ensures Email006Check(rs[..i + 1] + later) == Email006Check(rs)
  {
    var cut := rs[..i + 1] + later;
    assert forall k :: 0 <= k <= i ==> cut[k] == rs[k];
    FirstWithIdUnique(cut, TargetId, i);
  }

  /** After the correction the check passes exactly when there was an
      `EMAIL_006` record to correct. */
  lemma CheckPassesAfterFix(rs: seq<Record>)
    ensures Email006Check(Patched(rs)) <==> FirstWithId(rs, TargetId).Some?
  {
    match FirstWithId(rs, TargetId)
    case None =>
      PatchedAbsent(rs);
    case Some(i) =>
      var p := Patched(rs);
      PatchedSetsIncoterm(rs, i);
      assert forall k :: 0 <= k < i ==> p[k] == rs[k];
      FirstWithIdUnique(p, TargetId, i);
  }

  /** The script's exit status: 0 exactly when the first `EMAIL_006` record
      exists and has incoterm `FCA`, 1 otherwise. */
  function ExitCode(rs: seq<Record>): (code: int)
    ensures code == 0 <==> match FirstWithId(rs, TargetId)
                           case None => false
                           case Some(i) => Get(rs[i], IncotermKey) == FixedIncoterm
    ensures code == 0 || code == 1
  {
    if Email006Check(rs) then 0 else 1
  }

  /** Run on the corrected file, the script exits with 0 exactly when there
      was an `EMAIL_006` record to correct. */
  lemma ExitCodeAfterFix(rs: seq<Record>)
    ensures ExitCode(Patched(rs)) == 0 <==> FirstWithId(rs, TargetId).Some?
  {
    CheckPassesAfterFix(rs);
  }
}
