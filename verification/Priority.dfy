/** Which of two competing intents of one host wins. */
module Priority {
  import opened Domain

  /** A forced intent beats an unforced one; otherwise the older container beats the younger. */
  predicate ShouldReplaceExisting(challenger: RecordIntent, existing: RecordIntent) {
    if challenger.force && !existing.force then true
    else if !challenger.force && existing.force then false
    else challenger.created < existing.created
  }

  predicate Ties(x: RecordIntent, y: RecordIntent) {
    !ShouldReplaceExisting(x, y) && !ShouldReplaceExisting(y, x)
  }

  /** Priority goes by force and then by age, and is a strict weak order: it is transitive, never mutual, and
      intents that tie with one another tie with the same others. */
  lemma StrictWeakOrder(x: RecordIntent, y: RecordIntent, z: RecordIntent)
    ensures ShouldReplaceExisting(x, y) <==>
            (x.force && !y.force) || (x.force == y.force && x.created < y.created)
    ensures !(ShouldReplaceExisting(x, y) && ShouldReplaceExisting(y, x))
    ensures ShouldReplaceExisting(x, y) && ShouldReplaceExisting(y, z) ==> ShouldReplaceExisting(x, z)
    ensures Ties(x, y) && Ties(y, z) ==> Ties(x, z)
    ensures Ties(x, y) <==> x.force == y.force && x.created == y.created
  {
  }

  /** The flag loop decides whether a CNAME replaces every address of its name: it does exactly
      when it would replace each of them alone. */
  method ShouldReplaceAllExisting(challenger: RecordIntent, existing: seq<RecordIntent>) returns (replace: bool)
    ensures replace <==> forall i :: 0 <= i < |existing| ==> ShouldReplaceExisting(challenger, existing[i])
    ensures replace <==>
            forall i :: 0 <= i < |existing| ==>
              || (challenger.force && !existing[i].force)
              || (challenger.force == existing[i].force && challenger.created < existing[i].created)
  {
    if |existing| == 0 {
      return true;
    }
    var anyForce, allForce, allNonForce := false, true, true;
    var beforeAllForced, beforeAll := true, true;
    for i := 0 to |existing|
      invariant anyForce <==> exists j :: 0 <= j < i && existing[j].force
      invariant allForce <==> forall j :: 0 <= j < i ==> existing[j].force
      invariant allNonForce <==> forall j :: 0 <= j < i ==> !existing[j].force
      invariant beforeAllForced <==>
                forall j :: 0 <= j < i && existing[j].force ==> challenger.created < existing[j].created
      invariant beforeAll <==> forall j :: 0 <= j < i ==> challenger.created < existing[j].created
    {
      var before := challenger.created < existing[i].created;
      if existing[i].force {
        anyForce := true;
        allNonForce := false;
        if !before {
          beforeAllForced := false;
        }
      } else {
        allForce := false;
      }
      if !before {
        beforeAll := false;
      }
    }
    if anyForce && !challenger.force {
      return false;
    }
    if challenger.force && allNonForce {
      return true;
    }
    if challenger.force && !allForce {
      return beforeAllForced;
    }
    return beforeAll;
  }
}
