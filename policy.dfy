/**
 * The cloner's configuration ("limits") and the decisions it drives:
 * which relations are not followed, which records are boundaries of the
 * walk, and which records are mapped to a stand-in instead of being cloned.
 */
module Policy {
  import opened Records

  /**
   * ignoredModels: records of these exact models are never cloned, they map to themselves;
   * blockingModels, blockingInstances: records that end the walk (kept, not expanded);
   * ignoredFields: (exact model, accessor) pairs whose relation is not followed;
   * ignoredInstances: records that map to a given stand-in instead of being cloned.
   */
  datatype Limits = Limits(ignoredModels: seq<ModelName>,
                           blockingModels: seq<ModelName>,
                           ignoredFields: seq<(ModelName, FieldName)>,
                           ignoredInstances: map<Rec, Rec>,
                           blockingInstances: seq<Rec>)

  /** A neighbour whose exact model or identity is blocking: included, never expanded. */
  predicate IsBlocked(lim: Limits, x: Rec)
  {
    x.model in lim.blockingModels || x in lim.blockingInstances
  }

  /** A relation that the neighbour enumeration skips for records of this exact model. */
  predicate IsIgnoredField(lim: Limits, m: ModelName, name: FieldName)
  {
    (m, name) in lim.ignoredFields
  }

  /** A discovered record that is mapped instead of cloned. */
  predicate IsIgnored(lim: Limits, x: Rec)
  {
    x in lim.ignoredInstances || x.model in lim.ignoredModels
  }

  /** What an ignored record maps to: its configured stand-in first, otherwise itself. */
  function StandIn(lim: Limits, x: Rec): Rec
  {
    if x in lim.ignoredInstances then lim.ignoredInstances[x] else x
  }

  /** The discovered records that are queued for cloning, in discovery order, repeats kept. */
  function Candidates(lim: Limits, olds: seq<Rec>): seq<Rec>
  {
    if olds == [] then []
    else Candidates(lim, olds[..|olds| - 1])
         + (if IsIgnored(lim, olds[|olds| - 1]) then [] else [olds[|olds| - 1]])
  }

  /** A record is a candidate exactly when it was discovered and is not ignored. */
  lemma {:induction false} CandidatesMembership(lim: Limits, olds: seq<Rec>, x: Rec)
    ensures x in Candidates(lim, olds) <==> x in olds && !IsIgnored(lim, x)
  {
    if olds != [] {
      var init := olds[..|olds| - 1];
      CandidatesMembership(lim, init, x);
      assert olds == init + [olds[|olds| - 1]];
    }
  }

  /** Each candidate is queued as often as it was discovered. */
  lemma {:induction false} CandidatesCount(lim: Limits, olds: seq<Rec>, x: Rec)
    requires !IsIgnored(lim, x)
    ensures multiset(Candidates(lim, olds))[x] == multiset(olds)[x]
  {
    if olds != [] {
      var init := olds[..|olds| - 1];
      CandidatesCount(lim, init, x);
      assert olds == init + [olds[|olds| - 1]];
    }
  }
}
