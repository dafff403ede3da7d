/**
 * What one clone call leaves behind, whether it completes or gives up, and
 * the lemmas that carry the state of each pass of the cloner into the next.
 */
module Outcome {
  import opened Records
  import opened Policy
  import opened Copying

  /**
   * The classification of the discovered records `found`: the queue holds
   * the candidates in order, and `oldToNew0` maps exactly the configured
   * instances and the ignored discovered records, each to its stand-in.
   */
  ghost predicate Classified(lim: Limits, db: Db, editor: Option<Attrs -> Attrs>, found: seq<Rec>,
                             queue: seq<Pending>, oldToNew0: map<Rec, Rec>)
  {
    && Origins(queue) == Candidates(lim, found)
    && (forall p :: p in queue ==> p.lastCount == -1 && p.attrs == Draft(editor, db, p.original))
    && (forall x :: x in oldToNew0 <==> x in lim.ignoredInstances || (x in found && IsIgnored(lim, x)))
    && (forall x :: x in oldToNew0 ==> oldToNew0[x] == StandIn(lim, x))
  }

  /** Classifying one more ignored record maps it to its stand-in. */
  lemma ClassifyIgnored(lim: Limits, db: Db, editor: Option<Attrs -> Attrs>, found: seq<Rec>,
                        queue: seq<Pending>, oldToNew0: map<Rec, Rec>, x: Rec)
    requires Classified(lim, db, editor, found, queue, oldToNew0) && IsIgnored(lim, x)
    ensures Classified(lim, db, editor, found + [x], queue, oldToNew0[x := StandIn(lim, x)])
  {
    assert found + [x] == (found + [x])[..|found|] + [x];
    assert (found + [x])[..|found|] == found;
  }

  /** Classifying one more record that is not ignored queues its draft copy. */
  lemma ClassifyQueued(lim: Limits, db: Db, editor: Option<Attrs -> Attrs>, found: seq<Rec>,
                       queue: seq<Pending>, oldToNew0: map<Rec, Rec>, x: Rec)
    requires Classified(lim, db, editor, found, queue, oldToNew0) && !IsIgnored(lim, x)
    ensures Classified(lim, db, editor, found + [x], queue + [Pending(Draft(editor, db, x), x, -1)], oldToNew0)
  {
    assert (found + [x])[..|found|] == found;
    assert Origins(queue + [Pending(Draft(editor, db, x), x, -1)]) == Origins(queue) + [x];
  }

  /** The map classification starts the copy maps from: each configured instance and ignored discovered record to its stand-in. */
  function StandIns(lim: Limits, found: seq<Rec>): map<Rec, Rec>
  {
    map x | x in lim.ignoredInstances.Keys + (set y | y in found && IsIgnored(lim, y)) :: StandIn(lim, x)
  }

  /** The classification's map is exactly StandIns. */
  lemma ClassifiedStandIns(lim: Limits, db: Db, editor: Option<Attrs -> Attrs>, found: seq<Rec>,
                           queue: seq<Pending>, oldToNew0: map<Rec, Rec>)
    requires Classified(lim, db, editor, found, queue, oldToNew0)
    ensures oldToNew0 == StandIns(lim, found)
  {
    assert oldToNew0.Keys == StandIns(lim, found).Keys;
  }

  /**
   * A completed clone of the discovered records `found` from `db` into
   * `db'`: the store grew by the copies `created` only; each non-ignored
   * record was copied as often as it was discovered and no ignored one was;
   * every discovered record is mapped, an ignored one to its stand-in and any
   * other to a copy of itself, the map being the stand-ins extended by the
   * creations in order; each copy passed the check `valid` against the
   * store as it stood just before its creation; and every copy is finished.
   */
  ghost predicate Cloned(lim: Limits, db: Db, editor: Option<Attrs -> Attrs>, valid: (ModelName, Attrs, Db) -> bool,
                         found: seq<Rec>, db': Db, created: seq<Rec>, origins: seq<Rec>, oldToNew: map<Rec, Rec>)
  {
    && Grown(db, db', created)
    && |origins| == |created|
    && (forall x :: multiset(origins)[x] == if IsIgnored(lim, x) then 0 else multiset(found)[x])
    && (forall x :: x in oldToNew <==> x in lim.ignoredInstances || x in found)
    && (forall x :: x in oldToNew && IsIgnored(lim, x) ==> oldToNew[x] == StandIn(lim, x))
    && (forall x :: x in found && !IsIgnored(lim, x) ==>
          exists i :: 0 <= i < |created| && created[i] == oldToNew[x] && origins[i] == x)
    && oldToNew == MapAfter(StandIns(lim, found), created, origins, |created|)
    && PassedCheck(db, editor, valid, StandIns(lim, found), created, origins)
    && (forall i :: 0 <= i < |created| ==>
          created[i].model == origins[i].model && FinishedCopy(db, editor, oldToNew, db'.rows[created[i]], origins[i]))
  }

  /**
   * A clone that gave up with the copies `waiting` still queued: the store
   * grew by the copies `created` only; these and the waiting copies together
   * stand for each non-ignored discovered record exactly as often as it was
   * discovered; each copy is stored as the creation loop made it, re-pointed
   * lazily through the map as it stood then, after passing the check
   * `valid` against the store as it stood then; and every waiting copy agrees
   * with its draft, is re-pointed lazily through the final map `oldToNew`,
   * and fails the check against the store `db'` left behind.
   */
  ghost predicate Abandoned(lim: Limits, db: Db, editor: Option<Attrs -> Attrs>, valid: (ModelName, Attrs, Db) -> bool,
                            found: seq<Rec>, db': Db, created: seq<Rec>, origins: seq<Rec>, oldToNew: map<Rec, Rec>,
                            waiting: seq<Pending>)
  {
    && Grown(db, db', created)
    && |origins| == |created|
    && (forall x :: multiset(origins)[x] + multiset(Origins(waiting))[x] ==
                    if IsIgnored(lim, x) then 0 else multiset(found)[x])
    && oldToNew == MapAfter(StandIns(lim, found), created, origins, |created|)
    && (forall i :: 0 <= i < |created| ==>
          && created[i].model == origins[i].model
          && CreatedRow(db, editor, db'.rows[created[i]], origins[i], MapAfter(StandIns(lim, found), created, origins, i)))
    && PassedCheck(db, editor, valid, StandIns(lim, found), created, origins)
    && waiting != []
    && (forall p :: p in waiting ==>
          && p.original in found && !IsIgnored(lim, p.original)
          && AgreesWithDraft(FieldsOf(db, p.original.model), p.attrs, Draft(editor, db, p.original))
          && LazilyRepointed(db, p.attrs, p.original, oldToNew)
          && !valid(p.original.model, p.attrs, db'))
  }

  /** The classified queue meets the creation loop's precondition. */
  lemma ReadyToCreate(lim: Limits, db: Db, editor: Option<Attrs -> Attrs>, found: seq<Rec>,
                      queue: seq<Pending>, oldToNew0: map<Rec, Rec>)
    requires forall x :: x in found ==> x in db.rows
    requires Classified(lim, db, editor, found, queue, oldToNew0)
    ensures forall p :: p in queue ==>
              p.lastCount == -1 && p.original in db.rows && p.original !in oldToNew0 &&
              p.attrs == Draft(editor, db, p.original)
  {
    forall p | p in queue
      ensures p.original in db.rows && p.original !in oldToNew0
    {
      var i :| 0 <= i < |queue| && queue[i] == p;
      assert Origins(queue)[i] == p.original;
      CandidatesMembership(lim, found, p.original);
    }
  }

  /** The records created by a completed creation loop meet the final passes' precondition. */
  lemma ReadyToRewire(db: Db, editor: Option<Attrs -> Attrs>, valid: (ModelName, Attrs, Db) -> bool,
                      queue0: seq<Pending>, oldToNew0: map<Rec, Rec>,
                      db1: Db, created: seq<Rec>, newToOld: map<Rec, Rec>, oldToNew: map<Rec, Rec>, origins: seq<Rec>)
    requires Wf(db)
    requires Draining(db, editor, valid, queue0, oldToNew0, [], db1, created, newToOld, oldToNew, origins)
    ensures Distinct(created)
    ensures forall c :: c in created ==> c in db1.rows && c in newToOld && newToOld[c] !in created
    ensures forall c :: c in created ==> UniqueNames(FieldsOf(db1, c.model))
  {
    forall c | c in created
      ensures c in newToOld && newToOld[c] !in created && UniqueNames(FieldsOf(db1, c.model))
    {
      var i :| 0 <= i < |created| && created[i] == c;
      assert newToOld[c] == origins[i] && origins[i] in origins;
      UniqueFieldsOf(db, c.model);
    }
  }

  /** The final passes keep the records they were given in place and touch nothing else. */
  lemma ReadyAfterTouch(db: Db, db': Db, created: seq<Rec>, newToOld: map<Rec, Rec>)
    requires forall c :: c in created ==> c in db.rows && c in newToOld && newToOld[c] !in created
    requires forall c :: c in created ==> UniqueNames(FieldsOf(db, c.model))
    requires OnlyTouched(db, db', created)
    ensures forall c :: c in created ==> c in db'.rows && c in newToOld && newToOld[c] !in created
    ensures forall c :: c in created ==> UniqueNames(FieldsOf(db', c.model))
  {
    assert forall m :: FieldsOf(db', m) == FieldsOf(db, m);
  }

  /** A store that only the final passes changed after growing still has only grown. */
  lemma GrownTouched(db0: Db, db: Db, db': Db, created: seq<Rec>)
    requires Grown(db0, db, created) && OnlyTouched(db, db', created)
    ensures Grown(db0, db', created)
  {
    forall r | r in db0.rows
      ensures r in db'.rows && db'.rows[r] == db0.rows[r]
    {
      assert r !in created;
    }
  }

  /** A copy as the creation loop stored it, through both final passes, is finished. */
  lemma FinishedOne(db: Db, editor: Option<Attrs -> Attrs>, db1: Db, db2: Db, db3: Db,
                    c: Rec, original: Rec, oldToNewThen: map<Rec, Rec>, oldToNew: map<Rec, Rec>)
    requires db1.schema == db.schema && db2.schema == db1.schema && c.model == original.model
    requires RowOf(db1, original) == RowOf(db, original) && RowOf(db2, original) == RowOf(db1, original)
    requires CreatedRow(db, editor, RowOf(db1, c), original, oldToNewThen)
    requires c in db2.rows && db2.rows[c].members == RowOf(db1, c).members
    requires Repointed(db1, db2.rows[c].attrs, c, original, oldToNew)
    requires c in db3.rows && Refilled(db2, db3.rows[c], c, original, oldToNew)
    ensures FinishedCopy(db, editor, oldToNew, db3.rows[c], original)
  {
    var fs := FieldsOf(db, original.model);
    assert FieldsOf(db1, c.model) == fs && FieldsOf(db2, c.model) == fs;
    RewiredPersisted(fs);
    assert forall name :: Members(db2, c, name) == [];
  }

  /** Every copy of a completed creation loop, through both final passes, is finished. */
  lemma FinishedAll(db: Db, editor: Option<Attrs -> Attrs>, oldToNew0: map<Rec, Rec>, db1: Db, db2: Db, db3: Db,
                    created: seq<Rec>, newToOld: map<Rec, Rec>, oldToNew: map<Rec, Rec>, origins: seq<Rec>)
    requires Grown(db, db1, created) && CopiesOf(db, editor, oldToNew0, db1, created, newToOld, origins)
    requires forall x :: x in origins ==> x in db.rows
    requires ToOneDone(db1, db2, created, newToOld, oldToNew)
    requires ManyDone(db2, db3, created, newToOld, oldToNew)
    ensures forall i :: 0 <= i < |created| ==>
              created[i].model == origins[i].model && FinishedCopy(db, editor, oldToNew, db3.rows[created[i]], origins[i])
  {
    forall i | 0 <= i < |created|
      ensures FinishedCopy(db, editor, oldToNew, db3.rows[created[i]], origins[i])
    {
      var c, original := created[i], origins[i];
      assert original in origins && original !in created;
      assert CreatedAt(db, editor, oldToNew0, db1, created, origins, i);
      FinishedOne(db, editor, db1, db2, db3, c, original, MapAfter(oldToNew0, created, origins, i), oldToNew);
    }
  }

  /** How a completed creation loop started from a classified queue maps the discovered records. */
  lemma CreatedMaps(lim: Limits, db: Db, editor: Option<Attrs -> Attrs>, found: seq<Rec>, queue0: seq<Pending>,
                    oldToNew0: map<Rec, Rec>, created: seq<Rec>, newToOld: map<Rec, Rec>, oldToNew: map<Rec, Rec>,
                    origins: seq<Rec>)
    requires Classified(lim, db, editor, found, queue0, oldToNew0)
    requires MapsTo(db, oldToNew0, oldToNew, created, newToOld, origins)
    requires |origins| == |created| && multiset(origins) == multiset(Origins(queue0))
    requires forall i :: 0 <= i < |created| ==> created[i] in newToOld && newToOld[created[i]] == origins[i]
    ensures forall x :: multiset(origins)[x] == if IsIgnored(lim, x) then 0 else multiset(found)[x]
    ensures forall x :: x in oldToNew <==> x in lim.ignoredInstances || x in found
    ensures forall x :: x in oldToNew && IsIgnored(lim, x) ==> oldToNew[x] == StandIn(lim, x)
    ensures forall x :: x in found && !IsIgnored(lim, x) ==>
              exists i :: 0 <= i < |created| && created[i] == oldToNew[x] && origins[i] == x
  {
    assert multiset(origins) == multiset(Candidates(lim, found));
    forall x
      ensures multiset(origins)[x] == if IsIgnored(lim, x) then 0 else multiset(found)[x]
      ensures x in origins <==> x in found && !IsIgnored(lim, x)
    {
      CandidatesMembership(lim, found, x);
      if !IsIgnored(lim, x) {
        CandidatesCount(lim, found, x);
      }
    }
    forall x | x in found && !IsIgnored(lim, x)
      ensures exists i :: 0 <= i < |created| && created[i] == oldToNew[x] && origins[i] == x
    {
      var i :| 0 <= i < |created| && created[i] == oldToNew[x];
      assert newToOld[created[i]] == origins[i];
    }
  }

  /** A completed clone: the creation loop's state carried through both final passes. */
  lemma ClonedAfter(lim: Limits, db: Db, editor: Option<Attrs -> Attrs>, valid: (ModelName, Attrs, Db) -> bool,
                    found: seq<Rec>, queue0: seq<Pending>, oldToNew0: map<Rec, Rec>,
                    db1: Db, db2: Db, db3: Db, created: seq<Rec>, newToOld: map<Rec, Rec>,
                    oldToNew: map<Rec, Rec>, origins: seq<Rec>)
    requires Classified(lim, db, editor, found, queue0, oldToNew0)
    requires Draining(db, editor, valid, queue0, oldToNew0, [], db1, created, newToOld, oldToNew, origins)
    requires PassedCheck(db, editor, valid, oldToNew0, created, origins)
    requires ToOneDone(db1, db2, created, newToOld, oldToNew)
    requires ManyDone(db2, db3, created, newToOld, oldToNew)
    ensures Cloned(lim, db, editor, valid, found, db3, created, origins, oldToNew)
  {
    assert Origins([]) == [];
    CreatedMaps(lim, db, editor, found, queue0, oldToNew0, created, newToOld, oldToNew, origins);
    FinishedAll(db, editor, oldToNew0, db1, db2, db3, created, newToOld, oldToNew, origins);
    ClassifiedStandIns(lim, db, editor, found, queue0, oldToNew0);
    GrownTouched(db, db1, db2, created);
    GrownTouched(db, db2, db3, created);
  }

  /** The copies made and the copies waiting together stand for the candidates, each as often as discovered. */
  lemma WaitingCounts(lim: Limits, found: seq<Rec>, origins: seq<Rec>, waiting: seq<Pending>)
    requires multiset(origins) + multiset(Origins(waiting)) == multiset(Candidates(lim, found))
    ensures forall x :: multiset(origins)[x] + multiset(Origins(waiting))[x] ==
                        if IsIgnored(lim, x) then 0 else multiset(found)[x]
    ensures forall p :: p in waiting ==> p.original in found && !IsIgnored(lim, p.original)
  {
    forall x
      ensures multiset(origins)[x] + multiset(Origins(waiting))[x] == if IsIgnored(lim, x) then 0 else multiset(found)[x]
    {
      assert (multiset(origins) + multiset(Origins(waiting)))[x] == multiset(Candidates(lim, found))[x];
      CandidatesMembership(lim, found, x);
      if !IsIgnored(lim, x) {
        CandidatesCount(lim, found, x);
      }
    }
    forall p | p in waiting
      ensures p.original in found && !IsIgnored(lim, p.original)
    {
      var j :| 0 <= j < |waiting| && waiting[j] == p;
      assert Origins(waiting)[j] == p.original;
      assert p.original in multiset(Candidates(lim, found));
      CandidatesMembership(lim, found, p.original);
    }
  }

  /** The copies of a stopped creation loop are stored as it made them. */
  lemma StoppedRows(db: Db, editor: Option<Attrs -> Attrs>, oldToNew0: map<Rec, Rec>, db1: Db, created: seq<Rec>,
                    newToOld: map<Rec, Rec>, origins: seq<Rec>)
    requires CopiesOf(db, editor, oldToNew0, db1, created, newToOld, origins) && Grown(db, db1, created)
    ensures forall i :: 0 <= i < |created| ==>
              && created[i].model == origins[i].model
              && CreatedRow(db, editor, db1.rows[created[i]], origins[i], MapAfter(oldToNew0, created, origins, i))
  {
    forall i | 0 <= i < |created|
      ensures CreatedRow(db, editor, db1.rows[created[i]], origins[i], MapAfter(oldToNew0, created, origins, i))
    {
      assert created[i] in created;
      assert CreatedAt(db, editor, oldToNew0, db1, created, origins, i);
    }
  }

  /** A clone whose creation loop stopped with the copies `waiting` still queued. */
  lemma AbandonedAfter(lim: Limits, db: Db, editor: Option<Attrs -> Attrs>, valid: (ModelName, Attrs, Db) -> bool,
                       found: seq<Rec>, queue0: seq<Pending>, oldToNew0: map<Rec, Rec>, waiting: seq<Pending>,
                       db1: Db, created: seq<Rec>, newToOld: map<Rec, Rec>, oldToNew: map<Rec, Rec>, origins: seq<Rec>)
    requires Classified(lim, db, editor, found, queue0, oldToNew0)
    requires Stopped(db, editor, valid, queue0, oldToNew0, waiting, db1, created, newToOld, oldToNew, origins)
    ensures Abandoned(lim, db, editor, valid, found, db1, created, origins, oldToNew, waiting)
  {
    ClassifiedStandIns(lim, db, editor, found, queue0, oldToNew0);
    WaitingCounts(lim, found, origins, waiting);
    StoppedRows(db, editor, oldToNew0, db1, created, newToOld, origins);
  }

  /**
   * A completed clone under a check that rejects every copy created
   * nothing: every discovered record was ignored.
   */
  lemma RejectedEverywhere(lim: Limits, db: Db, editor: Option<Attrs -> Attrs>, valid: (ModelName, Attrs, Db) -> bool,
                           found: seq<Rec>, db': Db, created: seq<Rec>, origins: seq<Rec>, oldToNew: map<Rec, Rec>)
    requires Cloned(lim, db, editor, valid, found, db', created, origins, oldToNew)
    requires forall m, a, d :: !valid(m, a, d)
    ensures created == [] && db'.rows == db.rows
    ensures forall x :: x in found ==> IsIgnored(lim, x)
  {
    PassedFirst(db, editor, valid, StandIns(lim, found), created, origins);
    forall x | x in found
      ensures IsIgnored(lim, x)
    {
      assert multiset(origins)[x] == if IsIgnored(lim, x) then 0 else multiset(found)[x];
    }
  }

  /** Two positions holding the same record count it twice. */
  lemma CountTwice(s: seq<Rec>, i: nat, j: nat)
    requires i < j < |s| && s[i] == s[j]
    ensures multiset(s)[s[i]] >= 2
  {
    assert s == s[..j] + [s[j]] + s[j + 1..];
    assert s[i] in s[..j];
  }

  /**
   * When no record that is not ignored was discovered twice, the copies
   * and the map of a completed clone agree both ways: each copy is the one
   * its original maps to, as each original maps to a copy of itself.
   */
  lemma CopiesInverse(lim: Limits, db: Db, editor: Option<Attrs -> Attrs>, valid: (ModelName, Attrs, Db) -> bool,
                        found: seq<Rec>, db': Db, created: seq<Rec>, origins: seq<Rec>, oldToNew: map<Rec, Rec>)
    requires Cloned(lim, db, editor, valid, found, db', created, origins, oldToNew)
    requires forall x :: x in found && !IsIgnored(lim, x) ==> multiset(found)[x] == 1
    ensures forall i :: 0 <= i < |created| ==> origins[i] in oldToNew && oldToNew[origins[i]] == created[i]
  {
    forall i | 0 <= i < |created|
      ensures origins[i] in oldToNew && oldToNew[origins[i]] == created[i]
    {
      var x := origins[i];
      assert x in multiset(origins);
      assert !IsIgnored(lim, x) && x in found;
      var j :| 0 <= j < |created| && created[j] == oldToNew[x] && origins[j] == x;
      if j < i {
        CountTwice(origins, j, i);
      } else if i < j {
        CountTwice(origins, i, j);
      }
    }
  }

  /**
   * Each forward many-to-many collection of a finished copy holds, without
   * repeats, exactly the images of the original's members.
   */
  lemma FinishedMembers(db: Db, editor: Option<Attrs -> Attrs>, oldToNew: map<Rec, Rec>, row: Row,
                        original: Rec, f: Field, x: Rec)
    requires FinishedCopy(db, editor, oldToNew, row, original)
    requires f in FieldsOf(db, original.model) && IsOwnedManyToMany(f)
    ensures Distinct(RowMembers(row, f.name))
    ensures x in RowMembers(row, f.name) <==> exists y :: y in Members(db, original, f.name) && MapRec(oldToNew, y) == x
  {
    CopiedDistinct(oldToNew, [], Members(db, original, f.name));
    CopiedMembership(oldToNew, [], Members(db, original, f.name), x);
  }

  /**
   * Each forward to-one relation of a completed clone's copy leads where
   * the original's does, translated: to a copy of the target when the
   * target was discovered and is not ignored, to its stand-in when it is
   * ignored and mapped, and to the target itself when it is not mapped.
   * A null or plain value is carried over unchanged.
   */
  lemma RelationsFaithful(lim: Limits, db: Db, editor: Option<Attrs -> Attrs>, valid: (ModelName, Attrs, Db) -> bool,
                            found: seq<Rec>, db': Db, created: seq<Rec>, origins: seq<Rec>, oldToNew: map<Rec, Rec>, i: nat, f: Field)
    requires Cloned(lim, db, editor, valid, found, db', created, origins, oldToNew)
    requires i < |created| && f in FieldsOf(db, origins[i].model) && IsRewired(f)
    ensures var v, w := GetOrNull(RowOf(db, origins[i]).attrs, f.name), GetOrNull(RowOf(db', created[i]).attrs, f.name);
            && (!v.Ref? ==> w == v)
            && (v.Ref? && v.target in found && !IsIgnored(lim, v.target) ==>
                  exists j :: 0 <= j < |created| && w == Ref(created[j]) && origins[j] == v.target)
            && (v.Ref? && IsIgnored(lim, v.target) && (v.target in lim.ignoredInstances || v.target in found) ==>
                  w == Ref(StandIn(lim, v.target)))
            && (v.Ref? && v.target !in lim.ignoredInstances && v.target !in found ==> w == v)
  {
    var v := GetOrNull(RowOf(db, origins[i]).attrs, f.name);
    var row := db'.rows[created[i]];
    RewiredPersisted(FieldsOf(db, origins[i].model));
    assert row.attrs[f.name] == MapValue(oldToNew, v);
    if v.Ref? && v.target in found && !IsIgnored(lim, v.target) {
      var j :| 0 <= j < |created| && created[j] == oldToNew[v.target] && origins[j] == v.target;
    }
  }
}
