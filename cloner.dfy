/**
 * The cloner: its configuration, the discovery walk over the relation graph,
 * and the clone operation (classification, creation with retries, and the
 * two rewiring passes).
 */
module Cloning {
  import opened Records
  import opened Policy
  import opened Discovery
  import opened Copying
  import opened Outcome

  class Cloner {
    var ignoredModels: seq<ModelName>
    var blockingModels: seq<ModelName>
    var ignoredFields: seq<(ModelName, FieldName)>
    var ignoredInstances: map<Rec, Rec>
    var blockingInstances: seq<Rec>

    /** The current limits as a value. */
    function Lims(): Limits
      reads this
    {
      Limits(ignoredModels, blockingModels, ignoredFields, ignoredInstances, blockingInstances)
    }

    /** A cloner with no limits; `Cloner(**limits)` is this followed by ApplyLimits. */
    constructor ()
      ensures ignoredModels == [] && blockingModels == [] && ignoredFields == []
      ensures ignoredInstances == map[] && blockingInstances == []
    {
      ignoredModels := [];
      blockingModels := [];
      ignoredFields := [];
      ignoredInstances := map[];
      blockingInstances := [];
    }

    /**
     * Adds limits to the ones already configured: lists are extended,
     * pre-supplied stand-ins are merged (a new stand-in for the same record
     * replaces the old one). An empty argument leaves its limit as it was.
     */
    method ApplyLimits(moreIgnoredModels: seq<ModelName>, moreIgnoredInstances: map<Rec, Rec>,
                       moreBlockingModels: seq<ModelName>, moreIgnoredFields: seq<(ModelName, FieldName)>,
                       moreBlockingInstances: seq<Rec>)
      modifies this
      ensures ignoredModels == old(ignoredModels) + moreIgnoredModels
      ensures blockingModels == old(blockingModels) + moreBlockingModels
      ensures ignoredFields == old(ignoredFields) + moreIgnoredFields
      ensures ignoredInstances == old(ignoredInstances) + moreIgnoredInstances
      ensures blockingInstances == old(blockingInstances) + moreBlockingInstances
      ensures forall x :: IsBlocked(old(Lims()), x) ==> IsBlocked(Lims(), x)
      ensures forall x :: IsIgnored(old(Lims()), x) ==> IsIgnored(Lims(), x)
      ensures forall m, name :: IsIgnoredField(old(Lims()), m, name) ==> IsIgnoredField(Lims(), m, name)
    {
      if moreIgnoredModels != [] {
        ignoredModels := ignoredModels + moreIgnoredModels;
      }
      if moreBlockingModels != [] {
        blockingModels := blockingModels + moreBlockingModels;
      }
      if moreIgnoredFields != [] {
        ignoredFields := ignoredFields + moreIgnoredFields;
      }
      if moreIgnoredInstances != map[] {
        ignoredInstances := ignoredInstances + moreIgnoredInstances;
      }
      if moreBlockingInstances != [] {
        blockingInstances := blockingInstances + moreBlockingInstances;
      }
    }

    /** The neighbours of `obj`, field by field in schema order (see NeighborsMembership). */
    method GetAllNeighborObjects(db: Db, obj: Rec) returns (found: seq<Rec>)
      ensures found == Neighbors(Lims(), db, obj)
    {
      found := [];
      var fields := FieldsOf(db, obj.model);
      for i := 0 to |fields|
        invariant found == NeighborsAmong(Lims(), db, obj, fields[..i])
      {
        var field := fields[i];
        ghost var before := found;
        if IsRelation(field) {
          var blocked := false;
          var k := 0;
          while k < |ignoredFields|
            invariant 0 <= k <= |ignoredFields|
            invariant !blocked && (obj.model, field.name) !in ignoredFields[..k]
          {
            if ignoredFields[k] == (obj.model, field.name) {
              blocked := true;
              break;
            }
            k := k + 1;
          }
          assert k == |ignoredFields| ==> ignoredFields[..k] == ignoredFields;
          assert blocked == IsIgnoredField(Lims(), obj.model, field.name);
          if !blocked {
            if IsToOne(field) {
              match Lookup(db, obj, field.name)
              case Some(target) =>
                found := found + [target];
              case None =>
            } else {
              var members := Members(db, obj, field.name);
              for j := 0 to |members|
                invariant found == before + members[..j]
              {
                assert members[..j + 1] == members[..j] + [members[j]];
                found := found + [members[j]];
              }
              assert members[..|members|] == members;
            }
          }
        }
        assert found == before + Contribution(Lims(), db, obj, field);
        assert fields[..i + 1] == fields[..i] + [field];
        assert fields[..i + 1][..i] == fields[..i];
      }
      assert fields[..|fields|] == fields;
    }

    /** Follows resolvable parent links from `obj` until none resolves. */
    method ClimbParentLinks(db: Db, obj: Rec) returns (climbed: Rec)
      requires ParentLinksDescend(db)
      ensures climbed == Climb(db, obj)
      ensures ParentOf(db, climbed).None?
    {
      climbed := obj;
      var goingDown := true;
      while goingDown
        invariant Climb(db, climbed) == Climb(db, obj)
        invariant !goingDown ==> ParentOf(db, climbed).None?
        decreases (if goingDown then 1 else 0) + ClimbRank(db, climbed.model)
      {
        var parent := FirstClimbLink(db, climbed);
        goingDown := parent.Some?;
        if goingDown {
          assert ClimbRank(db, parent.value.model) < ClimbRank(db, climbed.model);
          climbed := parent.value;
        }
      }
    }

    /** One round of the climb: scans the fields of `r`'s model in order for the first climb link that is set. */
    method FirstClimbLink(db: Db, r: Rec) returns (parent: Option<Rec>)
      ensures parent == ParentOf(db, r)
    {
      var fields := FieldsOf(db, r.model);
      var i := 0;
      assert fields[0..] == fields;
      parent := None;
      while i < |fields|
        invariant 0 <= i <= |fields|
        invariant ParentOf(db, r) == FirstParentLink(db, r, fields[i..])
      {
        var field := fields[i];
        if IsRelation(field) && IsClimbLink(field) {
          match Lookup(db, r, field.name)
          case Some(p) =>
            parent := Some(p);
            return;
          case None =>
        }
        assert fields[i..][1..] == fields[i + 1..];
        i := i + 1;
      }
    }

    /**
     * The recursive walk: climbs from `obj`, and unless the climbed record is
     * already marked, marks it and takes its neighbours (see VisitNeighbors).
     * `tree` lists the records this call marked, in marking order.
     */
    method RelatedFrom(db: Db, obj: Rec, mark: set<Rec>) returns (found: seq<Rec>, mark': set<Rec>, ghost tree: seq<Rec>)
      requires Closed(db) && ParentLinksDescend(db)
      requires obj in db.rows && mark <= db.rows.Keys && Climbed(db, mark)
      ensures Walked(Lims(), db, obj, mark, found, mark', tree)
      ensures found == WalkFrom(Lims(), db, obj, mark).0 && mark' == WalkFrom(Lims(), db, obj, mark).1
      decreases |db.rows.Keys - mark|, 0
    {
      var obj' := ClimbParentLinks(db, obj);
      WalkFromUnfold(Lims(), db, obj, mark);
      if obj' in mark {
        return [], mark, [];
      }
      SmallerUnmarked(db.rows.Keys, mark, mark + {obj'}, obj');
      found, mark', tree := VisitNeighbors(db, obj, obj', mark);
    }

    /**
     * The body of the walk once `c`, climbed from `obj`, is newly marked:
     * `c` is listed first, then its neighbours are taken in order (see
     * VisitNeighbor).
     */
    method VisitNeighbors(db: Db, obj: Rec, c: Rec, mark: set<Rec>)
      returns (found: seq<Rec>, mark': set<Rec>, ghost tree: seq<Rec>)
      requires Closed(db) && ParentLinksDescend(db)
      requires c == Climb(db, obj) && c !in mark && c in db.rows && mark <= db.rows.Keys && Climbed(db, mark)
      requires forall n :: n in Neighbors(Lims(), db, c) ==> n in db.rows
      ensures Walked(Lims(), db, obj, mark, found, mark', tree)
      ensures (found, mark') == WalkAmong(Lims(), db, Neighbors(Lims(), db, c), [c], mark + {c})
      decreases |db.rows.Keys - (mark + {c})|, 2
    {
      mark' := mark + {c};
      found := [c];
      tree := [c];
      var neighbors := GetAllNeighborObjects(db, c);
      WalkOver(Lims(), db, obj, c, mark, neighbors);
      ghost var rest := WalkAmong(Lims(), db, neighbors, [c], mark + {c});
      for k := 0 to |neighbors|
        invariant Walking(Lims(), db, obj, c, mark, mark', found, tree, neighbors[..k])
        invariant WalkAmong(Lims(), db, neighbors[k..], found, mark') == rest
      {
        NoLargerUnmarked(db.rows.Keys, mark + {c}, mark');
        found, mark', tree := VisitNeighbor(db, obj, c, mark, mark', found, tree, neighbors, k, rest);
      }
      WalkOverEnd(Lims(), db, obj, c, mark, mark', found, tree, neighbors, rest);
    }

    /**
     * The neighbour `neighbors[k]` of the climbed record `c`: a blocking one
     * is kept without being expanded (and without being marked), an unmarked
     * one is walked from, a marked one is skipped. The walk's state moves on
     * from `neighbors[..k]` to `neighbors[..k + 1]`, with the same walk `rest`
     * still ahead.
     */
    method VisitNeighbor(db: Db, obj: Rec, c: Rec, ghost mark: set<Rec>, mark': set<Rec>, found: seq<Rec>,
                         ghost tree: seq<Rec>, neighbors: seq<Rec>, k: nat, ghost rest: (seq<Rec>, set<Rec>))
      returns (found': seq<Rec>, mark'': set<Rec>, ghost tree': seq<Rec>)
      requires Closed(db) && ParentLinksDescend(db)
      requires k < |neighbors| && neighbors == Neighbors(Lims(), db, c) && forall n :: n in neighbors ==> n in db.rows
      requires Walking(Lims(), db, obj, c, mark, mark', found, tree, neighbors[..k])
      requires WalkAmong(Lims(), db, neighbors[k..], found, mark') == rest
      ensures Walking(Lims(), db, obj, c, mark, mark'', found', tree', neighbors[..k + 1])
      ensures WalkAmong(Lims(), db, neighbors[k + 1..], found', mark'') == rest
      ensures IsBlocked(Lims(), neighbors[k]) ==> found' == found + [neighbors[k]] && mark'' == mark'
      ensures !IsBlocked(Lims(), neighbors[k]) && neighbors[k] in mark' ==> found' == found && mark'' == mark'
      ensures !IsBlocked(Lims(), neighbors[k]) && neighbors[k] !in mark' ==>
                found' == found + WalkFrom(Lims(), db, neighbors[k], mark').0 &&
                mark'' == WalkFrom(Lims(), db, neighbors[k], mark').1
      decreases |db.rows.Keys - mark'|, 1
    {
      var fld := neighbors[k];
      assert fld in neighbors;
      var blocked := IsBlockedNeighbor(fld);
      if blocked {
        WalkBlocked(Lims(), db, obj, c, mark, mark', found, tree, neighbors[..k], fld);
        found', mark'', tree' := found + [fld], mark', tree;
      } else if fld !in mark' {
        var sub;
        ghost var subtree;
        sub, mark'', subtree := RelatedFrom(db, fld, mark');
        WalkDescend(Lims(), db, obj, c, mark, mark', found, tree, neighbors[..k], fld, sub, mark'', subtree);
        found', tree' := found + sub, tree + subtree;
      } else {
        WalkMarked(Lims(), db, obj, c, mark, mark', found, tree, neighbors[..k], fld);
        found', mark'', tree' := found, mark', tree;
      }
      WalkNext(Lims(), db, obj, c, mark, neighbors, k, mark', found, tree, mark'', found', tree', rest);
    }

    /** Whether a neighbour is blocking: its exact model is a blocking model, or it is a blocking instance. */
    method IsBlockedNeighbor(fld: Rec) returns (blocked: bool)
      ensures blocked <==> fld.model in blockingModels || fld in blockingInstances
    {
      blocked := false;
      var b := 0;
      while b < |blockingModels|
        invariant 0 <= b <= |blockingModels|
        invariant !blocked && fld.model !in blockingModels[..b]
      {
        if blockingModels[b] == fld.model {
          blocked := true;
          break;
        }
        b := b + 1;
      }
      assert b == |blockingModels| ==> blockingModels[..b] == blockingModels;
      if fld in blockingInstances {
        blocked := true;
      }
    }

    /**
     * All records related to `obj`: the climbed root first, then depth-first
     * every record reachable through non-ignored relations without passing
     * through a blocking record, plus the blocking neighbours themselves.
     */
    method GetAllRelatedObject(db: Db, obj: Rec) returns (found: seq<Rec>)
      requires Closed(db) && ParentLinksDescend(db) && obj in db.rows
      ensures IsDiscovery(Lims(), db, obj, found)
      ensures found != [] && found[0] == Climb(db, obj) && ParentOf(db, found[0]).None?
      ensures RepeatsBlocked(Lims(), found)
      ensures forall x :: x in found ==> x in db.rows
      ensures found == WalkFrom(Lims(), db, obj, {}).0
    {
      var mark;
      ghost var tree;
      found, mark, tree := RelatedFrom(db, obj, {});
      assert mark == set x | x in tree;
      ClimbFixed(db, obj);
      assert Discovered(Lims(), db, obj, found, tree);
      DiscoveryStored(Lims(), db, obj, found);
    }

    /**
     * Re-points the forward to-one relations of a copy of model `m` (with
     * attributes `attrs`) made from `original`: each receives the original's
     * target mapped through `oldToNew`. In lazy mode a field that accepts null
     * is set to null instead; one that does not is mapped all the same.
     * Nothing else in `attrs` changes.
     */
    method UpdateRelations(db: Db, m: ModelName, attrs: Attrs, original: Rec, oldToNew: map<Rec, Rec>, lazy: bool)
      returns (attrs': Attrs)
      requires UniqueNames(FieldsOf(db, m))
      ensures attrs'.Keys == attrs.Keys + RewiredNames(FieldsOf(db, m))
      ensures forall name :: name in attrs && name !in RewiredNames(FieldsOf(db, m)) ==> attrs'[name] == attrs[name]
      ensures forall f :: f in FieldsOf(db, m) && IsRewired(f) ==>
                attrs'[f.name] == RewiredValue(f, lazy, oldToNew, RowOf(db, original).attrs)
      ensures attrs' == RewireAll(FieldsOf(db, m), attrs, lazy, oldToNew, RowOf(db, original).attrs)
    {
      var fields := FieldsOf(db, m);
      ghost var originalAttrs := RowOf(db, original).attrs;
      attrs' := attrs;
      for i := 0 to |fields|
        invariant attrs' == RewireAll(fields[..i], attrs, lazy, oldToNew, originalAttrs)
      {
        var field := fields[i];
        assert fields[..i + 1][..i] == fields[..i];
        if IsRelation(field) && !field.autoCreated && IsToOne(field) && !IsParentPointer(field) {
          var value := GetOrNull(RowOf(db, original).attrs, field.name);
          var mapped := MapValue(oldToNew, value);
          if lazy && field.nullable {
            attrs' := attrs'[field.name := Null];
          } else {
            attrs' := attrs'[field.name := mapped];
          }
        }
      }
      assert fields[..|fields|] == fields;
      RewireAllPointwise(fields, attrs, lazy, oldToNew, originalAttrs);
    }

    /** The creation arguments of a copy: every persisted field of model `m`, read from `attrs` (null when absent). */
    method CreationArgs(db: Db, m: ModelName, attrs: Attrs) returns (args: Attrs)
      ensures args.Keys == PersistedNames(FieldsOf(db, m))
      ensures forall name :: name in args ==> args[name] == GetOrNull(attrs, name)
      ensures args == CreationArgsOf(FieldsOf(db, m), attrs)
    {
      var fields := FieldsOf(db, m);
      args := map[];
      for i := 0 to |fields|
        invariant args.Keys == PersistedNames(fields[..i])
        invariant forall name :: name in args ==> args[name] == GetOrNull(attrs, name)
      {
        var field := fields[i];
        assert fields[..i + 1] == fields[..i] + [field];
        NamesSnoc(fields[..i], field);
        if !field.autoCreated {
          if !IsRelation(field) || !(IsParentPointer(field) || field.card == ManyToMany || field.card == OneToMany) {
            args := args[field.name := GetOrNull(attrs, field.name)];
          }
        }
      }
      assert fields[..|fields|] == fields;
    }

    /**
     * Clones everything related to `obj`: discovery, classification, the
     * creation loop, then the to-one and many-to-many passes. The result is
     * what `obj` is mapped to. `valid` is the store's uniqueness validation.
     * Errors: the creation loop stops once every copy still queued has
     * failed `valid` since the last record was created (the error carries
     * those copies, and nothing is rewired), or `obj` itself was never mapped, which
     * happens only when `obj` climbs to a parent record and is not
     * discovered from it.
     */
    method Clone(db: Db, obj: Rec, editor: Option<Attrs -> Attrs>, valid: (ModelName, Attrs, Db) -> bool)
      returns (res: Result<Rec, CloneError>, db': Db, found: seq<Rec>, created: seq<Rec>,
               origins: seq<Rec>, oldToNew: map<Rec, Rec>)
      requires Wf(db) && obj in db.rows
      ensures IsDiscovery(Lims(), db, obj, found)
      ensures res.Err? && res.error.NoProgress? ==>
                Abandoned(Lims(), db, editor, valid, found, db', created, origins, oldToNew, res.error.waiting)
      ensures !(res.Err? && res.error.NoProgress?) ==> Cloned(Lims(), db, editor, valid, found, db', created, origins, oldToNew)
      ensures res.Ok? <==> !(res.Err? && res.error.NoProgress?) && obj in oldToNew
      ensures res.Ok? ==> res.value == oldToNew[obj]
      ensures res == Err(MissingRoot) ==> obj !in found && ParentOf(db, obj).Some?
    {
      found := GetAllRelatedObject(db, obj);
      var queue, oldToNew0 := Classify(db, found, editor);
      assert Classified(Lims(), db, editor, found, queue, oldToNew0);
      ReadyToCreate(Lims(), db, editor, found, queue, oldToNew0);
      var waiting, db1, newToOld;
      waiting, db1, created, newToOld, oldToNew, origins := CreateAll(db, queue, oldToNew0, editor, valid);
      if waiting != [] {
        AbandonedAfter(Lims(), db, editor, valid, found, queue, oldToNew0, waiting,
                       db1, created, newToOld, oldToNew, origins);
        res, db' := Err(NoProgress(waiting)), db1;
        return;
      }
      ReadyToRewire(db, editor, valid, queue, oldToNew0, db1, created, newToOld, oldToNew, origins);
      var db2 := RewireToOne(db1, created, newToOld, oldToNew);
      ReadyAfterTouch(db1, db2, created, newToOld);
      db' := RewireManyToMany(db2, created, newToOld, oldToNew);
      ClonedAfter(Lims(), db, editor, valid, found, queue, oldToNew0, db1, db2, db', created, newToOld, oldToNew, origins);
      if obj in oldToNew {
        res := Ok(oldToNew[obj]);
      } else {
        res := Err(MissingRoot);
        ClimbFixed(db, obj);
      }
    }

    /**
     * The classification pass over the discovered records `olds`: ignored
     * ones are mapped to their stand-in (a pre-supplied stand-in first, the
     * record itself for an ignored model), every other one is queued, in
     * order and as often as it was discovered, with its draft copy.
     */
    method Classify(db: Db, olds: seq<Rec>, editor: Option<Attrs -> Attrs>)
      returns (queue: seq<Pending>, oldToNew: map<Rec, Rec>)
      ensures Origins(queue) == Candidates(Lims(), olds)
      ensures forall p :: p in queue ==> p.lastCount == -1 && p.attrs == Draft(editor, db, p.original)
      ensures forall x :: x in oldToNew <==> x in ignoredInstances || (x in olds && IsIgnored(Lims(), x))
      ensures forall x :: x in oldToNew ==> oldToNew[x] == StandIn(Lims(), x)
    {
      oldToNew := ignoredInstances;
      queue := [];
      for i := 0 to |olds|
        invariant Classified(Lims(), db, editor, olds[..i], queue, oldToNew)
      {
        var original := olds[i];
        assert olds[..i + 1] == olds[..i] + [original];
        if original in ignoredInstances {
          ClassifyIgnored(Lims(), db, editor, olds[..i], queue, oldToNew, original);
          oldToNew := oldToNew[original := ignoredInstances[original]];
        } else if original.model in ignoredModels {
          ClassifyIgnored(Lims(), db, editor, olds[..i], queue, oldToNew, original);
          oldToNew := oldToNew[original := original];
        } else {
          var draft := RowOf(db, original).attrs;
          if editor.Some? {
            draft := editor.value(draft);
          }
          ClassifyQueued(Lims(), db, editor, olds[..i], queue, oldToNew, original);
          queue := queue + [Pending(draft, original, -1)];
        }
      }
      assert olds[..|olds|] == olds;
    }

    /**
     * The creation loop. Pending copies are taken from the front of the
     * queue; each has its relations re-pointed lazily and is checked with
     * `valid` (the store's uniqueness validation) against the current store.
     * One that passes is created from its persisted fields and becomes the
     * copy of its original; one that fails goes to the back of the queue,
     * stamped with the number of records created so far. A copy that comes
     * round again with no record created since it was stamped stops the
     * loop; the copies still queued then are returned as `waiting`, that
     * copy first, and every one of them failed the check since the last
     * record was created.
     */
    method CreateAll(db0: Db, queue0: seq<Pending>, oldToNew0: map<Rec, Rec>, editor: Option<Attrs -> Attrs>,
                     valid: (ModelName, Attrs, Db) -> bool)
      returns (waiting: seq<Pending>, db: Db, created: seq<Rec>, newToOld: map<Rec, Rec>,
               oldToNew: map<Rec, Rec>, origins: seq<Rec>)
      requires Wf(db0)
      requires forall p :: p in queue0 ==>
                 p.lastCount == -1 && p.original in db0.rows && p.original !in oldToNew0 &&
                 p.attrs == Draft(editor, db0, p.original)
      ensures waiting == [] ==> Creating(db0, editor, valid, queue0, oldToNew0, [], db, created, newToOld, oldToNew, origins)
      ensures waiting != [] ==> Stopped(db0, editor, valid, queue0, oldToNew0, waiting, db, created, newToOld, oldToNew, origins)
      ensures forall p :: p in waiting ==> p.lastCount == |created| && !valid(p.original.model, p.attrs, db)
    {
      waiting := queue0;
      db, created, newToOld, oldToNew, origins := db0, [], map[], oldToNew0, [];
      CreatingStart(db0, editor, valid, queue0, oldToNew0);
      var stop := false;
      while waiting != [] && !stop
        invariant Creating(db0, editor, valid, queue0, oldToNew0, waiting, db, created, newToOld, oldToNew, origins)
        invariant stop ==> Stopped(db0, editor, valid, queue0, oldToNew0, waiting, db, created, newToOld, oldToNew, origins)
        decreases |waiting|, Unsettled(waiting, |created|), if stop then 0 else 1
      {
        stop, waiting, db, created, newToOld, oldToNew, origins :=
          CreateNext(db0, queue0, oldToNew0, editor, valid, waiting, db, created, newToOld, oldToNew, origins);
      }
      if stop {
        StoppedWaiting(db0, editor, valid, queue0, oldToNew0, waiting, db, created, newToOld, oldToNew, origins);
      }
    }

    /**
     * One turn of the creation loop on the copy at the front of `queue`. A
     * copy stamped with the current count stops the loop and nothing
     * changes. Any other copy is re-pointed lazily through `oldToNew` and
     * checked against the current store: if it fails, it goes to the back of
     * the queue stamped with the current count; if it passes, one record is
     * created from its persisted fields and mapped both ways.
     */
    method CreateNext(db0: Db, ghost queue0: seq<Pending>, ghost oldToNew0: map<Rec, Rec>, editor: Option<Attrs -> Attrs>,
                      valid: (ModelName, Attrs, Db) -> bool,
                      queue: seq<Pending>, db: Db, created: seq<Rec>, newToOld: map<Rec, Rec>,
                      oldToNew: map<Rec, Rec>, origins: seq<Rec>)
      returns (stop: bool, queue': seq<Pending>, db': Db, created': seq<Rec>, newToOld': map<Rec, Rec>,
               oldToNew': map<Rec, Rec>, origins': seq<Rec>)
      requires Wf(db0) && queue != []
      requires Creating(db0, editor, valid, queue0, oldToNew0, queue, db, created, newToOld, oldToNew, origins)
      ensures stop <==> queue[0].lastCount == |created|
      ensures stop ==> queue' == queue && db' == db && created' == created && newToOld' == newToOld &&
                       oldToNew' == oldToNew && origins' == origins
      ensures !stop && !valid(queue[0].original.model, LazyCopy(db, queue[0], oldToNew), db) ==>
                && queue' == queue[1..] + [Pending(LazyCopy(db, queue[0], oldToNew), queue[0].original, |created|)]
                && db' == db && created' == created && newToOld' == newToOld && oldToNew' == oldToNew && origins' == origins
      ensures !stop && valid(queue[0].original.model, LazyCopy(db, queue[0], oldToNew), db) ==>
                var x := queue[0].original;
                var made := Create(db, x.model, CreationArgsOf(FieldsOf(db, x.model), LazyCopy(db, queue[0], oldToNew)));
                && queue' == queue[1..] && db' == made.0 && created' == created + [made.1]
                && newToOld' == newToOld[made.1 := x] && oldToNew' == oldToNew[x := made.1] && origins' == origins + [x]
      ensures Creating(db0, editor, valid, queue0, oldToNew0, queue', db', created', newToOld', oldToNew', origins')
      ensures stop ==> Stopped(db0, editor, valid, queue0, oldToNew0, queue', db', created', newToOld', oldToNew', origins')
      ensures !stop ==> |queue'| < |queue| || (|queue'| == |queue| && Unsettled(queue', |created'|) < Unsettled(queue, |created|))
    {
      var p := queue[0];
      if p.lastCount == |created| {
        StuckStep(db0, editor, valid, queue0, oldToNew0, queue, db, created, newToOld, oldToNew, origins);
        return true, queue, db, created, newToOld, oldToNew, origins;
      }
      stop := false;
      var m := p.original.model;
      assert p in queue;
      UniqueFieldsOf(db0, m);
      var attrs := UpdateRelations(db, m, p.attrs, p.original, oldToNew, true);
      if !valid(m, attrs, db) {
        DeferStep(db0, editor, valid, queue0, oldToNew0, queue, db, created, newToOld, oldToNew, origins);
        return false, queue[1..] + [Pending(attrs, p.original, |created|)], db, created, newToOld, oldToNew, origins;
      }
      var args := CreationArgs(db, m, attrs);
      CreatePassed(db0, editor, valid, queue0, oldToNew0, queue, db, created, newToOld, oldToNew, origins, attrs, args);
      var c := Create(db, m, args).1;
      db', created' := Create(db, m, args).0, created + [c];
      oldToNew' := oldToNew[p.original := c];
      newToOld' := newToOld[c := p.original];
      origins' := origins + [p.original];
      queue' := queue[1..];
    }

    /**
     * The final to-one pass: each created record has every forward to-one
     * relation set to its original's target mapped through the final
     * `oldToNew`, and is saved.
     */
    method RewireToOne(db: Db, created: seq<Rec>, newToOld: map<Rec, Rec>, oldToNew: map<Rec, Rec>) returns (db': Db)
      requires Distinct(created)
      requires forall c :: c in created ==> c in db.rows && c in newToOld && newToOld[c] !in created
      requires forall c :: c in created ==> UniqueNames(FieldsOf(db, c.model))
      ensures ToOneDone(db, db', created, newToOld, oldToNew)
    {
      db' := db;
      for i := 0 to |created|
        invariant ToOneDone(db, db', created[..i], newToOld, oldToNew)
      {
        assert created[..i + 1] == created[..i] + [created[i]];
        assert created[i] !in created[..i];
        db' := RepointOne(db, db', created[..i], created[i], newToOld, oldToNew);
      }
      assert created[..|created|] == created;
    }

    /** One step of the to-one pass: re-point and save the copy `c`. */
    method RepointOne(db: Db, cur: Db, cs: seq<Rec>, c: Rec, newToOld: map<Rec, Rec>, oldToNew: map<Rec, Rec>)
      returns (next: Db)
      requires ToOneDone(db, cur, cs, newToOld, oldToNew)
      requires c in db.rows && c !in cs && c in newToOld && newToOld[c] !in cs && newToOld[c] != c
      requires UniqueNames(FieldsOf(db, c.model))
      ensures ToOneDone(db, next, cs + [c], newToOld, oldToNew)
    {
      var original := newToOld[c];
      assert RowOf(cur, original) == RowOf(db, original) && RowOf(cur, c) == RowOf(db, c);
      assert FieldsOf(cur, c.model) == FieldsOf(db, c.model);
      var attrs := UpdateRelations(cur, c.model, RowOf(cur, c).attrs, original, oldToNew, false);
      assert Repointed(db, attrs, c, original, oldToNew);
      ToOneStep(db, cur, cs, c, attrs, newToOld, oldToNew);
      next := Save(cur, c, attrs);
    }

    /**
     * The many-to-many pass: each created record receives, relation by
     * relation, the image under `oldToNew` of each member of its original
     * that it does not hold already.
     */
    method RewireManyToMany(db: Db, created: seq<Rec>, newToOld: map<Rec, Rec>, oldToNew: map<Rec, Rec>) returns (db': Db)
      requires Distinct(created)
      requires forall c :: c in created ==> c in db.rows && c in newToOld && newToOld[c] !in created
      requires forall c :: c in created ==> UniqueNames(FieldsOf(db, c.model))
      ensures ManyDone(db, db', created, newToOld, oldToNew)
    {
      db' := db;
      for i := 0 to |created|
        invariant ManyDone(db, db', created[..i], newToOld, oldToNew)
      {
        var c := created[i];
        assert created[..i + 1] == created[..i] + [c];
        assert c !in created[..i];
        var next := CopyManyToMany(db', c, newToOld[c], oldToNew);
        RefilledFrame(db, db', next.rows[c], c, newToOld[c], oldToNew);
        db' := next;
      }
      assert created[..|created|] == created;
    }

    /** The many-to-many pass for one created record `c`, copied from `original`. */
    method CopyManyToMany(db: Db, c: Rec, original: Rec, oldToNew: map<Rec, Rec>) returns (db': Db)
      requires c in db.rows && original != c && UniqueNames(FieldsOf(db, c.model))
      ensures OnlyTouched(db, db', [c])
      ensures Refilled(db, db'.rows[c], c, original, oldToNew)
    {
      var fields := FieldsOf(db, c.model);
      db' := db;
      for k := 0 to |fields|
        invariant FieldsDone(db, db', c, original, oldToNew, fields[..k])
      {
        assert fields[..k + 1] == fields[..k] + [fields[k]];
        assert forall g :: g in fields[..k] ==> g.name != fields[k].name;
        db' := CopyField(db, db', c, original, oldToNew, fields[..k], fields[k]);
      }
      assert fields[..|fields|] == fields;
      FieldsDoneAll(db, db', c, original, oldToNew);
    }

    /** One field of the many-to-many pass over `c`; only forward many-to-many relations change anything. */
    method CopyField(db: Db, cur: Db, c: Rec, original: Rec, oldToNew: map<Rec, Rec>, fs: seq<Field>, field: Field)
      returns (next: Db)
      requires c in db.rows && original != c
      requires FieldsDone(db, cur, c, original, oldToNew, fs)
      requires forall g :: g in fs ==> g.name != field.name
      ensures FieldsDone(db, next, c, original, oldToNew, fs + [field])
    {
      OwnedSnoc(fs, field);
      assert Members(cur, original, field.name) == Members(db, original, field.name);
      if IsRelation(field) && field.card == ManyToMany && !field.autoCreated {
        next := AddMissing(cur, c, field.name, Members(cur, original, field.name), oldToNew);
        assert field.name !in OwnedManyToManyNames(fs);
      } else {
        next := cur;
      }
    }

    /** Adds to the collection `name` of `c`, in order, the image of each of `olds` it does not hold yet. */
    method AddMissing(db: Db, c: Rec, name: FieldName, olds: seq<Rec>, oldToNew: map<Rec, Rec>) returns (db': Db)
      requires c in db.rows
      ensures OnlyTouched(db, db', [c])
      ensures db'.rows[c].attrs == db.rows[c].attrs
      ensures Members(db', c, name) == Copied(oldToNew, Members(db, c, name), olds)
      ensures forall n :: n != name ==> Members(db', c, n) == Members(db, c, n)
    {
      db' := db;
      for j := 0 to |olds|
        invariant OnlyTouched(db, db', [c])
        invariant db'.rows[c].attrs == db.rows[c].attrs
        invariant Members(db', c, name) == Copied(oldToNew, Members(db, c, name), olds[..j])
        invariant forall n :: n != name ==> Members(db', c, n) == Members(db, c, n)
      {
        assert olds[..j + 1][..j] == olds[..j];
        var mapped := MapRec(oldToNew, olds[j]);
        if mapped !in Members(db', c, name) {
          db' := AddMember(db', c, name, mapped);
        }
      }
      assert olds[..|olds|] == olds;
    }
  }

}
