/**
 * What the clone operation is meant to produce: which fields are copied,
 * re-pointed or re-populated, how an original maps to its copy, the queue of
 * pending creations, and the shape of a finished copy.
 */
module Copying {
  import opened Records
  import opened Policy

  datatype Result<T, E> = Ok(value: T) | Err(error: E)

  /**
   * NoProgress: a queued copy came round again although nothing was created
   * since it last failed the uniqueness check; it carries the copies still
   * queued at that point, that copy first;
   * MissingRoot: the record to clone was never mapped to anything.
   */
  datatype CloneError = NoProgress(waiting: seq<Pending>) | MissingRoot

  /** A forward to-one relation that the copy re-points (parent pointers excepted). */
  predicate IsRewired(f: Field)
  {
    IsRelation(f) && !f.autoCreated && IsToOne(f) && !IsParentPointer(f)
  }

  /** A field whose value is passed when the copy is created: plain fields and forward to-one relations. */
  predicate IsPersisted(f: Field)
  {
    !f.autoCreated && (!IsRelation(f) || !(IsParentPointer(f) || f.card == ManyToMany || f.card == OneToMany))
  }

  /** A forward many-to-many relation whose members the copy receives. */
  predicate IsOwnedManyToMany(f: Field)
  {
    IsRelation(f) && f.card == ManyToMany && !f.autoCreated
  }

  function RewiredNames(fs: seq<Field>): set<FieldName>
  {
    set f | f in fs && IsRewired(f) :: f.name
  }

  function PersistedNames(fs: seq<Field>): set<FieldName>
  {
    set f | f in fs && IsPersisted(f) :: f.name
  }

  function OwnedManyToManyNames(fs: seq<Field>): set<FieldName>
  {
    set f | f in fs && IsOwnedManyToMany(f) :: f.name
  }

  lemma NamesSnoc(fs: seq<Field>, f: Field)
    ensures RewiredNames(fs + [f]) == RewiredNames(fs) + (if IsRewired(f) then {f.name} else {})
    ensures PersistedNames(fs + [f]) == PersistedNames(fs) + (if IsPersisted(f) then {f.name} else {})
  {
    var fs' := fs + [f];
    assert forall g :: g in fs' <==> g in fs || g == f;
  }

  lemma OwnedSnoc(fs: seq<Field>, f: Field)
    ensures OwnedManyToManyNames(fs + [f]) == OwnedManyToManyNames(fs) + (if IsOwnedManyToMany(f) then {f.name} else {})
  {
    var fs' := fs + [f];
    assert forall g :: g in fs' <==> g in fs || g == f;
  }

  /** `old_to_new.get(x, x)`: the copy or stand-in of `x`, or `x` itself when it has none. */
  function MapRec(oldToNew: map<Rec, Rec>, x: Rec): Rec
  {
    if x in oldToNew then oldToNew[x] else x
  }

  /** A to-one value mapped through `oldToNew`; null and plain data stay as they are. */
  function MapValue(oldToNew: map<Rec, Rec>, v: Value): (w: Value)
    ensures v.Ref? <==> w.Ref?
    ensures v.Ref? ==> w.target == MapRec(oldToNew, v.target)
    ensures !v.Ref? ==> w == v
  {
    match v
    case Ref(t) => Ref(MapRec(oldToNew, t))
    case _ => v
  }

  /** The value a re-pointed field receives; in lazy mode a nullable field is left null. */
  function RewiredValue(f: Field, lazy: bool, oldToNew: map<Rec, Rec>, originalAttrs: Attrs): Value
  {
    if lazy && f.nullable then Null else MapValue(oldToNew, GetOrNull(originalAttrs, f.name))
  }

  /** `attrs` with the fields `fs` re-pointed one after the other. */
  function RewireAll(fs: seq<Field>, attrs: Attrs, lazy: bool, oldToNew: map<Rec, Rec>, originalAttrs: Attrs): Attrs
  {
    if fs == [] then attrs
    else
      var a := RewireAll(fs[..|fs| - 1], attrs, lazy, oldToNew, originalAttrs);
      var f := fs[|fs| - 1];
      if IsRewired(f) then a[f.name := RewiredValue(f, lazy, oldToNew, originalAttrs)] else a
  }

  /** Re-pointing adds exactly the re-pointed names. */
  lemma {:induction false} RewireAllKeys(fs: seq<Field>, attrs: Attrs, lazy: bool, oldToNew: map<Rec, Rec>, originalAttrs: Attrs)
    ensures RewireAll(fs, attrs, lazy, oldToNew, originalAttrs).Keys == attrs.Keys + RewiredNames(fs)
  {
    if fs != [] {
      var init, last := fs[..|fs| - 1], fs[|fs| - 1];
      assert fs == init + [last];
      RewireAllKeys(init, attrs, lazy, oldToNew, originalAttrs);
      NamesSnoc(init, last);
    }
  }

  /** Re-pointing leaves every entry that is not re-pointed alone. */
  lemma {:induction false} RewireAllKeeps(fs: seq<Field>, attrs: Attrs, lazy: bool, oldToNew: map<Rec, Rec>,
                                          originalAttrs: Attrs, name: FieldName)
    requires name in attrs && name !in RewiredNames(fs)
    ensures name in RewireAll(fs, attrs, lazy, oldToNew, originalAttrs)
    ensures RewireAll(fs, attrs, lazy, oldToNew, originalAttrs)[name] == attrs[name]
  {
    if fs != [] {
      var init, last := fs[..|fs| - 1], fs[|fs| - 1];
      assert fs == init + [last];
      NamesSnoc(init, last);
      RewireAllKeeps(init, attrs, lazy, oldToNew, originalAttrs, name);
    }
  }

  /** With unique field names, each re-pointed field ends up with its value. */
  lemma {:induction false} RewireAllSets(fs: seq<Field>, attrs: Attrs, lazy: bool, oldToNew: map<Rec, Rec>,
                                         originalAttrs: Attrs, f: Field)
    requires UniqueNames(fs) && f in fs && IsRewired(f)
    ensures f.name in RewireAll(fs, attrs, lazy, oldToNew, originalAttrs)
    ensures RewireAll(fs, attrs, lazy, oldToNew, originalAttrs)[f.name] == RewiredValue(f, lazy, oldToNew, originalAttrs)
  {
    var init, last := fs[..|fs| - 1], fs[|fs| - 1];
    if f != last {
      var j :| 0 <= j < |fs| && fs[j] == f;
      assert j < |init| && init[j] == f;
      assert f.name != last.name;
      RewireAllSets(init, attrs, lazy, oldToNew, originalAttrs, f);
    }
  }

  /**
   * With unique field names, re-pointing adds exactly the re-pointed names,
   * gives each re-pointed field its value and leaves every other entry alone.
   */
  lemma RewireAllPointwise(fs: seq<Field>, attrs: Attrs, lazy: bool, oldToNew: map<Rec, Rec>, originalAttrs: Attrs)
    requires UniqueNames(fs)
    ensures RewireAll(fs, attrs, lazy, oldToNew, originalAttrs).Keys == attrs.Keys + RewiredNames(fs)
    ensures forall name :: name in attrs && name !in RewiredNames(fs) ==>
              RewireAll(fs, attrs, lazy, oldToNew, originalAttrs)[name] == attrs[name]
    ensures forall f :: f in fs && IsRewired(f) ==>
              RewireAll(fs, attrs, lazy, oldToNew, originalAttrs)[f.name] == RewiredValue(f, lazy, oldToNew, originalAttrs)
  {
    RewireAllKeys(fs, attrs, lazy, oldToNew, originalAttrs);
    forall name | name in attrs && name !in RewiredNames(fs)
      ensures RewireAll(fs, attrs, lazy, oldToNew, originalAttrs)[name] == attrs[name]
    {
      RewireAllKeeps(fs, attrs, lazy, oldToNew, originalAttrs, name);
    }
    forall f | f in fs && IsRewired(f)
      ensures RewireAll(fs, attrs, lazy, oldToNew, originalAttrs)[f.name] == RewiredValue(f, lazy, oldToNew, originalAttrs)
    {
      RewireAllSets(fs, attrs, lazy, oldToNew, originalAttrs, f);
    }
  }

  /** The in-memory copy of `x` (identity cleared), passed through the editor when there is one. */
  function Draft(editor: Option<Attrs -> Attrs>, db: Db, x: Rec): Attrs
  {
    match editor
    case Some(edit) => edit(RowOf(db, x).attrs)
    case None => RowOf(db, x).attrs
  }

  /** `attrs` holds the draft's values on every name that is not re-pointed. */
  ghost predicate AgreesWithDraft(fs: seq<Field>, attrs: Attrs, draft: Attrs)
  {
    forall name :: name !in RewiredNames(fs) ==> GetOrNull(attrs, name) == GetOrNull(draft, name)
  }

  /**
   * A queued creation: the copy's attributes, the original it copies, and
   * the number of records created when it last failed (-1: never tried).
   */
  datatype Pending = Pending(attrs: Attrs, original: Rec, lastCount: int)

  function Origins(q: seq<Pending>): (s: seq<Rec>)
    ensures |s| == |q| && forall i :: 0 <= i < |q| ==> s[i] == q[i].original
  {
    seq(|q|, i requires 0 <= i < |q| => q[i].original)
  }

  /** Rotating the head of the queue to its back keeps the originals it holds. */
  lemma OriginsRotate(q: seq<Pending>, p: Pending)
    requires q != [] && p.original == q[0].original
    ensures multiset(Origins(q[1..] + [p])) == multiset(Origins(q))
  {
    assert Origins(q[1..] + [p]) == Origins(q)[1..] + [q[0].original];
    assert Origins(q) == [q[0].original] + Origins(q)[1..];
  }

  /** How many queued creations have not failed since the `n`-th record was created. */
  function Unsettled(q: seq<Pending>, n: int): nat
  {
    if q == [] then 0 else (if q[0].lastCount != n then 1 else 0) + Unsettled(q[1..], n)
  }

  lemma {:induction false} UnsettledAppend(q: seq<Pending>, p: Pending, n: int)
    ensures Unsettled(q + [p], n) == Unsettled(q, n) + (if p.lastCount != n then 1 else 0)
  {
    if q != [] {
      assert (q + [p])[1..] == q[1..] + [p];
      UnsettledAppend(q[1..], p, n);
    }
  }

  /**
   * The collection `cur` after adding, in order, the image of each of `olds`
   * under `oldToNew` that is not already present.
   */
  function Copied(oldToNew: map<Rec, Rec>, cur: seq<Rec>, olds: seq<Rec>): seq<Rec>
  {
    if olds == [] then cur
    else
      var c := Copied(oldToNew, cur, olds[..|olds| - 1]);
      var m := MapRec(oldToNew, olds[|olds| - 1]);
      if m in c then c else c + [m]
  }

  /** The copied collection holds what it held before and the image of every original member, nothing else. */
  lemma {:induction false} CopiedMembership(oldToNew: map<Rec, Rec>, cur: seq<Rec>, olds: seq<Rec>, x: Rec)
    ensures x in Copied(oldToNew, cur, olds) <==> x in cur || exists y :: y in olds && MapRec(oldToNew, y) == x
  {
    if olds != [] {
      var init := olds[..|olds| - 1];
      var last := olds[|olds| - 1];
      CopiedMembership(oldToNew, cur, init, x);
      assert olds == init + [last];
      if exists y :: y in olds && MapRec(oldToNew, y) == x {
        var y :| y in olds && MapRec(oldToNew, y) == x;
        if y != last {
          assert y in init;
        }
      }
    }
  }

  /** Adding only absent members never introduces a repeat. */
  lemma {:induction false} CopiedDistinct(oldToNew: map<Rec, Rec>, cur: seq<Rec>, olds: seq<Rec>)
    requires Distinct(cur)
    ensures Distinct(Copied(oldToNew, cur, olds))
  {
    if olds != [] {
      CopiedDistinct(oldToNew, cur, olds[..|olds| - 1]);
    }
  }

  /** Re-pointing keeps every entry that is not re-pointed, absent ones included. */
  lemma KeepsOthers(fs: seq<Field>, a: Attrs, a': Attrs)
    requires a'.Keys == a.Keys + RewiredNames(fs)
    requires forall name :: name in a && name !in RewiredNames(fs) ==> a'[name] == a[name]
    ensures forall name :: name !in RewiredNames(fs) ==> GetOrNull(a', name) == GetOrNull(a, name)
  {
  }

  /** Every re-pointed name of a model is also a persisted one. */
  lemma RewiredPersisted(fs: seq<Field>)
    ensures RewiredNames(fs) <= PersistedNames(fs)
  {
  }

  /** The queued copy `p` with its relations re-pointed lazily through `oldToNew`, as the creation loop tries it. */
  function LazyCopy(db: Db, p: Pending, oldToNew: map<Rec, Rec>): Attrs
  {
    RewireAll(FieldsOf(db, p.original.model), p.attrs, true, oldToNew, RowOf(db, p.original).attrs)
  }

  /** The creation arguments of a copy with attributes `attrs`: every persisted field, null when unset. */
  function CreationArgsOf(fs: seq<Field>, attrs: Attrs): Attrs
  {
    map name | name in PersistedNames(fs) :: GetOrNull(attrs, name)
  }

  /**
   * `attrs`, of a copy of `original`, holds on every forward to-one relation
   * what lazy re-pointing through `oldToNew` gives it: null where the field
   * accepts null, the original's target mapped through `oldToNew` elsewhere.
   */
  ghost predicate LazilyRepointed(db0: Db, attrs: Attrs, original: Rec, oldToNew: map<Rec, Rec>)
  {
    forall f :: f in FieldsOf(db0, original.model) && IsRewired(f) ==>
      GetOrNull(attrs, f.name) == RewiredValue(f, true, oldToNew, RowOf(db0, original).attrs)
  }

  /**
   * Trying a queued copy of a stored original keeps its values off the
   * re-pointed fields and re-points the rest lazily.
   */
  lemma LazyCopyFacts(db0: Db, db: Db, p: Pending, oldToNew: map<Rec, Rec>)
    requires Wf(db0) && db.schema == db0.schema && RowOf(db, p.original) == RowOf(db0, p.original)
    ensures LazyCopy(db, p, oldToNew).Keys == p.attrs.Keys + RewiredNames(FieldsOf(db0, p.original.model))
    ensures forall name :: name !in RewiredNames(FieldsOf(db0, p.original.model)) ==>
              GetOrNull(LazyCopy(db, p, oldToNew), name) == GetOrNull(p.attrs, name)
    ensures LazilyRepointed(db0, LazyCopy(db, p, oldToNew), p.original, oldToNew)
  {
    var fs := FieldsOf(db0, p.original.model);
    assert FieldsOf(db, p.original.model) == fs;
    UniqueFieldsOf(db0, p.original.model);
    RewireAllPointwise(fs, p.attrs, true, oldToNew, RowOf(db0, p.original).attrs);
  }

  /**
   * `oldToNew0` after mapping, in order, each of the first `n` of `origins`
   * to the copy at the same place in `created`: the map as it stood once `n`
   * records were created.
   */
  function MapAfter(oldToNew0: map<Rec, Rec>, created: seq<Rec>, origins: seq<Rec>, n: nat): map<Rec, Rec>
    requires n <= |created| && n <= |origins|
  {
    if n == 0 then oldToNew0
    else MapAfter(oldToNew0, created, origins, n - 1)[origins[n - 1] := created[n - 1]]
  }

  /** The map after `n` creations does not depend on the creations that come later. */
  lemma {:induction false} MapAfterSnoc(oldToNew0: map<Rec, Rec>, created: seq<Rec>, origins: seq<Rec>, c: Rec, x: Rec, n: nat)
    requires n <= |created| && n <= |origins|
    ensures MapAfter(oldToNew0, created + [c], origins + [x], n) == MapAfter(oldToNew0, created, origins, n)
  {
    if n > 0 {
      MapAfterSnoc(oldToNew0, created, origins, c, x, n - 1);
    }
  }

  /**
   * A copy as the creation loop stores it: collections empty, draft values on
   * every field not re-pointed, and the forward to-one relations re-pointed
   * lazily through `oldToNew`, the map as it stood when the copy was created.
   */
  ghost predicate CreatedRow(db0: Db, editor: Option<Attrs -> Attrs>, row: Row, original: Rec, oldToNew: map<Rec, Rec>)
  {
    var fs := FieldsOf(db0, original.model);
    && row.members == map[]
    && row.attrs.Keys == PersistedNames(fs)
    && (forall name :: name in row.attrs && name !in RewiredNames(fs) ==>
          row.attrs[name] == GetOrNull(Draft(editor, db0, original), name))
    && LazilyRepointed(db0, row.attrs, original, oldToNew)
  }

  /**
   * `db` extends `db0` by the records `created` only: same schema, original
   * rows untouched, each created record fresh and created once.
   */
  ghost predicate Grown(db0: Db, db: Db, created: seq<Rec>)
  {
    && db.schema == db0.schema
    && FreshCounter(db)
    && (forall r :: r in db0.rows ==> r in db.rows && db.rows[r] == db0.rows[r])
    && (forall r :: r in db.rows <==> r in db0.rows || r in created)
    && (forall r :: r in created ==> r !in db0.rows)
    && Distinct(created)
  }

  /**
   * The records `created` copy the originals `origins`, one each, in order;
   * `newToOld` records which, and the copy at place `i` was re-pointed
   * through the map as it stood after the first `i` creations.
   */
  ghost predicate CopiesOf(db0: Db, editor: Option<Attrs -> Attrs>, oldToNew0: map<Rec, Rec>, db: Db, created: seq<Rec>,
                           newToOld: map<Rec, Rec>, origins: seq<Rec>)
  {
    && |origins| == |created|
    && (forall i :: 0 <= i < |created| ==>
          created[i].model == origins[i].model && created[i] in newToOld && newToOld[created[i]] == origins[i])
    && (forall i :: 0 <= i < |created| ==> CreatedAt(db0, editor, oldToNew0, db, created, origins, i))
    && (forall c :: c in newToOld <==> c in created)
  }

  /** The copy at place `i` of `created` is stored as the creation loop made it from `origins[i]`. */
  ghost predicate CreatedAt(db0: Db, editor: Option<Attrs -> Attrs>, oldToNew0: map<Rec, Rec>, db: Db, created: seq<Rec>,
                            origins: seq<Rec>, i: nat)
  {
    && i < |created| && i < |origins|
    && CreatedRow(db0, editor, RowOf(db, created[i]), origins[i], MapAfter(oldToNew0, created, origins, i))
  }

  /** A copy made earlier stays as it was when one more record is created. */
  lemma CreatedAtCreate(db0: Db, editor: Option<Attrs -> Attrs>, oldToNew0: map<Rec, Rec>, db: Db, created: seq<Rec>,
                        origins: seq<Rec>, x: Rec, args: Attrs, i: nat)
    requires FreshCounter(db) && CreatedAt(db0, editor, oldToNew0, db, created, origins, i)
    requires created[i] in db.rows
    ensures var (db', c) := Create(db, x.model, args);
            CreatedAt(db0, editor, oldToNew0, db', created + [c], origins + [x], i)
  {
    var (db', c) := Create(db, x.model, args);
    MapAfterSnoc(oldToNew0, created, origins, c, x, i);
    assert RowOf(db', created[i]) == RowOf(db, created[i]);
  }

  /**
   * `oldToNew` is `oldToNew0` (stand-ins, untouched) extended by a copy of
   * every original copied so far; that copy's original is the original.
   */
  ghost predicate MapsTo(db0: Db, oldToNew0: map<Rec, Rec>, oldToNew: map<Rec, Rec>, created: seq<Rec>,
                         newToOld: map<Rec, Rec>, origins: seq<Rec>)
  {
    && (forall x :: x in oldToNew <==> x in oldToNew0 || x in origins)
    && (forall x :: x in origins ==>
          x in db0.rows && x !in oldToNew0 && oldToNew[x] in created &&
          oldToNew[x] in newToOld && newToOld[oldToNew[x]] == x)
    && (forall x :: x in oldToNew0 ==> oldToNew[x] == oldToNew0[x])
  }

  /** Every queued copy is of a stored original without a stand-in, and agrees with its draft. */
  ghost predicate QueueOk(db0: Db, editor: Option<Attrs -> Attrs>, oldToNew0: map<Rec, Rec>, queue: seq<Pending>, count: nat)
  {
    forall p :: p in queue ==>
      && p.original in db0.rows && p.original !in oldToNew0 && -1 <= p.lastCount <= count
      && AgreesWithDraft(FieldsOf(db0, p.original.model), p.attrs, Draft(editor, db0, p.original))
      && DraftKeys(FieldsOf(db0, p.original.model), p.attrs, Draft(editor, db0, p.original))
  }

  /** `attrs` has the draft's keys, and besides them only re-pointed names. */
  ghost predicate DraftKeys(fs: seq<Field>, attrs: Attrs, draft: Attrs)
  {
    draft.Keys <= attrs.Keys <= draft.Keys + RewiredNames(fs)
  }

  /**
   * The queued copies stamped with the current count `count` sit at the back
   * of the queue; each was re-pointed lazily through the current map and
   * fails the check against the current store.
   */
  ghost predicate Stalled(db0: Db, valid: (ModelName, Attrs, Db) -> bool, queue: seq<Pending>, count: nat,
                          db: Db, oldToNew: map<Rec, Rec>)
  {
    && (forall i, j :: 0 <= i < j < |queue| && queue[i].lastCount == count ==> queue[j].lastCount == count)
    && (forall p :: p in queue && p.lastCount == count ==>
          LazilyRepointed(db0, p.attrs, p.original, oldToNew) && !valid(p.original.model, p.attrs, db))
  }

  /** A copy that failed the check again, stamped with the current count, keeps the queue stalled. */
  lemma StalledDefer(db0: Db, valid: (ModelName, Attrs, Db) -> bool, queue: seq<Pending>, count: nat, db: Db,
                     oldToNew: map<Rec, Rec>, p: Pending)
    requires Stalled(db0, valid, queue, count, db, oldToNew) && queue != [] && queue[0].lastCount != count
    requires p.lastCount == count && LazilyRepointed(db0, p.attrs, p.original, oldToNew)
    requires !valid(p.original.model, p.attrs, db)
    ensures Stalled(db0, valid, queue[1..] + [p], count, db, oldToNew)
  {
    var q := queue[1..] + [p];
    forall i, j | 0 <= i < j < |q| && q[i].lastCount == count
      ensures q[j].lastCount == count
    {
      if j < |q| - 1 {
        assert q[i] == queue[i + 1] && q[j] == queue[j + 1];
      }
    }
    forall r | r in q && r.lastCount == count
      ensures LazilyRepointed(db0, r.attrs, r.original, oldToNew) && !valid(r.original.model, r.attrs, db)
    {
      if r != p {
        assert r in queue;
      }
    }
  }

  lemma DeferQueueOk(db0: Db, editor: Option<Attrs -> Attrs>, oldToNew0: map<Rec, Rec>, queue: seq<Pending>, count: nat, p: Pending)
    requires QueueOk(db0, editor, oldToNew0, queue, count)
    requires queue != [] && p.original == queue[0].original && -1 <= p.lastCount <= count
    requires forall name :: name !in RewiredNames(FieldsOf(db0, p.original.model)) ==>
               GetOrNull(p.attrs, name) == GetOrNull(queue[0].attrs, name)
    requires p.attrs.Keys == queue[0].attrs.Keys + RewiredNames(FieldsOf(db0, p.original.model))
    ensures QueueOk(db0, editor, oldToNew0, queue[1..] + [p], count)
  {
    assert queue[0] in queue;
    forall q | q in queue[1..] + [p]
      ensures && q.original in db0.rows && q.original !in oldToNew0 && -1 <= q.lastCount <= count
              && AgreesWithDraft(FieldsOf(db0, q.original.model), q.attrs, Draft(editor, db0, q.original))
              && DraftKeys(FieldsOf(db0, q.original.model), q.attrs, Draft(editor, db0, q.original))
    {
      if q != p {
        assert q in queue;
      }
    }
  }

  /** Once one more record is created, no queued copy carries the current count. */
  lemma QueueOkCreate(db0: Db, editor: Option<Attrs -> Attrs>, oldToNew0: map<Rec, Rec>, queue: seq<Pending>, count: nat,
                      valid: (ModelName, Attrs, Db) -> bool, db: Db, oldToNew: map<Rec, Rec>)
    requires QueueOk(db0, editor, oldToNew0, queue, count) && queue != []
    ensures QueueOk(db0, editor, oldToNew0, queue[1..], count + 1)
    ensures Stalled(db0, valid, queue[1..], count + 1, db, oldToNew)
  {
    forall q | q in queue[1..]
      ensures q in queue
    {
    }
    forall i | 0 <= i < |queue[1..]|
      ensures queue[1..][i].lastCount <= count
    {
      assert queue[1..][i] in queue;
    }
  }

  lemma OriginsPop(queue: seq<Pending>)
    requires queue != []
    ensures multiset(Origins(queue)) == multiset{queue[0].original} + multiset(Origins(queue[1..]))
  {
    assert queue == [queue[0]] + queue[1..];
    assert Origins(queue) == [queue[0].original] + Origins(queue[1..]);
  }

  lemma GrownCreate(db0: Db, db: Db, created: seq<Rec>, m: ModelName, args: Attrs)
    requires Grown(db0, db, created)
    ensures Grown(db0, Create(db, m, args).0, created + [Create(db, m, args).1])
  {
    var (db', c) := Create(db, m, args);
    assert c !in db.rows;
  }

  lemma CopiesCreate(db0: Db, editor: Option<Attrs -> Attrs>, oldToNew0: map<Rec, Rec>, db: Db, created: seq<Rec>,
                     newToOld: map<Rec, Rec>, origins: seq<Rec>, x: Rec, args: Attrs, db': Db, c: Rec)
    requires FreshCounter(db) && (forall r :: r in created ==> r in db.rows)
    requires CopiesOf(db0, editor, oldToNew0, db, created, newToOld, origins)
    requires args.Keys == PersistedNames(FieldsOf(db0, x.model))
    requires forall name :: name in args && name !in RewiredNames(FieldsOf(db0, x.model)) ==>
               args[name] == GetOrNull(Draft(editor, db0, x), name)
    requires LazilyRepointed(db0, args, x, MapAfter(oldToNew0, created, origins, |created|))
    requires db' == Create(db, x.model, args).0 && c == Create(db, x.model, args).1
    ensures CopiesOf(db0, editor, oldToNew0, db', created + [c], newToOld[c := x], origins + [x])
  {
    var created', origins', n2o := created + [c], origins + [x], newToOld[c := x];
    assert c !in created;
    forall i | 0 <= i < |created'|
      ensures created'[i].model == origins'[i].model && created'[i] in n2o && n2o[created'[i]] == origins'[i]
    {
      if i < |created| {
        assert created'[i] == created[i] && origins'[i] == origins[i] && created[i] in created;
      }
    }
    CreatedAllCreate(db0, editor, oldToNew0, db, created, origins, x, args);
  }

  /** Every copy, the one just created included, is stored as the creation loop made it. */
  lemma CreatedAllCreate(db0: Db, editor: Option<Attrs -> Attrs>, oldToNew0: map<Rec, Rec>, db: Db, created: seq<Rec>,
                         origins: seq<Rec>, x: Rec, args: Attrs)
    requires FreshCounter(db) && (forall r :: r in created ==> r in db.rows) && |created| == |origins|
    requires forall i :: 0 <= i < |created| ==> CreatedAt(db0, editor, oldToNew0, db, created, origins, i)
    requires args.Keys == PersistedNames(FieldsOf(db0, x.model))
    requires forall name :: name in args && name !in RewiredNames(FieldsOf(db0, x.model)) ==>
               args[name] == GetOrNull(Draft(editor, db0, x), name)
    requires LazilyRepointed(db0, args, x, MapAfter(oldToNew0, created, origins, |created|))
    ensures var (db', c) := Create(db, x.model, args);
            forall i :: 0 <= i < |created| + 1 ==> CreatedAt(db0, editor, oldToNew0, db', created + [c], origins + [x], i)
  {
    var (db', c) := Create(db, x.model, args);
    forall i | 0 <= i < |created| + 1
      ensures CreatedAt(db0, editor, oldToNew0, db', created + [c], origins + [x], i)
    {
      if i < |created| {
        assert created[i] in created;
        CreatedAtCreate(db0, editor, oldToNew0, db, created, origins, x, args, i);
      } else {
        CreatedAtNew(db0, editor, oldToNew0, db, created, origins, x, args);
      }
    }
  }

  /** The record just created is stored as the creation loop made it. */
  lemma CreatedAtNew(db0: Db, editor: Option<Attrs -> Attrs>, oldToNew0: map<Rec, Rec>, db: Db, created: seq<Rec>,
                     origins: seq<Rec>, x: Rec, args: Attrs)
    requires args.Keys == PersistedNames(FieldsOf(db0, x.model))
    requires forall name :: name in args && name !in RewiredNames(FieldsOf(db0, x.model)) ==>
               args[name] == GetOrNull(Draft(editor, db0, x), name)
    requires |created| == |origins| && LazilyRepointed(db0, args, x, MapAfter(oldToNew0, created, origins, |created|))
    ensures var (db', c) := Create(db, x.model, args);
            CreatedAt(db0, editor, oldToNew0, db', created + [c], origins + [x], |created|)
  {
    var (db', c) := Create(db, x.model, args);
    MapAfterSnoc(oldToNew0, created, origins, c, x, |created|);
    assert RowOf(db', c) == Row(args, map[]);
  }

  lemma MapsCreate(db0: Db, oldToNew0: map<Rec, Rec>, oldToNew: map<Rec, Rec>, created: seq<Rec>,
                   newToOld: map<Rec, Rec>, origins: seq<Rec>, x: Rec, c: Rec)
    requires MapsTo(db0, oldToNew0, oldToNew, created, newToOld, origins)
    requires x in db0.rows && x !in oldToNew0 && c !in created
    ensures MapsTo(db0, oldToNew0, oldToNew[x := c], created + [c], newToOld[c := x], origins + [x])
  {
    var o2n, n2o := oldToNew[x := c], newToOld[c := x];
    forall y | y in origins + [x]
      ensures y in db0.rows && y !in oldToNew0 && o2n[y] in created + [c] && o2n[y] in n2o && n2o[o2n[y]] == y
    {
      if y != x {
        assert y in origins;
        assert oldToNew[y] in created;
      }
    }
  }

  /**
   * The state of the creation loop started from the queue `queue0` and the
   * map `oldToNew0`: the originals still queued make up, with the originals
   * copied so far, exactly the originals first queued; the map is
   * `oldToNew0` extended by the creations in order; and the copies that
   * failed the check since the last creation wait at the back of the queue.
   */
  ghost predicate Creating(db0: Db, editor: Option<Attrs -> Attrs>, valid: (ModelName, Attrs, Db) -> bool,
                           queue0: seq<Pending>, oldToNew0: map<Rec, Rec>,
                           queue: seq<Pending>, db: Db, created: seq<Rec>, newToOld: map<Rec, Rec>,
                           oldToNew: map<Rec, Rec>, origins: seq<Rec>)
  {
    && Draining(db0, editor, valid, queue0, oldToNew0, queue, db, created, newToOld, oldToNew, origins)
    && Checked(db0, editor, valid, oldToNew0, db, created, origins)
  }

  /** The bookkeeping half of Creating: copies, maps, queue and stalled copies. */
  ghost predicate Draining(db0: Db, editor: Option<Attrs -> Attrs>, valid: (ModelName, Attrs, Db) -> bool,
                           queue0: seq<Pending>, oldToNew0: map<Rec, Rec>,
                           queue: seq<Pending>, db: Db, created: seq<Rec>, newToOld: map<Rec, Rec>,
                           oldToNew: map<Rec, Rec>, origins: seq<Rec>)
  {
    && Grown(db0, db, created)
    && CopiesOf(db0, editor, oldToNew0, db, created, newToOld, origins)
    && MapsTo(db0, oldToNew0, oldToNew, created, newToOld, origins)
    && |origins| == |created|
    && oldToNew == MapAfter(oldToNew0, created, origins, |created|)
    && multiset(origins) + multiset(Origins(queue)) == multiset(Origins(queue0))
    && QueueOk(db0, editor, oldToNew0, queue, |created|)
    && Stalled(db0, valid, queue, |created|, db, oldToNew)
  }

  /** The check half of Creating: `db` is the store the creations made, and each of them passed the check. */
  ghost predicate Checked(db0: Db, editor: Option<Attrs -> Attrs>, valid: (ModelName, Attrs, Db) -> bool,
                          oldToNew0: map<Rec, Rec>, db: Db, created: seq<Rec>, origins: seq<Rec>)
  {
    && |origins| == |created|
    && db == StoreAt(db0, editor, oldToNew0, created, origins, |created|)
    && PassedCheck(db0, editor, valid, oldToNew0, created, origins)
  }

  /**
   * The state in which the creation loop stopped, as in Creating with the
   * copies `waiting` still queued: there is at least one, and every one of
   * them is stamped with the current count, so each failed the check since
   * the last record was created.
   */
  ghost predicate Stopped(db0: Db, editor: Option<Attrs -> Attrs>, valid: (ModelName, Attrs, Db) -> bool,
                          queue0: seq<Pending>, oldToNew0: map<Rec, Rec>, waiting: seq<Pending>,
                          db: Db, created: seq<Rec>, newToOld: map<Rec, Rec>,
                          oldToNew: map<Rec, Rec>, origins: seq<Rec>)
  {
    && Creating(db0, editor, valid, queue0, oldToNew0, waiting, db, created, newToOld, oldToNew, origins)
    && waiting != []
    && (forall p :: p in waiting ==> p.lastCount == |created|)
  }

  /** The creation loop starts from the classified queue with nothing created. */
  lemma CreatingStart(db0: Db, editor: Option<Attrs -> Attrs>, valid: (ModelName, Attrs, Db) -> bool,
                      queue0: seq<Pending>, oldToNew0: map<Rec, Rec>)
    requires FreshCounter(db0)
    requires forall p :: p in queue0 ==>
               p.lastCount == -1 && p.original in db0.rows && p.original !in oldToNew0 &&
               p.attrs == Draft(editor, db0, p.original)
    ensures Creating(db0, editor, valid, queue0, oldToNew0, queue0, db0, [], map[], oldToNew0, [])
  {
    forall i | 0 <= i < |queue0|
      ensures queue0[i].lastCount == -1
    {
      assert queue0[i] in queue0;
    }
  }

  /** In a stopped state every waiting copy was stamped with the current count and fails the check. */
  lemma StoppedWaiting(db0: Db, editor: Option<Attrs -> Attrs>, valid: (ModelName, Attrs, Db) -> bool,
                       queue0: seq<Pending>, oldToNew0: map<Rec, Rec>, waiting: seq<Pending>,
                       db: Db, created: seq<Rec>, newToOld: map<Rec, Rec>,
                       oldToNew: map<Rec, Rec>, origins: seq<Rec>)
    requires Stopped(db0, editor, valid, queue0, oldToNew0, waiting, db, created, newToOld, oldToNew, origins)
    ensures forall p :: p in waiting ==> p.lastCount == |created| && !valid(p.original.model, p.attrs, db)
  {
  }

  /**
   * The copy at the front was stamped with the current count: then so is
   * every queued copy, each re-pointed lazily through the current map and
   * failing the check against the current store, and the loop stops.
   */
  lemma StuckStep(db0: Db, editor: Option<Attrs -> Attrs>, valid: (ModelName, Attrs, Db) -> bool,
                  queue0: seq<Pending>, oldToNew0: map<Rec, Rec>,
                  queue: seq<Pending>, db: Db, created: seq<Rec>, newToOld: map<Rec, Rec>,
                  oldToNew: map<Rec, Rec>, origins: seq<Rec>)
    requires Creating(db0, editor, valid, queue0, oldToNew0, queue, db, created, newToOld, oldToNew, origins)
    requires queue != [] && queue[0].lastCount == |created|
    ensures forall p :: p in queue ==>
              && p.lastCount == |created|
              && LazilyRepointed(db0, p.attrs, p.original, oldToNew)
              && !valid(p.original.model, p.attrs, db)
    ensures Stopped(db0, editor, valid, queue0, oldToNew0, queue, db, created, newToOld, oldToNew, origins)
  {
    forall p | p in queue
      ensures p.lastCount == |created|
    {
      var j :| 0 <= j < |queue| && queue[j] == p;
      if j > 0 {
        assert queue[0].lastCount == |created|;
      }
    }
  }

  /** A copy that failed the check goes to the back of the queue, stamped with the current count. */
  lemma DeferStep(db0: Db, editor: Option<Attrs -> Attrs>, valid: (ModelName, Attrs, Db) -> bool,
                  queue0: seq<Pending>, oldToNew0: map<Rec, Rec>,
                  queue: seq<Pending>, db: Db, created: seq<Rec>, newToOld: map<Rec, Rec>,
                  oldToNew: map<Rec, Rec>, origins: seq<Rec>)
    requires Wf(db0) && Creating(db0, editor, valid, queue0, oldToNew0, queue, db, created, newToOld, oldToNew, origins)
    requires queue != [] && queue[0].lastCount != |created|
    requires !valid(queue[0].original.model, LazyCopy(db, queue[0], oldToNew), db)
    ensures var p := Pending(LazyCopy(db, queue[0], oldToNew), queue[0].original, |created|);
            && Creating(db0, editor, valid, queue0, oldToNew0, queue[1..] + [p], db, created, newToOld, oldToNew, origins)
            && Unsettled(queue[1..] + [p], |created|) < Unsettled(queue, |created|)
  {
    assert queue[0] in queue;
    LazyCopyFacts(db0, db, queue[0], oldToNew);
    var p := Pending(LazyCopy(db, queue[0], oldToNew), queue[0].original, |created|);
    OriginsRotate(queue, p);
    UnsettledAppend(queue[1..], p, |created|);
    DeferQueueOk(db0, editor, oldToNew0, queue, |created|, p);
    StalledDefer(db0, valid, queue, |created|, db, oldToNew, p);
  }

  /** Mapping one more original to its copy extends the map as MapAfter does. */
  lemma MapAfterCreate(oldToNew0: map<Rec, Rec>, created: seq<Rec>, origins: seq<Rec>, c: Rec, x: Rec)
    requires |created| == |origins|
    ensures MapAfter(oldToNew0, created + [c], origins + [x], |created| + 1)
            == MapAfter(oldToNew0, created, origins, |created|)[x := c]
  {
    MapAfterSnoc(oldToNew0, created, origins, c, x, |created|);
  }

  /** The creation arguments read from a lazily re-pointed copy are lazily re-pointed themselves. */
  lemma ArgsRepointed(db0: Db, attrs: Attrs, args: Attrs, x: Rec, oldToNew: map<Rec, Rec>)
    requires LazilyRepointed(db0, attrs, x, oldToNew)
    requires args.Keys == PersistedNames(FieldsOf(db0, x.model))
    requires forall name :: name in args ==> args[name] == GetOrNull(attrs, name)
    ensures LazilyRepointed(db0, args, x, oldToNew)
  {
    RewiredPersisted(FieldsOf(db0, x.model));
  }

  /** A copy that passed the check is created and becomes the copy of its original. */
  lemma CreateStep(db0: Db, editor: Option<Attrs -> Attrs>, valid: (ModelName, Attrs, Db) -> bool,
                   queue0: seq<Pending>, oldToNew0: map<Rec, Rec>,
                   queue: seq<Pending>, db: Db, created: seq<Rec>, newToOld: map<Rec, Rec>,
                   oldToNew: map<Rec, Rec>, origins: seq<Rec>, attrs: Attrs, args: Attrs)
    requires Draining(db0, editor, valid, queue0, oldToNew0, queue, db, created, newToOld, oldToNew, origins)
    requires queue != []
    requires forall name :: name !in RewiredNames(FieldsOf(db0, queue[0].original.model)) ==>
               GetOrNull(attrs, name) == GetOrNull(queue[0].attrs, name)
    requires LazilyRepointed(db0, attrs, queue[0].original, oldToNew)
    requires args.Keys == PersistedNames(FieldsOf(db0, queue[0].original.model))
    requires forall name :: name in args ==> args[name] == GetOrNull(attrs, name)
    ensures var x := queue[0].original;
            var c := Create(db, x.model, args).1;
            Draining(db0, editor, valid, queue0, oldToNew0, queue[1..], Create(db, x.model, args).0, created + [c],
                     newToOld[c := x], oldToNew[x := c], origins + [x])
  {
    var x := queue[0].original;
    var c := Create(db, x.model, args).1;
    assert queue[0] in queue;
    assert c !in created;
    OriginsPop(queue);
    assert multiset(origins + [x]) + multiset(Origins(queue[1..])) == multiset(Origins(queue0));
    ArgsRepointed(db0, attrs, args, x, oldToNew);
    MapAfterCreate(oldToNew0, created, origins, c, x);
    GrownCreate(db0, db, created, x.model, args);
    CopiesCreate(db0, editor, oldToNew0, db, created, newToOld, origins, x, args, Create(db, x.model, args).0, c);
    MapsCreate(db0, oldToNew0, oldToNew, created, newToOld, origins, x, c);
    QueueOkCreate(db0, editor, oldToNew0, queue, |created|, valid, Create(db, x.model, args).0, oldToNew[x := c]);
  }

  /**
   * A copy that passed the check is created from its persisted fields and
   * becomes the copy of its original; the loop's state is kept.
   */
  lemma CreatePassed(db0: Db, editor: Option<Attrs -> Attrs>, valid: (ModelName, Attrs, Db) -> bool,
                     queue0: seq<Pending>, oldToNew0: map<Rec, Rec>,
                     queue: seq<Pending>, db: Db, created: seq<Rec>, newToOld: map<Rec, Rec>,
                     oldToNew: map<Rec, Rec>, origins: seq<Rec>, attrs: Attrs, args: Attrs)
    requires Wf(db0) && Creating(db0, editor, valid, queue0, oldToNew0, queue, db, created, newToOld, oldToNew, origins)
    requires queue != []
    requires attrs == LazyCopy(db, queue[0], oldToNew) && args == CreationArgsOf(FieldsOf(db, queue[0].original.model), attrs)
    requires valid(queue[0].original.model, attrs, db)
    ensures var x := queue[0].original;
            var c := Create(db, x.model, args).1;
            Creating(db0, editor, valid, queue0, oldToNew0, queue[1..], Create(db, x.model, args).0, created + [c],
                     newToOld[c := x], oldToNew[x := c], origins + [x])
  {
    var x := queue[0].original;
    assert queue[0] in queue;
    assert RowOf(db, x) == RowOf(db0, x);
    LazyCopyFacts(db0, db, queue[0], oldToNew);
    SameSchemaArgs(db, db0, x.model, attrs);
    CreateStep(db0, editor, valid, queue0, oldToNew0, queue, db, created, newToOld, oldToNew, origins, attrs, args);
    CreateChecked(db0, editor, valid, queue0, oldToNew0, queue, db, created, newToOld, oldToNew, origins, attrs, args);
  }

  /** The check half of CreatePassed, drawn from the loop's state. */
  lemma CreateChecked(db0: Db, editor: Option<Attrs -> Attrs>, valid: (ModelName, Attrs, Db) -> bool,
                      queue0: seq<Pending>, oldToNew0: map<Rec, Rec>,
                      queue: seq<Pending>, db: Db, created: seq<Rec>, newToOld: map<Rec, Rec>,
                      oldToNew: map<Rec, Rec>, origins: seq<Rec>, attrs: Attrs, args: Attrs)
    requires Wf(db0) && Creating(db0, editor, valid, queue0, oldToNew0, queue, db, created, newToOld, oldToNew, origins)
    requires queue != []
    requires attrs == LazyCopy(db, queue[0], oldToNew) && args == CreationArgsOf(FieldsOf(db0, queue[0].original.model), attrs)
    requires valid(queue[0].original.model, attrs, db)
    ensures var x := queue[0].original;
            var c := Create(db, x.model, args).1;
            Checked(db0, editor, valid, oldToNew0, Create(db, x.model, args).0, created + [c], origins + [x])
  {
    assert queue[0] in queue;
    assert RowOf(db, queue[0].original) == RowOf(db0, queue[0].original);
    CheckedCreate(db0, editor, valid, oldToNew0, queue, db, created, oldToNew, origins, attrs, args);
  }

  /** Stores with the same schema build the same creation arguments. */
  lemma SameSchemaArgs(db: Db, db0: Db, m: ModelName, attrs: Attrs)
    requires db.schema == db0.schema
    ensures CreationArgsOf(FieldsOf(db, m), attrs) == CreationArgsOf(FieldsOf(db0, m), attrs)
  {
    assert FieldsOf(db, m) == FieldsOf(db0, m);
  }

  /** A copy created after passing the check keeps the store and the passed checks as StoreAt and PassedCheck say. */
  lemma CheckedCreate(db0: Db, editor: Option<Attrs -> Attrs>, valid: (ModelName, Attrs, Db) -> bool,
                      oldToNew0: map<Rec, Rec>, queue: seq<Pending>, db: Db, created: seq<Rec>,
                      oldToNew: map<Rec, Rec>, origins: seq<Rec>, attrs: Attrs, args: Attrs)
    requires Wf(db0) && db.schema == db0.schema && queue != [] && |created| == |origins|
    requires queue[0].original in db0.rows && RowOf(db, queue[0].original) == RowOf(db0, queue[0].original)
    requires AgreesWithDraft(FieldsOf(db0, queue[0].original.model), queue[0].attrs, Draft(editor, db0, queue[0].original))
    requires DraftKeys(FieldsOf(db0, queue[0].original.model), queue[0].attrs, Draft(editor, db0, queue[0].original))
    requires oldToNew == MapAfter(oldToNew0, created, origins, |created|)
    requires db == StoreAt(db0, editor, oldToNew0, created, origins, |created|)
    requires PassedCheck(db0, editor, valid, oldToNew0, created, origins)
    requires attrs == LazyCopy(db, queue[0], oldToNew) && args == CreationArgsOf(FieldsOf(db0, queue[0].original.model), attrs)
    requires valid(queue[0].original.model, attrs, db)
    ensures var x := queue[0].original;
            var c := Create(db, x.model, args).1;
            && Create(db, x.model, args).0 == StoreAt(db0, editor, oldToNew0, created + [c], origins + [x], |created| + 1)
            && PassedCheck(db0, editor, valid, oldToNew0, created + [c], origins + [x])
            && Checked(db0, editor, valid, oldToNew0, Create(db, x.model, args).0, created + [c], origins + [x])
  {
    var x := queue[0].original;
    LazyCopyTried(db0, editor, db, queue[0], oldToNew);
    StoreAtCreate(db0, editor, oldToNew0, db, created, origins, x);
    PassedCreate(db0, editor, valid, oldToNew0, created, origins, Create(db, x.model, args).1, x);
  }

  /**
   * The draft of `x` with its forward to-one relations re-pointed lazily
   * through `oldToNew`: what the creation loop checks for a copy of `x`,
   * and creates it from, while the map stands at `oldToNew`.
   */
  function Tried(db0: Db, editor: Option<Attrs -> Attrs>, x: Rec, oldToNew: map<Rec, Rec>): Attrs
  {
    RewireAll(FieldsOf(db0, x.model), Draft(editor, db0, x), true, oldToNew, RowOf(db0, x).attrs)
  }

  /** However often a queued copy was tried before, trying it again gives the same as trying its draft. */
  lemma LazyCopyTried(db0: Db, editor: Option<Attrs -> Attrs>, db: Db, p: Pending, oldToNew: map<Rec, Rec>)
    requires Wf(db0) && db.schema == db0.schema && RowOf(db, p.original) == RowOf(db0, p.original)
    requires AgreesWithDraft(FieldsOf(db0, p.original.model), p.attrs, Draft(editor, db0, p.original))
    requires DraftKeys(FieldsOf(db0, p.original.model), p.attrs, Draft(editor, db0, p.original))
    ensures LazyCopy(db, p, oldToNew) == Tried(db0, editor, p.original, oldToNew)
  {
    var fs, d, o := FieldsOf(db0, p.original.model), Draft(editor, db0, p.original), RowOf(db0, p.original).attrs;
    assert FieldsOf(db, p.original.model) == fs;
    UniqueFieldsOf(db0, p.original.model);
    RewireAllPointwise(fs, p.attrs, true, oldToNew, o);
    RewireAllPointwise(fs, d, true, oldToNew, o);
    var a, b := LazyCopy(db, p, oldToNew), Tried(db0, editor, p.original, oldToNew);
    forall name | name in a
      ensures name in b && a[name] == b[name]
    {
      if name !in RewiredNames(fs) {
        assert GetOrNull(p.attrs, name) == GetOrNull(d, name);
      } else {
        var f :| f in fs && IsRewired(f) && f.name == name;
      }
    }
  }

  /** The row the creation loop stores for a copy of `x` while the map stands at `oldToNew`. */
  function MadeRow(db0: Db, editor: Option<Attrs -> Attrs>, x: Rec, oldToNew: map<Rec, Rec>): Row
  {
    Row(CreationArgsOf(FieldsOf(db0, x.model), Tried(db0, editor, x, oldToNew)), map[])
  }

  /**
   * The store the creation loop had made once the first `n` copies were
   * created: `db0` with those rows added in order, and the allocator moved
   * on by one for each.
   */
  function StoreAt(db0: Db, editor: Option<Attrs -> Attrs>, oldToNew0: map<Rec, Rec>,
                   created: seq<Rec>, origins: seq<Rec>, n: nat): Db
    requires n <= |created| && n <= |origins|
  {
    if n == 0 then db0
    else
      var s := StoreAt(db0, editor, oldToNew0, created, origins, n - 1);
      Db(s.schema, s.rows[created[n - 1] := MadeRow(db0, editor, origins[n - 1], MapAfter(oldToNew0, created, origins, n - 1))],
         s.nextId + 1)
  }

  /**
   * Each copy passed the check at its creation: the draft of its original,
   * re-pointed lazily through the map as it stood then, was accepted by
   * `valid` against the store as it stood then.
   */
  ghost predicate PassedCheck(db0: Db, editor: Option<Attrs -> Attrs>, valid: (ModelName, Attrs, Db) -> bool,
                              oldToNew0: map<Rec, Rec>, created: seq<Rec>, origins: seq<Rec>)
  {
    && |created| == |origins|
    && forall i :: 0 <= i < |created| ==> PassedAt(db0, editor, valid, oldToNew0, created, origins, i)
  }

  /** The copy at place `i` passed the check at its creation. */
  ghost predicate PassedAt(db0: Db, editor: Option<Attrs -> Attrs>, valid: (ModelName, Attrs, Db) -> bool,
                           oldToNew0: map<Rec, Rec>, created: seq<Rec>, origins: seq<Rec>, i: nat)
  {
    && i < |created| && i < |origins|
    && valid(origins[i].model, Tried(db0, editor, origins[i], MapAfter(oldToNew0, created, origins, i)),
             StoreAt(db0, editor, oldToNew0, created, origins, i))
  }

  /** The first copy, if any, passed the check against the store before any creation. */
  lemma PassedFirst(db0: Db, editor: Option<Attrs -> Attrs>, valid: (ModelName, Attrs, Db) -> bool,
                    oldToNew0: map<Rec, Rec>, created: seq<Rec>, origins: seq<Rec>)
    requires PassedCheck(db0, editor, valid, oldToNew0, created, origins)
    ensures created != [] ==> valid(origins[0].model, Tried(db0, editor, origins[0], oldToNew0), db0)
  {
    if created != [] {
      assert PassedAt(db0, editor, valid, oldToNew0, created, origins, 0);
    }
  }

  /** The store after `n` creations does not depend on the creations that come later. */
  lemma {:induction false} StoreAtSnoc(db0: Db, editor: Option<Attrs -> Attrs>, oldToNew0: map<Rec, Rec>,
                                       created: seq<Rec>, origins: seq<Rec>, c: Rec, x: Rec, n: nat)
    requires n <= |created| && n <= |origins|
    ensures StoreAt(db0, editor, oldToNew0, created + [c], origins + [x], n) == StoreAt(db0, editor, oldToNew0, created, origins, n)
  {
    if n > 0 {
      StoreAtSnoc(db0, editor, oldToNew0, created, origins, c, x, n - 1);
      MapAfterSnoc(oldToNew0, created, origins, c, x, n - 1);
      var m := MapAfter(oldToNew0, created, origins, n - 1);
      var y := origins[n - 1];
      assert (created + [c])[n - 1] == created[n - 1] && (origins + [x])[n - 1] == y;
      var row := MadeRow(db0, editor, y, m);
      assert MadeRow(db0, editor, (origins + [x])[n - 1], MapAfter(oldToNew0, created + [c], origins + [x], n - 1)) == row;
      var st := StoreAt(db0, editor, oldToNew0, created, origins, n - 1);
      assert StoreAt(db0, editor, oldToNew0, created, origins, n) == Db(st.schema, st.rows[created[n - 1] := row], st.nextId + 1);
      assert StoreAt(db0, editor, oldToNew0, created + [c], origins + [x], n) ==
             Db(st.schema, st.rows[created[n - 1] := row], st.nextId + 1);
    }
  }

  /** Creating the copy of `x` from its tried draft extends StoreAt by one. */
  lemma StoreAtCreate(db0: Db, editor: Option<Attrs -> Attrs>, oldToNew0: map<Rec, Rec>, db: Db,
                      created: seq<Rec>, origins: seq<Rec>, x: Rec)
    requires |created| == |origins| && db == StoreAt(db0, editor, oldToNew0, created, origins, |created|)
    ensures var args := CreationArgsOf(FieldsOf(db0, x.model), Tried(db0, editor, x, MapAfter(oldToNew0, created, origins, |created|)));
            var c := Create(db, x.model, args).1;
            Create(db, x.model, args).0 == StoreAt(db0, editor, oldToNew0, created + [c], origins + [x], |created| + 1)
  {
    var args := CreationArgsOf(FieldsOf(db0, x.model), Tried(db0, editor, x, MapAfter(oldToNew0, created, origins, |created|)));
    var c := Create(db, x.model, args).1;
    StoreAtSnoc(db0, editor, oldToNew0, created, origins, c, x, |created|);
    MapAfterSnoc(oldToNew0, created, origins, c, x, |created|);
  }

  /** A copy that passed the check extends PassedCheck by one. */
  lemma PassedCreate(db0: Db, editor: Option<Attrs -> Attrs>, valid: (ModelName, Attrs, Db) -> bool,
                     oldToNew0: map<Rec, Rec>, created: seq<Rec>, origins: seq<Rec>, c: Rec, x: Rec)
    requires PassedCheck(db0, editor, valid, oldToNew0, created, origins)
    requires valid(x.model, Tried(db0, editor, x, MapAfter(oldToNew0, created, origins, |created|)),
                   StoreAt(db0, editor, oldToNew0, created, origins, |created|))
    ensures PassedCheck(db0, editor, valid, oldToNew0, created + [c], origins + [x])
  {
    forall i | 0 <= i < |created| + 1
      ensures PassedAt(db0, editor, valid, oldToNew0, created + [c], origins + [x], i)
    {
      if i < |created| {
        assert PassedAt(db0, editor, valid, oldToNew0, created, origins, i);
        PassedKept(db0, editor, valid, oldToNew0, created, origins, c, x, i);
      } else {
        PassedNew(db0, editor, valid, oldToNew0, created, origins, c, x);
      }
    }
  }

  /** An earlier passed check stays passed when one more copy is created. */
  lemma PassedKept(db0: Db, editor: Option<Attrs -> Attrs>, valid: (ModelName, Attrs, Db) -> bool,
                   oldToNew0: map<Rec, Rec>, created: seq<Rec>, origins: seq<Rec>, c: Rec, x: Rec, i: nat)
    requires PassedAt(db0, editor, valid, oldToNew0, created, origins, i)
    ensures PassedAt(db0, editor, valid, oldToNew0, created + [c], origins + [x], i)
  {
    StoreAtSnoc(db0, editor, oldToNew0, created, origins, c, x, i);
    MapAfterSnoc(oldToNew0, created, origins, c, x, i);
    assert (origins + [x])[i] == origins[i];
  }

  /** The check the new copy passed is recorded at its place. */
  lemma PassedNew(db0: Db, editor: Option<Attrs -> Attrs>, valid: (ModelName, Attrs, Db) -> bool,
                  oldToNew0: map<Rec, Rec>, created: seq<Rec>, origins: seq<Rec>, c: Rec, x: Rec)
    requires |created| == |origins|
    requires valid(x.model, Tried(db0, editor, x, MapAfter(oldToNew0, created, origins, |created|)),
                   StoreAt(db0, editor, oldToNew0, created, origins, |created|))
    ensures PassedAt(db0, editor, valid, oldToNew0, created + [c], origins + [x], |created|)
  {
    StoreAtSnoc(db0, editor, oldToNew0, created, origins, c, x, |created|);
    MapAfterSnoc(oldToNew0, created, origins, c, x, |created|);
  }


  /** `attrs'` is the copy `c`'s stored attributes with every forward to-one relation re-pointed, eagerly. */
  ghost predicate Repointed(db: Db, attrs': Attrs, c: Rec, original: Rec, oldToNew: map<Rec, Rec>)
  {
    var fs, a := FieldsOf(db, c.model), RowOf(db, c).attrs;
    && attrs'.Keys == a.Keys + RewiredNames(fs)
    && (forall name :: name in a && name !in RewiredNames(fs) ==> attrs'[name] == a[name])
    && (forall f :: f in fs && IsRewired(f) ==>
          attrs'[f.name] == MapValue(oldToNew, GetOrNull(RowOf(db, original).attrs, f.name)))
  }

  /** `row'` is the copy `c`'s stored row with each forward many-to-many refilled from the original. */
  ghost predicate Refilled(db: Db, row': Row, c: Rec, original: Rec, oldToNew: map<Rec, Rec>)
  {
    var fs := FieldsOf(db, c.model);
    && row'.attrs == RowOf(db, c).attrs
    && (forall f :: f in fs && IsOwnedManyToMany(f) ==>
          RowMembers(row', f.name) == Copied(oldToNew, Members(db, c, f.name), Members(db, original, f.name)))
    && (forall name :: name !in OwnedManyToManyNames(fs) ==> RowMembers(row', name) == Members(db, c, name))
  }

  /** `db'` is `db` with only the rows of `touched` changed, and no row added or removed. */
  ghost predicate OnlyTouched(db: Db, db': Db, touched: seq<Rec>)
  {
    && db'.schema == db.schema && db'.nextId == db.nextId
    && (forall r :: r in db'.rows <==> r in db.rows)
    && (forall r :: r in db.rows && r !in touched ==> db'.rows[r] == db.rows[r])
  }

  /** The to-one pass has handled the copies `cs`. */
  ghost predicate ToOneDone(db: Db, db': Db, cs: seq<Rec>, newToOld: map<Rec, Rec>, oldToNew: map<Rec, Rec>)
  {
    && OnlyTouched(db, db', cs)
    && (forall c :: c in cs ==>
          && c in db'.rows && c in newToOld
          && db'.rows[c].members == RowOf(db, c).members
          && Repointed(db, db'.rows[c].attrs, c, newToOld[c], oldToNew))
  }

  /** Saving the re-pointed attributes of one more copy extends the to-one pass by it. */
  lemma ToOneStep(db: Db, cur: Db, cs: seq<Rec>, c: Rec, attrs: Attrs, newToOld: map<Rec, Rec>, oldToNew: map<Rec, Rec>)
    requires ToOneDone(db, cur, cs, newToOld, oldToNew)
    requires c in db.rows && c !in cs && c in newToOld
    requires Repointed(db, attrs, c, newToOld[c], oldToNew)
    ensures ToOneDone(db, Save(cur, c, attrs), cs + [c], newToOld, oldToNew)
  {
    var next := Save(cur, c, attrs);
    assert c in cur.rows && cur.rows[c] == db.rows[c];
    assert next.rows[c].members == RowOf(db, c).members && next.rows[c].attrs == attrs;
    forall x | x in cs
      ensures next.rows[x] == cur.rows[x]
    {
    }
    assert OnlyTouched(db, next, cs + [c]);
  }

  /** The many-to-many pass has handled the copies `cs`. */
  ghost predicate ManyDone(db: Db, db': Db, cs: seq<Rec>, newToOld: map<Rec, Rec>, oldToNew: map<Rec, Rec>)
  {
    && OnlyTouched(db, db', cs)
    && (forall c :: c in cs ==> c in db'.rows && c in newToOld && Refilled(db, db'.rows[c], c, newToOld[c], oldToNew))
  }

  /** The many-to-many pass over the copy `c` has handled the fields `fs`. */
  ghost predicate FieldsDone(db: Db, db': Db, c: Rec, original: Rec, oldToNew: map<Rec, Rec>, fs: seq<Field>)
  {
    && OnlyTouched(db, db', [c])
    && RowOf(db', c).attrs == RowOf(db, c).attrs
    && (forall f :: f in fs && IsOwnedManyToMany(f) ==>
          Members(db', c, f.name) == Copied(oldToNew, Members(db, c, f.name), Members(db, original, f.name)))
    && (forall name :: name !in OwnedManyToManyNames(fs) ==> Members(db', c, name) == Members(db, c, name))
  }

  lemma FieldsDoneAll(db: Db, db': Db, c: Rec, original: Rec, oldToNew: map<Rec, Rec>)
    requires c in db.rows && FieldsDone(db, db', c, original, oldToNew, FieldsOf(db, c.model))
    ensures Refilled(db, db'.rows[c], c, original, oldToNew)
  {
  }

  /** Refilled only looks at the copy's and the original's rows and at the schema. */
  lemma RefilledFrame(db: Db, db': Db, row: Row, c: Rec, original: Rec, oldToNew: map<Rec, Rec>)
    requires db'.schema == db.schema && RowOf(db', c) == RowOf(db, c) && RowOf(db', original) == RowOf(db, original)
    ensures Refilled(db', row, c, original, oldToNew) == Refilled(db, row, c, original, oldToNew)
  {
    assert FieldsOf(db', c.model) == FieldsOf(db, c.model);
    assert forall name :: Members(db', c, name) == Members(db, c, name);
    assert forall name :: Members(db', original, name) == Members(db, original, name);
  }

  /**
   * A finished copy of `original`: its creation arguments are the draft's
   * values with every forward to-one relation re-pointed through the final
   * `oldToNew`, and each forward many-to-many holds the images of the
   * original's members without repeats. Every other stored collection is
   * empty; reverse collections are stored here, not derived from the rows
   * that point to the copy.
   */
  ghost predicate FinishedCopy(db: Db, editor: Option<Attrs -> Attrs>, oldToNew: map<Rec, Rec>, row: Row, original: Rec)
  {
    var fs := FieldsOf(db, original.model);
    && row.attrs.Keys == PersistedNames(fs)
    && (forall f :: f in fs && IsRewired(f) ==>
          row.attrs[f.name] == MapValue(oldToNew, GetOrNull(RowOf(db, original).attrs, f.name)))
    && (forall name :: name in row.attrs && name !in RewiredNames(fs) ==>
          row.attrs[name] == GetOrNull(Draft(editor, db, original), name))
    && (forall f :: f in fs && IsOwnedManyToMany(f) ==>
          RowMembers(row, f.name) == Copied(oldToNew, [], Members(db, original, f.name)))
    && (forall name :: name !in OwnedManyToManyNames(fs) ==> RowMembers(row, name) == [])
  }
}
