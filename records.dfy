/**
 * The persisted records the cloner works on, the relation descriptors that
 * the schema reports for each model, and the few store primitives the
 * cloner calls (look a relation up, create a row, save a row, add a member).
 */
module Records {

  type ModelName = string
  type FieldName = string

  datatype Option<T> = None | Some(value: T)

  /** A persisted record, identified by its exact model and its primary key. */
  datatype Rec = Rec(model: ModelName, pk: nat)

  /** An attribute value: null, a plain datum, or a reference to a record. */
  datatype Value = Null | Data(datum: int) | Ref(target: Rec)

  datatype Cardinality = NotRelation | ManyToOne | OneToOne | OneToMany | ManyToMany

  /**
   * One entry of a model's field list.
   *  - name: the accessor under which the relation is read (reverse
   *    accessors already carry their final name);
   *  - autoCreated: the store synthesised the field (the reverse side);
   *  - parentLink: the field's own parent-link flag, which the discovery
   *    walk follows (multi-table inheritance);
   *  - remoteParentLink: the parent-link flag of the field's remote side,
   *    set on the pointer from a derived model to its base;
   *  - nullable: assigning null to this to-one field is accepted.
   */
  datatype Field = Field(name: FieldName, card: Cardinality, autoCreated: bool,
                         parentLink: bool, remoteParentLink: bool, nullable: bool)

  predicate IsRelation(f: Field) { f.card != NotRelation }
  predicate IsToOne(f: Field) { f.card == ManyToOne || f.card == OneToOne }
  /** The pointer from a derived model's row to its base model's row. */
  predicate IsParentPointer(f: Field) { f.card == OneToOne && f.remoteParentLink }
  /** A field the discovery walk climbs through before marking a record. */
  predicate IsClimbLink(f: Field) { f.card == OneToOne && f.parentLink }

  /**
   * climbRank bounds how many climb links can still be followed, one after
   * the other, from a record of the model. It is a measure for the climb, not
   * the model's depth in the class hierarchy: a climb link is the reverse
   * one-to-one from a base row to the row of a derived model.
   */
  datatype ModelDesc = ModelDesc(fields: seq<Field>, climbRank: nat)

  type Attrs = map<FieldName, Value>

  /** Stored state of a record: attribute (and to-one) values, to-many collections. */
  datatype Row = Row(attrs: Attrs, members: map<FieldName, seq<Rec>>)

  /** The store: schema, rows, and the next identity the allocator hands out. */
  datatype Db = Db(schema: map<ModelName, ModelDesc>, rows: map<Rec, Row>, nextId: nat)

  function FieldsOf(db: Db, m: ModelName): seq<Field>
  {
    if m in db.schema then db.schema[m].fields else []
  }

  function ClimbRank(db: Db, m: ModelName): nat
  {
    if m in db.schema then db.schema[m].climbRank else 0
  }

  function RowOf(db: Db, r: Rec): Row
  {
    if r in db.rows then db.rows[r] else Row(map[], map[])
  }

  /** `getattr(obj, name, None)` on a plain attribute. */
  function GetOrNull(a: Attrs, name: FieldName): Value
  {
    if name in a then a[name] else Null
  }

  /** A to-one relation read: the referenced record, or None when it is null or unset. */
  function Lookup(db: Db, r: Rec, name: FieldName): Option<Rec>
  {
    match GetOrNull(RowOf(db, r).attrs, name)
    case Ref(t) => Some(t)
    case _ => None
  }

  /** A to-many relation read: every member, in store order, repeats included. */
  function Members(db: Db, r: Rec, name: FieldName): seq<Rec>
  {
    RowMembers(RowOf(db, r), name)
  }

  function RowMembers(row: Row, name: FieldName): seq<Rec>
  {
    if name in row.members then row.members[name] else []
  }

  /** No record occurs twice. */
  ghost predicate Distinct(s: seq<Rec>)
  {
    forall i, j :: 0 <= i < j < |s| ==> s[i] != s[j]
  }

  /** Field names are unique within a model. */
  ghost predicate UniqueNames(fs: seq<Field>)
  {
    forall i, j :: 0 <= i < j < |fs| ==> fs[i].name != fs[j].name
  }

  /** Every relation of a stored record leads to a stored record. */
  ghost predicate Closed(db: Db)
  {
    && (forall r, name :: r in db.rows && Lookup(db, r, name).Some? ==> Lookup(db, r, name).value in db.rows)
    && (forall r, name, x :: r in db.rows && x in Members(db, r, name) ==> x in db.rows)
  }

  /** Following a resolved climb link always reaches a model of smaller climb rank. */
  ghost predicate ParentLinksDescend(db: Db)
  {
    forall r: Rec, f :: f in FieldsOf(db, r.model) && IsClimbLink(f) && Lookup(db, r, f.name).Some? ==>
      ClimbRank(db, Lookup(db, r, f.name).value.model) < ClimbRank(db, r.model)
  }

  /** Every stored identity is below the allocator's next identity. */
  ghost predicate FreshCounter(db: Db)
  {
    forall r :: r in db.rows ==> r.pk < db.nextId
  }

  /** The store as the cloner expects to find it. */
  ghost predicate Wf(db: Db)
  {
    && Closed(db)
    && ParentLinksDescend(db)
    && FreshCounter(db)
    && (forall m :: m in db.schema ==> UniqueNames(db.schema[m].fields))
  }

  lemma UniqueFieldsOf(db: Db, m: ModelName)
    requires Wf(db)
    ensures UniqueNames(FieldsOf(db, m))
  {
  }

  /** `Model.objects.create(**attrs)`: a new row under a fresh identity, with empty collections. */
  function Create(db: Db, m: ModelName, attrs: Attrs): (res: (Db, Rec))
    ensures res.1 == Rec(m, db.nextId) && res.0.schema == db.schema
    ensures FreshCounter(db) ==> res.1 !in db.rows && FreshCounter(res.0)
    ensures res.0.rows == db.rows[res.1 := Row(attrs, map[])]
  {
    var r := Rec(m, db.nextId);
    (Db(db.schema, db.rows[r := Row(attrs, map[])], db.nextId + 1), r)
  }

  /** `save()` of an in-memory record: its attributes are written back. */
  function Save(db: Db, r: Rec, attrs: Attrs): Db
  {
    db.(rows := db.rows[r := RowOf(db, r).(attrs := attrs)])
  }

  /** `add()` on a many-to-many collection. */
  function AddMember(db: Db, r: Rec, name: FieldName, x: Rec): Db
  {
    var row := RowOf(db, r);
    db.(rows := db.rows[r := row.(members := row.members[name := Members(db, r, name) + [x]])])
  }
}
