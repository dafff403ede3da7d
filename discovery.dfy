/**
 * What the discovery walk is meant to compute: the neighbours of a record,
 * the record reached by climbing parent links, and a characterisation of a
 * walk's result through the tree of records it marks.
 */
module Discovery {
  import opened Records
  import opened Policy

  /** The neighbours one field of `obj` contributes. */
  function Contribution(lim: Limits, db: Db, obj: Rec, f: Field): seq<Rec>
  {
    if !IsRelation(f) || IsIgnoredField(lim, obj.model, f.name) then []
    else if IsToOne(f) then
      (match Lookup(db, obj, f.name) case Some(t) => [t] case None => [])
    else Members(db, obj, f.name)
  }

  /** The neighbours contributed by the fields `fs`, field by field. */
  function NeighborsAmong(lim: Limits, db: Db, obj: Rec, fs: seq<Field>): seq<Rec>
  {
    if fs == [] then []
    else NeighborsAmong(lim, db, obj, fs[..|fs| - 1]) + Contribution(lim, db, obj, fs[|fs| - 1])
  }

  function Neighbors(lim: Limits, db: Db, obj: Rec): seq<Rec>
  {
    NeighborsAmong(lim, db, obj, FieldsOf(db, obj.model))
  }

  /** A record is a neighbour exactly when some field contributes it. */
  lemma {:induction false} NeighborsAmongMembership(lim: Limits, db: Db, obj: Rec, fs: seq<Field>, x: Rec)
    ensures x in NeighborsAmong(lim, db, obj, fs) <==>
            exists i :: 0 <= i < |fs| && x in Contribution(lim, db, obj, fs[i])
  {
    if fs != [] {
      var init := fs[..|fs| - 1];
      NeighborsAmongMembership(lim, db, obj, init, x);
      if x in Contribution(lim, db, obj, fs[|fs| - 1]) {
        assert 0 <= |fs| - 1 < |fs|;
      }
      if exists i :: 0 <= i < |fs| && x in Contribution(lim, db, obj, fs[i]) {
        var i :| 0 <= i < |fs| && x in Contribution(lim, db, obj, fs[i]);
        if i < |fs| - 1 {
          assert fs[i] == init[i];
        }
      }
    }
  }

  /**
   * A record is a neighbour of `obj` exactly when some relation field of its
   * model that is not ignored for its exact model reaches it: a to-one field
   * whose value is that record (null is never a neighbour), or a to-many or
   * many-to-many field having it as a member.
   */
  lemma NeighborsMembership(lim: Limits, db: Db, obj: Rec, x: Rec)
    ensures x in Neighbors(lim, db, obj) <==>
            exists f :: f in FieldsOf(db, obj.model) && IsRelation(f) && !IsIgnoredField(lim, obj.model, f.name) &&
                        (if IsToOne(f) then Lookup(db, obj, f.name) == Some(x) else x in Members(db, obj, f.name))
  {
    var fs := FieldsOf(db, obj.model);
    NeighborsAmongMembership(lim, db, obj, fs, x);
    if x in Neighbors(lim, db, obj) {
      var i :| 0 <= i < |fs| && x in Contribution(lim, db, obj, fs[i]);
      assert fs[i] in fs;
    }
    if exists f :: f in fs && IsRelation(f) && !IsIgnoredField(lim, obj.model, f.name) &&
                   (if IsToOne(f) then Lookup(db, obj, f.name) == Some(x) else x in Members(db, obj, f.name)) {
      var f :| f in fs && IsRelation(f) && !IsIgnoredField(lim, obj.model, f.name) &&
               (if IsToOne(f) then Lookup(db, obj, f.name) == Some(x) else x in Members(db, obj, f.name));
      var i :| 0 <= i < |fs| && fs[i] == f;
      assert x in Contribution(lim, db, obj, fs[i]);
    }
  }

  /** A stored record's neighbours are stored records. */
  lemma NeighborsStored(lim: Limits, db: Db, obj: Rec, x: Rec)
    requires Closed(db) && obj in db.rows && x in Neighbors(lim, db, obj)
    ensures x in db.rows
  {
    NeighborsMembership(lim, db, obj, x);
    var f :| f in FieldsOf(db, obj.model) && IsRelation(f) && !IsIgnoredField(lim, obj.model, f.name) &&
             (if IsToOne(f) then Lookup(db, obj, f.name) == Some(x) else x in Members(db, obj, f.name));
  }

  /** A climb link of `r` whose lookup resolves. */
  predicate Resolves(db: Db, r: Rec, f: Field)
  {
    IsRelation(f) && IsClimbLink(f) && Lookup(db, r, f.name).Some?
  }

  /**
   * The first climb link among `fs`, in field order, whose lookup resolves,
   * if any: when the link at place `k` resolves and none before it does,
   * its target is the result.
   */
  function FirstParentLink(db: Db, r: Rec, fs: seq<Field>): (p: Option<Rec>)
    ensures p.Some? ==> exists f :: f in fs && IsClimbLink(f) && Lookup(db, r, f.name) == p
    ensures p.None? ==> forall f :: f in fs && IsRelation(f) && IsClimbLink(f) ==> Lookup(db, r, f.name).None?
    ensures forall k :: 0 <= k < |fs| && Resolves(db, r, fs[k]) && (forall j :: 0 <= j < k ==> !Resolves(db, r, fs[j])) ==>
              p == Lookup(db, r, fs[k].name)
  {
    if fs == [] then None
    else if IsRelation(fs[0]) && IsClimbLink(fs[0]) && Lookup(db, r, fs[0].name).Some? then
      Lookup(db, r, fs[0].name)
    else
      FirstParentLink(db, r, fs[1..])
  }

  function ParentOf(db: Db, r: Rec): Option<Rec>
  {
    FirstParentLink(db, r, FieldsOf(db, r.model))
  }

  /**
   * The record that marks `r` in the walk: parent links are followed until
   * none resolves. The result has no resolvable parent link, and it is `r`
   * itself or a record of a strictly smaller climb rank.
   */
  function Climb(db: Db, r: Rec): (c: Rec)
    requires ParentLinksDescend(db)
    ensures ParentOf(db, c).None?
    ensures c == r || ClimbRank(db, c.model) < ClimbRank(db, r.model)
    ensures Closed(db) && r in db.rows ==> c in db.rows
    decreases ClimbRank(db, r.model)
  {
    match ParentOf(db, r)
    case None => r
    case Some(p) => Climb(db, p)
  }

  /** Climbing is idempotent. */
  lemma ClimbFixed(db: Db, r: Rec)
    requires ParentLinksDescend(db)
    ensures Climb(db, Climb(db, r)) == Climb(db, r)
  {
  }

  /** The records in `marks` are all climb results. */
  ghost predicate Climbed(db: Db, marks: set<Rec>)
    requires ParentLinksDescend(db)
  {
    forall m :: m in marks ==> Climb(db, m) == m
  }

  /** `y` is marked because of a non-blocking neighbour of `x`. */
  ghost predicate NonBlockedStep(lim: Limits, db: Db, x: Rec, y: Rec)
    requires ParentLinksDescend(db)
  {
    exists n :: n in Neighbors(lim, db, x) && !IsBlocked(lim, n) && Climb(db, n) == y
  }

  /**
   * `t` lists the records a walk from `root` marks, in marking order: it
   * starts at the climbed root, has no repeats, and every later record is
   * reached through a non-blocking neighbour of an earlier one.
   */
  ghost predicate RootedTree(lim: Limits, db: Db, root: Rec, t: seq<Rec>)
    requires ParentLinksDescend(db)
  {
    && |t| > 0 && t[0] == Climb(db, root) && Distinct(t)
    && forall i :: 0 < i < |t| ==> Reached(lim, db, t, i)
  }

  /** The `i`-th marked record is reached from an earlier one. */
  ghost predicate Reached(lim: Limits, db: Db, t: seq<Rec>, i: int)
    requires ParentLinksDescend(db) && 0 <= i < |t|
  {
    exists j :: 0 <= j < i && NonBlockedStep(lim, db, t[j], t[i])
  }

  /**
   * Every neighbour of a record of `t` is accounted for: a blocking one is
   * in `found`, a non-blocking one is marked (after climbing).
   */
  ghost predicate ClosedUnder(lim: Limits, db: Db, t: seq<Rec>, found: seq<Rec>, marks: set<Rec>)
    requires ParentLinksDescend(db)
  {
    forall x, n :: x in t && n in Neighbors(lim, db, x) ==>
      (IsBlocked(lim, n) ==> n in found) && (!IsBlocked(lim, n) ==> Climb(db, n) in marks)
  }

  /** `found` holds the marked records and, besides them, only blocking neighbours of marked records. */
  ghost predicate Fits(lim: Limits, db: Db, found: seq<Rec>, t: seq<Rec>)
  {
    && (forall x :: x in t ==> x in found)
    && (forall x :: x in found ==>
          (x in t || (IsBlocked(lim, x) && exists j :: 0 <= j < |t| && x in Neighbors(lim, db, t[j]))))
  }

  /** Only blocking records may appear more than once. */
  ghost predicate RepeatsBlocked(lim: Limits, s: seq<Rec>)
  {
    forall i, j :: 0 <= i < j < |s| && s[i] == s[j] ==> IsBlocked(lim, s[i])
  }

  /** `found` is a complete walk from `root`, `t` the tree of records it marked. */
  ghost predicate Discovered(lim: Limits, db: Db, root: Rec, found: seq<Rec>, t: seq<Rec>)
    requires ParentLinksDescend(db)
  {
    && RootedTree(lim, db, root, t)
    && ClosedUnder(lim, db, t, found, set x | x in t)
    && Fits(lim, db, found, t)
    && RepeatsBlocked(lim, found)
    && |found| > 0 && found[0] == t[0]
  }

  ghost predicate IsDiscovery(lim: Limits, db: Db, root: Rec, found: seq<Rec>)
    requires ParentLinksDescend(db)
  {
    exists t :: Discovered(lim, db, root, found, t)
  }

  /** A walk from a stored record marks only stored records. */
  lemma {:induction false} TreeStored(lim: Limits, db: Db, root: Rec, t: seq<Rec>, k: nat)
    requires Closed(db) && ParentLinksDescend(db) && root in db.rows
    requires RootedTree(lim, db, root, t) && k <= |t|
    ensures forall i :: 0 <= i < k ==> t[i] in db.rows
  {
    if k > 0 {
      TreeStored(lim, db, root, t, k - 1);
      StoredStep(lim, db, root, t, k - 1);
    }
  }

  lemma StoredStep(lim: Limits, db: Db, root: Rec, t: seq<Rec>, i: nat)
    requires Closed(db) && ParentLinksDescend(db) && root in db.rows
    requires RootedTree(lim, db, root, t) && i < |t|
    requires forall j :: 0 <= j < i ==> t[j] in db.rows
    ensures t[i] in db.rows
  {
    if i > 0 {
      assert Reached(lim, db, t, i);
      var j :| 0 <= j < i && NonBlockedStep(lim, db, t[j], t[i]);
      var n :| n in Neighbors(lim, db, t[j]) && !IsBlocked(lim, n) && Climb(db, n) == t[i];
      NeighborsStored(lim, db, t[j], n);
    }
  }

  /** Every record a discovery from a stored record lists is stored. */
  lemma DiscoveryStored(lim: Limits, db: Db, root: Rec, found: seq<Rec>)
    requires Closed(db) && ParentLinksDescend(db) && root in db.rows
    requires IsDiscovery(lim, db, root, found)
    ensures forall x :: x in found ==> x in db.rows
  {
    var t :| Discovered(lim, db, root, found, t);
    TreeStored(lim, db, root, t, |t|);
    forall x | x in found
      ensures x in db.rows
    {
      if x !in t {
        var j :| 0 <= j < |t| && x in Neighbors(lim, db, t[j]);
        NeighborsStored(lim, db, t[j], x);
      }
    }
  }

  /** Every record in the first `k` entries of one tree lies in any other closed tree from the same root. */
  lemma {:induction false} TreePrefixIn(lim: Limits, db: Db, root: Rec, t1: seq<Rec>, f2: seq<Rec>, t2: seq<Rec>, k: nat)
    requires ParentLinksDescend(db)
    requires RootedTree(lim, db, root, t1) && RootedTree(lim, db, root, t2)
    requires ClosedUnder(lim, db, t2, f2, set x | x in t2)
    requires k <= |t1|
    ensures forall i :: 0 <= i < k ==> t1[i] in t2
  {
    if k > 0 {
      TreePrefixIn(lim, db, root, t1, f2, t2, k - 1);
      TreeStep(lim, db, root, t1, f2, t2, k - 1);
    }
  }

  /** A record of one tree lies in another closed tree from the same root once all earlier ones do. */
  lemma TreeStep(lim: Limits, db: Db, root: Rec, t1: seq<Rec>, f2: seq<Rec>, t2: seq<Rec>, i: nat)
    requires ParentLinksDescend(db)
    requires RootedTree(lim, db, root, t1) && RootedTree(lim, db, root, t2)
    requires ClosedUnder(lim, db, t2, f2, set x | x in t2)
    requires i < |t1| && forall j :: 0 <= j < i ==> t1[j] in t2
    ensures t1[i] in t2
  {
    if i > 0 {
      assert Reached(lim, db, t1, i);
      var j :| 0 <= j < i && NonBlockedStep(lim, db, t1[j], t1[i]);
      var n :| n in Neighbors(lim, db, t1[j]) && !IsBlocked(lim, n) && Climb(db, n) == t1[i];
      ClosedStep(lim, db, t2, f2, (set x | x in t2), t1[j], n);
    }
  }

  /** A closed set of marked records holds the climbed non-blocking neighbours of each of them. */
  lemma ClosedStep(lim: Limits, db: Db, t: seq<Rec>, found: seq<Rec>, marks: set<Rec>, x: Rec, n: Rec)
    requires ParentLinksDescend(db)
    requires ClosedUnder(lim, db, t, found, marks)
    requires x in t && n in Neighbors(lim, db, x) && !IsBlocked(lim, n)
    ensures Climb(db, n) in marks
  {
  }

  /** Records found by one walk are found by another whose tree contains the first's tree. */
  lemma FoundIn(lim: Limits, db: Db, f1: seq<Rec>, t1: seq<Rec>, f2: seq<Rec>, t2: seq<Rec>)
    requires ParentLinksDescend(db)
    requires forall x :: x in t1 ==> x in t2
    requires Fits(lim, db, f1, t1) && Fits(lim, db, f2, t2)
    requires ClosedUnder(lim, db, t2, f2, set x | x in t2)
    ensures forall x :: x in f1 ==> x in f2
  {
    forall x | x in f1 ensures x in f2 {
      if x !in t1 {
        var j :| 0 <= j < |t1| && x in Neighbors(lim, db, t1[j]);
        BlockedFound(lim, db, t2, f2, t1[j], x);
      }
    }
  }

  /** A blocking neighbour of a record of a closed tree is found. */
  lemma BlockedFound(lim: Limits, db: Db, t: seq<Rec>, found: seq<Rec>, y: Rec, x: Rec)
    requires ParentLinksDescend(db)
    requires ClosedUnder(lim, db, t, found, set x | x in t)
    requires y in t && x in Neighbors(lim, db, y) && IsBlocked(lim, x)
    ensures x in found
  {
  }

  /**
   * Discovery is deterministic in what it finds: two complete walks from the
   * same root over the same store and limits find the same records, and
   * start with the same record.
   */
  lemma DiscoverySameSet(lim: Limits, db: Db, root: Rec, found1: seq<Rec>, found2: seq<Rec>)
    requires ParentLinksDescend(db)
    requires IsDiscovery(lim, db, root, found1) && IsDiscovery(lim, db, root, found2)
    ensures found1[0] == found2[0]
    ensures forall x :: x in found1 <==> x in found2
  {
    var t1 :| Discovered(lim, db, root, found1, t1);
    var t2 :| Discovered(lim, db, root, found2, t2);
    TreePrefixIn(lim, db, root, t1, found2, t2, |t1|);
    TreePrefixIn(lim, db, root, t2, found1, t1, |t2|);
    FoundIn(lim, db, found1, t1, found2, t2);
    FoundIn(lim, db, found2, t2, found1, t1);
  }

  /** The tree marked below a non-blocking neighbour of the root extends the root's tree. */
  lemma RootedAppend(lim: Limits, db: Db, root: Rec, t: seq<Rec>, n: Rec, t2: seq<Rec>)
    requires ParentLinksDescend(db)
    requires RootedTree(lim, db, root, t) && RootedTree(lim, db, n, t2)
    requires n in Neighbors(lim, db, t[0]) && !IsBlocked(lim, n)
    requires forall x :: x in t ==> x !in t2
    ensures RootedTree(lim, db, root, t + t2)
  {
    var u := t + t2;
    forall i, j | 0 <= i < j < |u| ensures u[i] != u[j] {
      if j >= |t| && i < |t| {
        assert u[i] in t && u[j] == t2[j - |t|];
      }
      if i >= |t| {
        assert u[i] == t2[i - |t|] && u[j] == t2[j - |t|];
      }
    }
    forall i | 0 < i < |u| ensures Reached(lim, db, u, i) {
      if i < |t| {
        assert Reached(lim, db, t, i);
        var j :| 0 <= j < i && NonBlockedStep(lim, db, t[j], t[i]);
        assert u[j] == t[j];
      } else if i == |t| {
        assert NonBlockedStep(lim, db, u[0], u[i]);
      } else {
        assert Reached(lim, db, t2, i - |t|);
        var j :| 0 <= j < i - |t| && NonBlockedStep(lim, db, t2[j], t2[i - |t|]);
        assert u[j + |t|] == t2[j];
      }
    }
  }

  /** Appending a sub-walk to a walk keeps the result fitting the joined trees. */
  lemma FitsAppend(lim: Limits, db: Db, f: seq<Rec>, t: seq<Rec>, f2: seq<Rec>, t2: seq<Rec>)
    requires Fits(lim, db, f, t) && Fits(lim, db, f2, t2)
    ensures Fits(lim, db, f + f2, t + t2)
  {
    var u := t + t2;
    forall x | x in f + f2 && x !in u
      ensures IsBlocked(lim, x) && exists j :: 0 <= j < |u| && x in Neighbors(lim, db, u[j])
    {
      if x in f {
        var j :| 0 <= j < |t| && x in Neighbors(lim, db, t[j]);
        assert u[j] == t[j];
      } else {
        var j :| 0 <= j < |t2| && x in Neighbors(lim, db, t2[j]);
        assert u[j + |t|] == t2[j];
      }
    }
  }

  /** Appending a blocking neighbour of the root keeps the result fitting. */
  lemma FitsAppendBlocked(lim: Limits, db: Db, f: seq<Rec>, t: seq<Rec>, n: Rec)
    requires Fits(lim, db, f, t) && |t| > 0
    requires n in Neighbors(lim, db, t[0]) && IsBlocked(lim, n)
    ensures Fits(lim, db, f + [n], t)
  {
  }

  /** Joining two sequences whose non-blocking entries lie on different sides of A keeps repeats blocking. */
  lemma RepeatsAppend(lim: Limits, a: seq<Rec>, b: seq<Rec>, A: set<Rec>)
    requires RepeatsBlocked(lim, a) && RepeatsBlocked(lim, b)
    requires forall x :: x in a && !IsBlocked(lim, x) ==> x in A
    requires forall x :: x in b && !IsBlocked(lim, x) ==> x !in A
    ensures RepeatsBlocked(lim, a + b)
  {
    var u := a + b;
    forall i, j | 0 <= i < j < |u| && u[i] == u[j] ensures IsBlocked(lim, u[i]) {
      if i < |a| && j >= |a| {
        assert u[i] in a && u[j] in b;
      } else if i >= |a| {
        assert u[i] == b[i - |a|] && u[j] == b[j - |a|];
      }
    }
  }

  /** Closure survives growing the found records and the marks, and joins over trees. */
  lemma ClosedJoin(lim: Limits, db: Db, t1: seq<Rec>, f1: seq<Rec>, m1: set<Rec>,
                   t2: seq<Rec>, f2: seq<Rec>, m2: set<Rec>, f: seq<Rec>, m: set<Rec>)
    requires ParentLinksDescend(db)
    requires ClosedUnder(lim, db, t1, f1, m1) && ClosedUnder(lim, db, t2, f2, m2)
    requires (forall x :: x in f1 ==> x in f) && (forall x :: x in f2 ==> x in f)
    requires m1 <= m && m2 <= m
    ensures ClosedUnder(lim, db, t1 + t2, f, m)
  {
  }

  /**
   * The outcome of one recursive walk from `obj` given the marks `mark`:
   * the marks only grow, by exactly the records of `tree`; if the climbed
   * `obj` was already marked nothing is found, otherwise `tree` is rooted at
   * it and `found` starts with it; and `found` is closed, fits `tree` and
   * repeats only blocking records.
   */
  ghost predicate Walked(lim: Limits, db: Db, obj: Rec, mark: set<Rec>, found: seq<Rec>, mark': set<Rec>, tree: seq<Rec>)
    requires ParentLinksDescend(db)
  {
    && mark <= mark' <= db.rows.Keys && Climbed(db, mark')
    && (forall x :: x in mark' <==> x in mark || x in tree)
    && (forall x :: x in tree ==> x !in mark)
    && (Climb(db, obj) in mark ==> found == [] && tree == [])
    && (Climb(db, obj) !in mark ==> RootedTree(lim, db, obj, tree) && found != [] && found[0] == tree[0])
    && ClosedUnder(lim, db, tree, found, mark')
    && Fits(lim, db, found, tree)
    && RepeatsBlocked(lim, found)
  }

  /** The state of a walk from `obj`, climbed to `c`, after handling the neighbours `done` of `c`. */
  ghost predicate Walking(lim: Limits, db: Db, obj: Rec, c: Rec, mark: set<Rec>,
                          mark': set<Rec>, found: seq<Rec>, tree: seq<Rec>, done: seq<Rec>)
    requires ParentLinksDescend(db)
  {
    && c == Climb(db, obj) && c !in mark
    && mark + {c} <= mark' <= db.rows.Keys && Climbed(db, mark')
    && (forall x :: x in mark' <==> x in mark || x in tree)
    && (forall x :: x in tree ==> x !in mark)
    && RootedTree(lim, db, obj, tree) && found != [] && found[0] == c
    && ClosedUnder(lim, db, tree[1..], found, mark')
    && (forall n :: n in done ==>
          (IsBlocked(lim, n) ==> n in found) && (!IsBlocked(lim, n) ==> Climb(db, n) in mark'))
    && Fits(lim, db, found, tree)
    && RepeatsBlocked(lim, found)
  }

  lemma WalkStart(lim: Limits, db: Db, obj: Rec, c: Rec, mark: set<Rec>)
    requires ParentLinksDescend(db)
    requires c == Climb(db, obj) && c !in mark && c in db.rows
    requires mark <= db.rows.Keys && Climbed(db, mark)
    ensures Walking(lim, db, obj, c, mark, mark + {c}, [c], [c], [])
  {
    ClimbFixed(db, obj);
  }

  lemma WalkBlocked(lim: Limits, db: Db, obj: Rec, c: Rec, mark: set<Rec>, mark': set<Rec>,
                    found: seq<Rec>, tree: seq<Rec>, done: seq<Rec>, n: Rec)
    requires ParentLinksDescend(db)
    requires Walking(lim, db, obj, c, mark, mark', found, tree, done)
    requires n in Neighbors(lim, db, c) && IsBlocked(lim, n)
    ensures Walking(lim, db, obj, c, mark, mark', found + [n], tree, done + [n])
  {
    FitsAppendBlocked(lim, db, found, tree, n);
    RepeatsAppend(lim, found, [n], mark');
    ClosedJoin(lim, db, tree[1..], found, mark', [], [], mark', found + [n], mark');
    assert tree[1..] + [] == tree[1..];
  }

  lemma WalkMarked(lim: Limits, db: Db, obj: Rec, c: Rec, mark: set<Rec>, mark': set<Rec>,
                   found: seq<Rec>, tree: seq<Rec>, done: seq<Rec>, n: Rec)
    requires ParentLinksDescend(db)
    requires Walking(lim, db, obj, c, mark, mark', found, tree, done)
    requires !IsBlocked(lim, n) && n in mark'
    ensures Walking(lim, db, obj, c, mark, mark', found, tree, done + [n])
  {
  }

  lemma WalkDescend(lim: Limits, db: Db, obj: Rec, c: Rec, mark: set<Rec>, mark': set<Rec>,
                    found: seq<Rec>, tree: seq<Rec>, done: seq<Rec>, n: Rec,
                    sub: seq<Rec>, mark'': set<Rec>, subtree: seq<Rec>)
    requires ParentLinksDescend(db)
    requires Walking(lim, db, obj, c, mark, mark', found, tree, done)
    requires n in Neighbors(lim, db, c) && !IsBlocked(lim, n)
    requires Walked(lim, db, n, mark', sub, mark'', subtree)
    ensures Walking(lim, db, obj, c, mark, mark'', found + sub, tree + subtree, done + [n])
  {
    DescendTree(lim, db, obj, mark, mark', tree, n, mark'', subtree);
    DescendFound(lim, db, mark', found, tree, sub, mark'', subtree);
    assert Climb(db, n) in mark'' by {
      if Climb(db, n) !in mark' {
        assert subtree[0] == Climb(db, n);
      }
    }
  }

  lemma DescendTree(lim: Limits, db: Db, obj: Rec, mark: set<Rec>, mark': set<Rec>, tree: seq<Rec>,
                    n: Rec, mark'': set<Rec>, subtree: seq<Rec>)
    requires ParentLinksDescend(db)
    requires RootedTree(lim, db, obj, tree)
    requires forall x :: x in mark' <==> x in mark || x in tree
    requires forall x :: x in tree ==> x !in mark
    requires n in Neighbors(lim, db, tree[0]) && !IsBlocked(lim, n)
    requires forall x :: x in mark'' <==> x in mark' || x in subtree
    requires forall x :: x in subtree ==> x !in mark'
    requires subtree != [] ==> RootedTree(lim, db, n, subtree)
    ensures RootedTree(lim, db, obj, tree + subtree)
    ensures forall x :: x in mark'' <==> x in mark || x in tree + subtree
    ensures forall x :: x in tree + subtree ==> x !in mark
  {
    if subtree != [] {
      RootedAppend(lim, db, obj, tree, n, subtree);
    } else {
      assert tree + subtree == tree;
    }
  }

  lemma DescendFound(lim: Limits, db: Db, mark': set<Rec>, found: seq<Rec>, tree: seq<Rec>,
                     sub: seq<Rec>, mark'': set<Rec>, subtree: seq<Rec>)
    requires ParentLinksDescend(db)
    requires |tree| > 0 && mark' <= mark''
    requires forall x :: x in tree ==> x in mark'
    requires ClosedUnder(lim, db, tree[1..], found, mark') && ClosedUnder(lim, db, subtree, sub, mark'')
    requires Fits(lim, db, found, tree) && Fits(lim, db, sub, subtree)
    requires RepeatsBlocked(lim, found) && RepeatsBlocked(lim, sub)
    requires forall x :: x in subtree ==> x !in mark'
    ensures ClosedUnder(lim, db, (tree + subtree)[1..], found + sub, mark'')
    ensures Fits(lim, db, found + sub, tree + subtree)
    ensures RepeatsBlocked(lim, found + sub)
  {
    FitsAppend(lim, db, found, tree, sub, subtree);
    RepeatsAppend(lim, found, sub, mark');
    ClosedJoin(lim, db, tree[1..], found, mark', subtree, sub, mark'', found + sub, mark'');
    assert (tree + subtree)[1..] == tree[1..] + subtree;
  }

  lemma WalkEnd(lim: Limits, db: Db, obj: Rec, c: Rec, mark: set<Rec>, mark': set<Rec>,
                found: seq<Rec>, tree: seq<Rec>, done: seq<Rec>)
    requires ParentLinksDescend(db)
    requires Walking(lim, db, obj, c, mark, mark', found, tree, done)
    requires forall n :: n in Neighbors(lim, db, c) ==> n in done
    ensures Walked(lim, db, obj, mark, found, mark', tree)
  {
    assert tree == [c] + tree[1..];
    ClosedJoin(lim, db, [c], found, mark', tree[1..], found, mark', found, mark');
  }

  /** Marking one more stored record shrinks the unmarked part of the store. */
  lemma SmallerUnmarked(keys: set<Rec>, mark: set<Rec>, mark': set<Rec>, x: Rec)
    requires mark + {x} <= mark' <= keys && x !in mark
    ensures |keys - mark'| < |keys - mark|
  {
    assert keys - mark == (keys - mark') + (mark' - mark);
    assert x in mark' - mark;
  }

  /** Marking more records never grows the unmarked part of the store. */
  lemma NoLargerUnmarked(keys: set<Rec>, mark: set<Rec>, mark': set<Rec>)
    requires mark <= mark'
    ensures |keys - mark'| <= |keys - mark|
  {
    assert keys - mark == (keys - mark') + ((keys - mark) * mark');
  }

  /**
   * The depth-first walk from `obj` over the records not yet in `mark`, as
   * a function: climb; if the climbed record is marked, nothing is found;
   * otherwise it is marked and listed, and its neighbours are taken in
   * order (WalkAmong). The result is the list found and the marks after.
   */
  function WalkFrom(lim: Limits, db: Db, obj: Rec, mark: set<Rec>): (r: (seq<Rec>, set<Rec>))
    requires Closed(db) && ParentLinksDescend(db) && obj in db.rows && mark <= db.rows.Keys
    ensures mark <= r.1 <= db.rows.Keys
    decreases |db.rows.Keys - mark|, 0
  {
    var c := Climb(db, obj);
    if c in mark then ([], mark)
    else
      SmallerUnmarked(db.rows.Keys, mark, mark + {c}, c);
      forall n | n in Neighbors(lim, db, c)
        ensures n in db.rows
      {
        NeighborsStored(lim, db, c, n);
      }
      WalkAmong(lim, db, Neighbors(lim, db, c), [c], mark + {c})
  }

  /**
   * The rest of a walk, continuing the list `found` and the marks `mark`
   * with the neighbours `ns` in order: a blocking neighbour is listed and not
   * walked from, an unmarked one is walked from, a marked one is skipped.
   */
  function WalkAmong(lim: Limits, db: Db, ns: seq<Rec>, found: seq<Rec>, mark: set<Rec>): (r: (seq<Rec>, set<Rec>))
    requires Closed(db) && ParentLinksDescend(db) && mark <= db.rows.Keys
    requires forall n :: n in ns ==> n in db.rows
    ensures mark <= r.1 <= db.rows.Keys
    decreases |db.rows.Keys - mark|, 1, |ns|
  {
    if ns == [] then (found, mark)
    else if IsBlocked(lim, ns[0]) then WalkAmong(lim, db, ns[1..], found + [ns[0]], mark)
    else if ns[0] in mark then WalkAmong(lim, db, ns[1..], found, mark)
    else
      var sub := WalkFrom(lim, db, ns[0], mark);
      NoLargerUnmarked(db.rows.Keys, mark, sub.1);
      WalkAmong(lim, db, ns[1..], found + sub.0, sub.1)
  }

  /** A walk from `obj` is nothing when its climbed record is marked, and otherwise the walk among that record's neighbours. */
  lemma WalkFromUnfold(lim: Limits, db: Db, obj: Rec, mark: set<Rec>)
    requires Closed(db) && ParentLinksDescend(db) && obj in db.rows && mark <= db.rows.Keys
    ensures Climb(db, obj) in db.rows && forall n :: n in Neighbors(lim, db, Climb(db, obj)) ==> n in db.rows
    ensures Climb(db, obj) in mark ==> WalkFrom(lim, db, obj, mark) == ([], mark)
    ensures Climb(db, obj) !in mark ==>
              WalkFrom(lim, db, obj, mark) ==
              WalkAmong(lim, db, Neighbors(lim, db, Climb(db, obj)), [Climb(db, obj)], mark + {Climb(db, obj)})
  {
    forall n | n in Neighbors(lim, db, Climb(db, obj))
      ensures n in db.rows
    {
      NeighborsStored(lim, db, Climb(db, obj), n);
    }
  }

  /** Handling the first of the neighbours `ns` as WalkAmong does leaves the rest of them to walk. */
  lemma WalkAmongStep(lim: Limits, db: Db, ns: seq<Rec>, found: seq<Rec>, mark: set<Rec>,
                      found': seq<Rec>, mark': set<Rec>)
    requires Closed(db) && ParentLinksDescend(db) && mark <= db.rows.Keys
    requires ns != [] && forall n :: n in ns ==> n in db.rows
    requires IsBlocked(lim, ns[0]) ==> found' == found + [ns[0]] && mark' == mark
    requires !IsBlocked(lim, ns[0]) && ns[0] in mark ==> found' == found && mark' == mark
    requires !IsBlocked(lim, ns[0]) && ns[0] !in mark ==>
               found' == found + WalkFrom(lim, db, ns[0], mark).0 && mark' == WalkFrom(lim, db, ns[0], mark).1
    ensures mark' <= db.rows.Keys
    ensures WalkAmong(lim, db, ns, found, mark) == WalkAmong(lim, db, ns[1..], found', mark')
  {
  }

  /**
   * The walk's state after the neighbours `ns[..k]`, moved on by handling
   * `ns[k]` as WalkAmong does, is its state after `ns[..k + 1]`, with the
   * same walk still ahead.
   */
  lemma WalkNext(lim: Limits, db: Db, obj: Rec, c: Rec, mark: set<Rec>, ns: seq<Rec>, k: nat,
                 mark': set<Rec>, found: seq<Rec>, tree: seq<Rec>,
                 mark'': set<Rec>, found': seq<Rec>, tree': seq<Rec>, rest: (seq<Rec>, set<Rec>))
    requires Closed(db) && ParentLinksDescend(db) && k < |ns| && forall n :: n in ns ==> n in db.rows
    requires Walking(lim, db, obj, c, mark, mark', found, tree, ns[..k])
    requires WalkAmong(lim, db, ns[k..], found, mark') == rest
    requires Walking(lim, db, obj, c, mark, mark'', found', tree', ns[..k] + [ns[k]])
    requires IsBlocked(lim, ns[k]) ==> found' == found + [ns[k]] && mark'' == mark'
    requires !IsBlocked(lim, ns[k]) && ns[k] in mark' ==> found' == found && mark'' == mark'
    requires !IsBlocked(lim, ns[k]) && ns[k] !in mark' ==>
               found' == found + WalkFrom(lim, db, ns[k], mark').0 && mark'' == WalkFrom(lim, db, ns[k], mark').1
    ensures Walking(lim, db, obj, c, mark, mark'', found', tree', ns[..k + 1])
    ensures WalkAmong(lim, db, ns[k + 1..], found', mark'') == rest
  {
    assert ns[..k + 1] == ns[..k] + [ns[k]];
    assert ns[k..][0] == ns[k] && ns[k..][1..] == ns[k + 1..];
    WalkAmongStep(lim, db, ns[k..], found, mark', found', mark'');
  }

  /** Before any neighbour of `c` is handled, the walk ahead is the whole walk among them. */
  lemma WalkOver(lim: Limits, db: Db, obj: Rec, c: Rec, mark: set<Rec>, ns: seq<Rec>)
    requires Closed(db) && ParentLinksDescend(db)
    requires c == Climb(db, obj) && c !in mark && c in db.rows && mark <= db.rows.Keys && Climbed(db, mark)
    requires forall n :: n in ns ==> n in db.rows
    ensures Walking(lim, db, obj, c, mark, mark + {c}, [c], [c], ns[..0])
    ensures WalkAmong(lim, db, ns[0..], [c], mark + {c}) == WalkAmong(lim, db, ns, [c], mark + {c})
  {
    WalkStart(lim, db, obj, c, mark);
    assert ns[..0] == [] && ns[0..] == ns;
  }

  /** Once every neighbour of `c` is handled, the walk is done and equals the walk that was ahead. */
  lemma WalkOverEnd(lim: Limits, db: Db, obj: Rec, c: Rec, mark: set<Rec>, mark': set<Rec>,
                    found: seq<Rec>, tree: seq<Rec>, ns: seq<Rec>, rest: (seq<Rec>, set<Rec>))
    requires Closed(db) && ParentLinksDescend(db)
    requires ns == Neighbors(lim, db, c) && forall n :: n in ns ==> n in db.rows
    requires Walking(lim, db, obj, c, mark, mark', found, tree, ns[..|ns|])
    requires WalkAmong(lim, db, ns[|ns|..], found, mark') == rest
    ensures Walked(lim, db, obj, mark, found, mark', tree) && (found, mark') == rest
  {
    assert ns[..|ns|] == ns && ns[|ns|..] == [];
    WalkEnd(lim, db, obj, c, mark, mark', found, tree, ns);
  }

  /**
   * Taking the neighbours `ns` keeps the list so far as a prefix and lists a
   * blocking record at least once more for each time it occurs in `ns`:
   * a blocking record reached from several marked records, or several times
   * from one, is listed that many times.
   */
  lemma {:induction false} WalkAmongBlocked(lim: Limits, db: Db, ns: seq<Rec>, found: seq<Rec>, mark: set<Rec>, x: Rec)
    requires Closed(db) && ParentLinksDescend(db) && mark <= db.rows.Keys
    requires forall n :: n in ns ==> n in db.rows
    requires IsBlocked(lim, x)
    ensures var r := WalkAmong(lim, db, ns, found, mark).0;
            |found| <= |r| && r[..|found|] == found &&
            multiset(r)[x] >= multiset(found)[x] + multiset(ns)[x]
    decreases |ns|
  {
    if ns != [] {
      assert ns == [ns[0]] + ns[1..];
      var r := WalkAmong(lim, db, ns, found, mark).0;
      if IsBlocked(lim, ns[0]) {
        WalkAmongBlocked(lim, db, ns[1..], found + [ns[0]], mark, x);
        assert r[..|found|] == (found + [ns[0]])[..|found|];
      } else if ns[0] in mark {
        WalkAmongBlocked(lim, db, ns[1..], found, mark, x);
      } else {
        var sub := WalkFrom(lim, db, ns[0], mark);
        NoLargerUnmarked(db.rows.Keys, mark, sub.1);
        WalkAmongBlocked(lim, db, ns[1..], found + sub.0, sub.1, x);
        assert r[..|found|] == (found + sub.0)[..|found|];
      }
    }
  }
}
