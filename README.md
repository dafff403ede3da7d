# django-clone's `Cloner`, modelled in Dafny

`Cloner` (django_clone/clone.py) deep-copies a graph of database records.
Given a root record, it works in four steps:

1. **Discovery.** It finds every related record with a depth-first walk. Before marking a record, the walk climbs parent links (multi-table inheritance). It skips ignored fields. It keeps blocking records without walking past them.
2. **Classification.** Ignored records are mapped to a stand-in. Every other record is queued as an in-memory copy, passed through an optional editor.
3. **Creation.** The queue is drained in order, with retries. Each copy has its to-one relations re-pointed lazily and is checked for uniqueness. A copy that fails the check goes to the back of the queue, stamped with the number of records created so far. A copy that comes round again with no record created since gives up the whole clone.
4. **Rewiring.** A second pass re-points every forward to-one relation of every copy. A third pass fills every forward many-to-many relation with the images of the original's members, each added only if absent.

The model works on values, apart from the configuration:

- **The store** is a value `Db` (module `Records`), threaded through the operations:
  - a schema: per model, its field descriptors and a climb rank (a bound on how many parent-link climbs can still follow from a record of that model);
  - rows: per record, its attributes and its to-many collections;
  - the identity allocator.
- **The cloner** is a class whose fields are the five limit lists. Its methods keep the Python methods' loops. The long `clone` method is split into one method per pass and per loop body: Classify, CreateAll with CreateNext, RewireToOne with RepointOne, and RewireManyToMany with CopyManyToMany, CopyField and AddMissing. CreationArgs builds the creation arguments.
- **The uniqueness check** (`validate_unique`) is a parameter `valid`.
- **The editor** is an optional function on attribute maps.
- **"This field rejects null"** is the field's `nullable` flag.

What each step is meant to compute is given by functions and predicates:

- `Discovery`: neighbours, climbing, and the tree of marked records that characterises a walk's result;
- `Policy`: the limits, stand-ins and candidates;
- `Copying`: copy shapes, the retry queue, and the state of each pass;
- `Outcome`: what a completed or abandoned clone leaves behind.

The methods in `Cloning.Cloner` are proved against these.

Three quirks are modelled as the code behaves:

- A blocking neighbour is listed without being marked. It can therefore be listed, and later cloned, more than once.
- Blocking records are cloned. Only the walk stops at them.
- In lazy mode, a to-one field that accepts null is set to null even when the target already has a copy (django_clone/clone.py:243-247). A field that rejects null gets the mapped target: the copy if there is one, otherwise the original or its stand-in.

## Model

| member | source | states |
|---|---|---|
| Cloning.Cloner.constructor | django_clone/clone.py:34-42 | A new cloner has all five limits empty (the keyword form is the constructor followed by ApplyLimits). |
| Cloning.Cloner.ApplyLimits | django_clone/clone.py:44-62 | Each limit list is the old one extended by the new entries, and the stand-in map is the old one updated by the new one; limits only grow, so whatever was blocked, ignored or field-ignored stays so. |
| Cloning.Cloner.GetAllNeighborObjects | django_clone/clone.py:65-102 | The neighbours are, field by field in schema order, the resolved target of each non-null to-one relation and every member of each to-many relation, skipping fields ignored for the record's exact model. |
| Discovery.NeighborsMembership | django_clone/clone.py:86-101 | A record is a neighbour exactly when some relation field not ignored for the exact model reaches it: a to-one whose value is that record (null never is), or a to-many containing it. |
| Discovery.NeighborsStored | django_clone/clone.py:95-101 | In a store whose relations all lead to stored records, every neighbour of a stored record is stored. |
| Discovery.FirstParentLink | django_clone/clone.py:116-123 | The first parent-link field in field order that resolves gives the next record up: when the link at some place resolves and none before it does, its target is the result. When none resolves, no parent link of the model resolves. |
| Cloning.Cloner.FirstClimbLink | django_clone/clone.py:116-123 | The scan over the fields that stops at the first resolving parent link returns exactly that link's target, or nothing when none resolves. |
| Discovery.Climb | django_clone/clone.py:113-123 | Climbing ends on a record with no resolvable parent link, which is the record itself or one reached by following resolved parent links (each lowers the climb rank), and is stored when the start is. |
| Discovery.ClimbFixed | django_clone/clone.py:113-126 | Climbing from a climbed record stays put, so marks are always climbed records. |
| Cloning.Cloner.ClimbParentLinks | django_clone/clone.py:113-123 | The loop that re-scans the fields after each successful climb returns exactly Climb of the start. |
| Cloning.Cloner.IsBlockedNeighbor | django_clone/clone.py:130-136 | A neighbour is blocking exactly when its exact model is a blocking model or it is a blocking instance. |
| Cloning.Cloner.RelatedFrom | django_clone/clone.py:108-141 | The list and the marks are exactly those of the reference walk WalkFrom, which fixes order and repeats: the climbed record first, then for each of its neighbours in order the neighbour itself if blocking (unmarked, so listed again each time it is reached), nothing if already marked, or the walk from it. A walk from a record whose climbed record is already marked finds nothing and marks nothing; otherwise it marks a rooted tree of new records, starting at the climbed record, so that every neighbour of a marked record is either listed (blocking) or marked after climbing, the list holds the tree and the blocking neighbours only, and only blocking records repeat. |
| Cloning.Cloner.VisitNeighbors | django_clone/clone.py:126-141 | With the climbed record unmarked, it is marked and listed first, then its neighbours are handled in field order; the result is a finished walk (a rooted tree of new marks, closed under non-blocking neighbours, only blocking records repeated) and equals exactly the reference walk among those neighbours. |
| Cloning.Cloner.VisitNeighbor | django_clone/clone.py:129-140 | Handling the neighbour at position k moves the walk's state from the first k neighbours to the first k + 1, with the same reference walk still ahead. Branch by branch: a blocking neighbour is appended once and the marks are unchanged; a marked one leaves list and marks unchanged; an unmarked one appends exactly the list of the walk from it and takes that walk's marks. |
| Discovery.WalkFromUnfold | django_clone/clone.py:124-141 | The reference walk from a record is nothing when its climbed record is already marked, and otherwise the walk among the climbed record's neighbours starting from a list holding only it and the marks with it added. |
| Discovery.WalkOver | django_clone/clone.py:126-129 | Marking and listing the climbed record gives the walk's state before any neighbour, with the whole walk among the neighbours still ahead. |
| Discovery.WalkNext | django_clone/clone.py:129-140 | Handling one more neighbour as the reference walk does keeps the walk's state and leaves the same walk ahead. |
| Discovery.WalkOverEnd | django_clone/clone.py:129-141 | Once every neighbour is handled, the state is a finished walk and equals the walk that was ahead at the start. |
| Discovery.WalkAmongBlocked | django_clone/clone.py:129-140 | Walking a list of neighbours keeps the list so far as a prefix and lists each blocking record at least once more for every time it occurs among those neighbours, as it is never marked. |
| Cloning.Cloner.GetAllRelatedObject | django_clone/clone.py:104-143 | The result is exactly the reference walk WalkFrom from the root with nothing marked, so its depth-first order and its repeats are fixed. It is a discovery from the root: it starts with the climbed root, which has no resolvable parent link; it is closed under non-blocking neighbours; only blocking records repeat; and every listed record is stored. |
| Discovery.DiscoverySameSet | django_clone/clone.py:104-143 | Any two discoveries from the same root over the same store and limits start with the same record and list the same set of records. |
| Discovery.DiscoveryStored | django_clone/clone.py:124-140 | Every record a discovery from a stored record lists is stored. |
| Policy.CandidatesMembership | django_clone/clone.py:156-178 | A discovered record is queued exactly when it is neither a configured instance nor of an ignored model. |
| Policy.CandidatesCount | django_clone/clone.py:156-176 | A record that is not ignored is queued exactly as many times as it was discovered. |
| Cloning.Cloner.Classify | django_clone/clone.py:150-178 | The queue holds the non-ignored discovered records in discovery order, each with sentinel -1 and its edited draft; the map holds exactly the configured stand-ins plus every ignored discovered record, mapped to its configured stand-in first and to itself otherwise. |
| Outcome.ClassifyIgnored | django_clone/clone.py:161-178 | Classifying an ignored record adds exactly its stand-in to the map and queues nothing. |
| Outcome.ClassifyQueued | django_clone/clone.py:171-176 | Classifying a record that is not ignored queues its draft with sentinel -1 and leaves the map alone. |
| Cloning.Cloner.UpdateRelations | django_clone/clone.py:234-249 | Only the forward, non-parent-pointer to-one fields are set, and every other attribute is kept. Eagerly, or in lazy mode for a field that rejects null, the field gets the original's target mapped through old-to-new (null stays null). In lazy mode, a field that accepts null gets null. |
| Copying.RewireAllPointwise | django_clone/clone.py:235-249 | Re-pointing field by field adds exactly the re-pointed names, gives each its value and keeps every other entry. |
| Cloning.Cloner.CreationArgs | django_clone/clone.py:201-209 | The creation arguments are exactly the non-auto-created plain and forward to-one fields (no parent pointers, no to-many), each read from the copy or null when unset. |
| Cloning.Cloner.CreateNext | django_clone/clone.py:185-214 | One turn, branch by branch. A front copy stamped with the current count stops the loop and nothing changes. Otherwise the copy is re-pointed lazily (LazyCopy). If that fails the check, it goes to the back stamped with the current count and nothing else changes. If it passes, exactly one record is created from its persisted fields, appended to the created list and mapped both ways. The loop state is kept: copies stamped with the current count form a suffix of the queue, and each of them is lazily re-pointed through the current map and fails the check against the current store. A created copy passed the check against the store as it stood, and the store stays the one the passed creations built. On a stop the state is Stopped; otherwise the measure (queue length, copies not yet stamped) drops. |
| Copying.StuckStep | django_clone/clone.py:183-199 | When the front copy is stamped with the current count, every copy still queued is stamped with it, is lazily re-pointed through the current map, and fails the check against the current store; the loop is Stopped. |
| Copying.DeferStep | django_clone/clone.py:192-199 | A copy that fails the check is re-queued at the back holding its lazily re-pointed attributes, stamped with the current count; this keeps the loop state, the originals still owed, and strictly lowers the number of copies not stamped with the current count. |
| Copying.CreateStep | django_clone/clone.py:201-214 | Creating a copy adds one fresh row holding the persisted fields and empty collections, maps its original to it and it to its original, and moves that original from the queue to the copied list. |
| Copying.CreatePassed | django_clone/clone.py:191-213 | A copy that passed the check is created and the whole loop state is kept, including that every copy made passed the check against the store as it stood just before its creation. |
| Copying.CheckedCreate | django_clone/clone.py:195-211 | After creating a copy that passed the check, the store is the one the creations so far build from the originals' drafts, and the check record grows by the new copy. |
| Copying.CreateChecked | django_clone/clone.py:191-213 | From the loop state, creating a copy that passed the check keeps the check half of the state: the store is the one the creations build, and every copy passed the check. |
| Copying.SameSchemaArgs | django_clone/clone.py:200-211 | Two stores with the same schema build the same creation arguments from the same attributes. |
| Copying.LazyCopyTried | django_clone/clone.py:191-195 | However many times a queued copy was tried before, re-pointing it lazily through the current map gives the same attributes as re-pointing the original's draft, so what is checked and created depends only on the draft and the current map. |
| Copying.StoreAtCreate | django_clone/clone.py:200-211 | Creating the next copy from its draft extends the store built by the earlier creations by exactly that row. |
| Copying.PassedCreate | django_clone/clone.py:195-211 | A copy that passed the check against the current store extends the record of passed checks by one, keeping the earlier entries. |
| Cloning.Cloner.CreateAll | django_clone/clone.py:181-214 | The loop terminates. Either it empties the queue, having copied every queued original exactly once into fresh rows, or it stops and returns the copies still queued: each was re-pointed lazily through the final map and failed the check against the final store, with nothing created since. Original rows are never changed. Each created copy passed the check against the store as it stood just before its creation. Each created row holds the persisted fields, with the draft's values and the to-one fields re-pointed lazily through the map as it stood at its creation. The map sends each original to one of its own copies (the last one made when it was copied twice). |
| Cloning.Cloner.RepointOne | django_clone/clone.py:218-220 | Re-pointing and saving one more copy extends the to-one pass by it and changes no other row. |
| Cloning.Cloner.RewireToOne | django_clone/clone.py:216-220 | After the to-one pass, every copy has each forward to-one field set to its original's target mapped through the final old-to-new map; collections and all other rows are unchanged. |
| Copying.ToOneStep | django_clone/clone.py:218-220 | Saving re-pointed attributes for one more copy leaves the copies already handled as they were. |
| Cloning.Cloner.AddMissing | django_clone/clone.py:226-230 | Adding the image of each of the original's members unless already present leaves the collection equal to Copied(current, members); nothing else changes. |
| Cloning.Cloner.CopyField | django_clone/clone.py:224-230 | Only a forward many-to-many field changes its collection; every other field is skipped. |
| Cloning.Cloner.CopyManyToMany | django_clone/clone.py:224-231 | Every forward many-to-many collection of the copy receives the images of the original's members; attributes and other collections are unchanged. |
| Cloning.Cloner.RewireManyToMany | django_clone/clone.py:222-231 | The many-to-many pass refills every copy's forward many-to-many collections and changes no other row. |
| Copying.CopiedMembership | django_clone/clone.py:226-230 | After adding-if-absent, a record is in the collection exactly when it was already there or is the image of some original member. |
| Copying.CopiedDistinct | django_clone/clone.py:229-230 | Adding-if-absent never introduces a repeat. |
| Cloning.Cloner.Clone | django_clone/clone.py:145-232 | The discovery is a valid one. If the loop stopped, the result is the no-progress error carrying the copies still queued, and the clone is Abandoned: every waiting copy is a discovered, non-ignored record whose lazily re-pointed draft fails the check, and nothing is rewired. Otherwise the store grew by fresh copies only: each non-ignored record is copied as often as discovered and no ignored one is; every discovered record is mapped, ignored ones to their stand-in and others to a copy of themselves; every copy passed the check against the store as it stood just before its creation; every copy is finished. The result is the root's image, and the missing-root error arises only for a root with a parent link that is not discovered. |
| Outcome.CreatedMaps | django_clone/clone.py:156-214 | After a completed creation loop: copy counts equal discovery counts for non-ignored records and zero for ignored ones; the map's keys are the configured instances plus everything discovered; ignored records map to their stand-in and others to one of their own copies. |
| Outcome.FinishedOne | django_clone/clone.py:201-231 | A copy created from its draft and then passed through both rewiring passes holds the persisted fields, the draft's values off the re-pointed fields, each to-one re-pointed through the final map, and each forward many-to-many equal to the images of the original's members. |
| Outcome.ClonedAfter | django_clone/clone.py:183-231 | A completed creation loop followed by both passes yields a completed clone, in which every copy passed the check against the store as it stood just before its creation. |
| Outcome.RejectedEverywhere | django_clone/clone.py:183-199 | A completed clone under a check that rejects everything created nothing and left the rows alone, so every discovered record was ignored. |
| Outcome.AbandonedAfter | django_clone/clone.py:183-214 | A stopped creation loop yields an abandoned clone. The copies made and the copies still waiting together stand for each non-ignored discovered record exactly as often as it was discovered. Each copy made is stored as the loop made it, after passing the check against the store as it stood then. Each waiting copy agrees with its draft off the re-pointed fields, is lazily re-pointed through the final map, and fails the check against the store left behind. |
| Outcome.WaitingCounts | django_clone/clone.py:183-214 | When the loop stops, the copies made plus the copies waiting count each non-ignored discovered record as often as it was discovered. |
| Outcome.StoppedRows | django_clone/clone.py:201-214 | When the loop stops, every copy made holds the row the loop created, re-pointed lazily through the map as it stood then. |
| Outcome.CopiesInverse | django_clone/clone.py:212-232 | When no non-ignored record was discovered twice, the two maps of a completed clone agree both ways: every copy is the image of its original. |
| Outcome.RelationsFaithful | django_clone/clone.py:216-220 | In a completed clone, each re-pointed to-one field of a copy holds: the original's value when that is null or not a reference; a copy of the target when the target was discovered and not ignored; the target's stand-in when the target is ignored and was discovered or configured as an ignored instance; the target itself when it was neither discovered nor configured. |
| Copying.LazyCopyFacts | django_clone/clone.py:190-193 | A lazily re-pointed copy keeps every value of the pending copy off the re-pointed fields, and each re-pointed field has its lazy value. |
| Outcome.FinishedMembers | django_clone/clone.py:223-231 | Each forward many-to-many collection of a finished copy has no repeats and holds exactly the images of the original's members. |

## Left out

- Django's model reflection and persistence become the store value `Db`, its field descriptors and the primitives `Create`, `Save` and `AddMember`. These include `_meta.get_fields()`, the field flags, `objects.create`, `save()` and `validate_unique()`. Store failures other than uniqueness (an `IntegrityError` raised by `create`) are not modelled.
- `apps.get_model` is left out. Model labels are model names already, so its `LookupError` does not arise.
- Reverse accessor names (`related_name` or the `_set` suffix, django_clone/clone.py:73-80) are not derived. Each field descriptor carries its final accessor name.
- `copy()` and the editor are foreign code. The draft is the original's attribute map, passed through an optional function. The `callable(editor)` test is folded into the option.
- The bare `except` around the parent-link lookup is modelled as "the link resolves or it does not".
- The store as the cloner expects it is a precondition (`Wf`):
  - every relation leads to a stored record;
  - following a resolved parent link lowers the climb rank, which is what makes the climb terminate (a parent link is followed from the base row to the derived row, so this rank is not the depth in the class hierarchy);
  - field names are unique per model;
  - the allocator is ahead of every stored identity.
- The inverse of the configured stand-ins that seeds the new-to-old map (django_clone/clone.py:151) is left out. That map is read only for freshly created records, which are never stand-ins.
- The many-to-many pass writes the forward side only. The reverse accessors of the members, many-to-many through models and symmetric relations are not modelled.
- Creating the parent rows of a multi-table-inheritance copy is left out. So is the final `save()` of the many-to-many pass, which writes unchanged attributes.
- Clone: besides the result and the store, it returns the discovered list, the records created, their originals in creation order, and the final old-to-new map. These are local state of the Python method, made visible so that the contract can speak about them. On the stuck path the Python code raises `ValueError`. The model returns the error `NoProgress`, which also carries the copies still queued (the one that came round first at the front) so that the contract can name them. A missing root mapping (a `KeyError` at django_clone/clone.py:232) becomes the error `MissingRoot`.
- Outcome.CopiesInverse: the maps are shown to be inverse only when no non-ignored record was discovered twice. A blocking record reached twice is copied twice, and the map then keeps only the later copy.
- To-many collections, the reverse ones included, are stored data of each row. They are not derived from the rows that point to it, as Django's reverse accessors are. Discovery reads a reverse collection as stored. FinishedCopy's "every other collection is empty" speaks of these stored collections only: in Django, a copy's reverse accessor lists the copies that point to it.
- Reverse one-to-one fields (the auto-created side of a one-to-one, django_clone/clone.py:96) are stored values of each row too, read from its attributes. Django derives them from the forward pointer of the other row. This includes the parent links the climb follows (django_clone/clone.py:113-123): the climb reads a stored link rather than the derived row's pointer.
- The walk is recursive (django_clone/clone.py:140). Python's recursion limit, which raises `RecursionError` on a deep enough graph, is not modelled; the model's walk always finishes.
