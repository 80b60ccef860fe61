/** The store's write path: creating, setting and deleting records, and the
    acknowledgments the adapter sends back once a change is saved. */
module Changes {
  import opened Wrappers
  import opened Values
  import opened Records
  import opened Seqs
  import opened ModelArrays
  import opened Stores
  import opened Fetching

  /** `create(type, hash)`: a new record, dirty in `created`, appended to that
      bucket; it stays out of the identity map until the server names it. */
  function Create(s: Store, t: ModelType, h: Hash): (res: Landed)
    requires Valid(s)
    ensures Valid(res.store)
    ensures res.ref == |s.records|
    ensures res.store.records == s.records + [CreatedRecord(t, h)]
    ensures res.store.created == s.created + [res.ref]
    ensures res.store.updated == s.updated && res.store.deleted == s.deleted
    ensures res.store.identity == s.identity
    ensures res.store.arrays == RefreshAll(s.arrays, res.ref, CreatedRecord(t, h))
    ensures res.store.allArrays == s.allArrays
  {
    var r := |s.records|;
    WriteValid(s, r, CreatedRecord(t, h));
    WriteMovesBucket(s, r, CreatedRecord(t, h), Created);
    WriteMovesBucket(s, r, CreatedRecord(t, h), Updated);
    WriteMovesBucket(s, r, CreatedRecord(t, h), Deleted);
    Landed(Write(s, r, CreatedRecord(t, h)), r)
  }

  /** `set(record, name, value)` on a record held by the store. A clean record
      joins the end of `updated`; a record already dirty stays where it is, so
      repeated writes never list it twice and a created record never reaches
      `updated`. Every live array re-evaluates the record. */
  function SetAttr(s: Store, r: nat, name: string, v: JsValue): (res: Result<Store, Error>)
    requires Valid(s) && r < |s.records|
    ensures res.Success? <==> IsLoaded(s.records[r])
    ensures res.Success? ==> var s' := res.value;
      && Valid(s')
      && |s'.records| == |s.records|
      && s'.records[r] == Set(s.records[r], name, v).value
      && (forall x :: 0 <= x < |s.records| && x != r ==> s'.records[x] == s.records[x])
      && s'.identity == s.identity
      && s'.updated == (if s.records[r].state == Loaded then s.updated + [r] else s.updated)
      && s'.created == s.created && s'.deleted == s.deleted
      && s'.arrays == RefreshAll(s.arrays, r, s'.records[r])
      && s'.allArrays == s.allArrays
  {
    var rec :- Set(s.records[r], name, v);
    WriteValid(s, r, rec);
    WriteMovesBucket(s, r, rec, Created);
    WriteMovesBucket(s, r, rec, Updated);
    WriteMovesBucket(s, r, rec, Deleted);
    Success(Write(s, r, rec))
  }

  /** `deleteModel()` on a record held by the store: it moves to the end of
      `deleted` and leaves `updated`. */
  function DeleteRecord(s: Store, r: nat): (res: Result<Store, Error>)
    requires Valid(s) && r < |s.records|
    ensures res.Success? <==> DeleteModel(s.records[r]).Success?
    ensures s.records[r].state == Dirty(Created) ==> res == Failure(Unmodelled)
    ensures res.Success? ==> var s' := res.value;
      && Valid(s')
      && |s'.records| == |s.records|
      && s'.records[r] == s.records[r].(state := Dirty(Deleted))
      && IsDeleted(s'.records[r]) && IsDirty(s'.records[r])
      && (forall x :: 0 <= x < |s.records| && x != r ==> s'.records[x] == s.records[x])
      && s'.identity == s.identity
      && s'.deleted == AddOnce(s.deleted, r)
      && s'.updated == Remove(s.updated, r)
      && s'.created == s.created
      && s'.arrays == RefreshAll(s.arrays, r, s'.records[r])
      && s'.allArrays == s.allArrays
  {
    var rec :- DeleteModel(s.records[r]);
    WriteValid(s, r, rec);
    WriteMovesBucket(s, r, rec, Created);
    WriteMovesBucket(s, r, rec, Updated);
    WriteMovesBucket(s, r, rec, Deleted);
    Success(Write(s, r, rec))
  }

  // ---------------------------------------------------------------------------
  // Acknowledgments

  /** `didUpdateModel(record)`: the update is saved; the record is clean and
      leaves `updated`. */
  function DidUpdateModel(s: Store, r: nat): (res: Result<Store, Error>)
    requires Valid(s) && r < |s.records|
    ensures res.Success? <==> s.records[r].state == Dirty(Updated)
    ensures res.Success? ==> var s' := res.value;
      && Valid(s')
      && |s'.records| == |s.records|
      && s'.records[r] == s.records[r].(state := Loaded)
      && (forall x :: 0 <= x < |s.records| && x != r ==> s'.records[x] == s.records[x])
      && s'.identity == s.identity
      && s'.updated == Remove(s.updated, r)
      && s'.created == s.created && s'.deleted == s.deleted
      && s'.arrays == RefreshAll(s.arrays, r, s'.records[r])
      && s'.allArrays == s.allArrays
  {
    var rec :- DidUpdate(s.records[r]);
    WriteValid(s, r, rec);
    WriteMovesBucket(s, r, rec, Created);
    WriteMovesBucket(s, r, rec, Updated);
    WriteMovesBucket(s, r, rec, Deleted);
    Success(Write(s, r, rec))
  }

  /** `didDeleteModel(record)`: the deletion is saved; the record is deleted
      and clean, leaves `deleted`, and leaves the identity map. */
  function DidDeleteModel(s: Store, r: nat): (res: Result<Store, Error>)
    requires Valid(s) && r < |s.records|
    ensures res.Success? <==> s.records[r].state == Dirty(Deleted)
    ensures res.Success? ==> var s' := res.value;
      && Valid(s')
      && |s'.records| == |s.records|
      && s'.records[r] == s.records[r].(state := Destroyed)
      && IsDeleted(s'.records[r]) && !IsDirty(s'.records[r])
      && (forall x :: 0 <= x < |s.records| && x != r ==> s'.records[x] == s.records[x])
      && (forall k :: k in s'.identity <==> k in s.identity && s.identity[k] != r)
      && (forall k :: k in s'.identity ==> s'.identity[k] == s.identity[k])
      && s'.deleted == Remove(s.deleted, r)
      && s'.created == s.created && s'.updated == s.updated
      && s'.arrays == RefreshAll(s.arrays, r, s'.records[r])
      && s'.allArrays == s.allArrays
  {
    var rec :- DidDelete(s.records[r]);
    WriteValid(s, r, rec);
    WriteMovesBucket(s, r, rec, Created);
    WriteMovesBucket(s, r, rec, Updated);
    WriteMovesBucket(s, r, rec, Deleted);
    var s1 := Write(s, r, rec);
    Success(Forget(s1, r))
  }

  /** Drop every identity-map entry naming `r`. */
  function Forget(s: Store, r: nat): (s': Store)
    requires Valid(s)
    ensures Valid(s')
    ensures forall k :: k in s'.identity <==> k in s.identity && s.identity[k] != r
    ensures forall k :: k in s'.identity ==> s'.identity[k] == s.identity[k]
    ensures s' == s.(identity := s'.identity)
  {
    s.(identity := map k | k in s.identity && s.identity[k] != r :: s.identity[k])
  }

  /** `didCreateModel(record, hash)`: the creation is saved under the id the
      server's hash carries; the record takes the server's data, is clean,
      leaves `created`, and from now on is what `find` returns for that id. */
  function DidCreateModel(s: Store, r: nat, h: Hash): (res: Result<Store, Error>)
    requires Valid(s) && r < |s.records|
    ensures res.Success? <==>
      && s.records[r].state == Dirty(Created)
      && IdOf(h).Some?
      && (s.records[r].modelType, IdOf(h).value) !in s.identity
    ensures s.records[r].state == Dirty(Created) && IdOf(h).None? ==> res == Failure(MissingId)
    ensures res.Success? ==> var s', key := res.value, (s.records[r].modelType, IdOf(h).value);
      && Valid(s')
      && |s'.records| == |s.records|
      && s'.records[r] == Record(key.0, Some(key.1), Loaded, h)
      && (forall x :: 0 <= x < |s.records| && x != r ==> s'.records[x] == s.records[x])
      && s'.identity == s.identity[key := r]
      && s'.created == Remove(s.created, r)
      && s'.updated == s.updated && s'.deleted == s.deleted
      && s'.arrays == RefreshAll(s.arrays, r, s'.records[r])
      && s'.allArrays == s.allArrays
  {
    var rec :- DidCreate(s.records[r], h);
    var key := (rec.modelType, rec.id.value);
    if key in s.identity then Failure(IdInUse)
    else
      WriteValid(s, r, rec);
      WriteMovesBucket(s, r, rec, Created);
      WriteMovesBucket(s, r, rec, Updated);
      WriteMovesBucket(s, r, rec, Deleted);
      var s1 := Write(s, r, rec);
      RegisterValid(s1, key, r);
      Success(Register(s1, key, r))
  }
}
