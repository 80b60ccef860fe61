/** The store: an identity map from (type, id) to record, three ordered dirty
    buckets, and the record arrays it keeps up to date. Records are referred to
    by their index in `records`, which stands for object identity. */
module Stores {
  import opened Wrappers
  import opened Values
  import opened Records
  import opened Seqs
  import opened ModelArrays
  import opened Adapters

  datatype Store = Store(
    records: seq<Record>,
    identity: map<(ModelType, int), nat>,
    created: seq<nat>,
    updated: seq<nat>,
    deleted: seq<nat>,
    arrays: seq<ModelArray>,
    allArrays: map<ModelType, nat>)

  function BucketOf(s: Store, b: Bucket): seq<nat> {
    match b
    case Created => s.created
    case Updated => s.updated
    case Deleted => s.deleted
  }

  // ---------------------------------------------------------------------------
  // Invariant

  /** Every identity-map entry names an existing record of that type and id. */
  ghost predicate IdentityValid(s: Store) {
    forall key :: key in s.identity ==>
      && s.identity[key] < |s.records|
      && s.records[s.identity[key]].modelType == key.0
      && s.records[s.identity[key]].id == Some(key.1)
  }

  /** A bucket lists, once each, exactly the records dirty with its kind. */
  ghost predicate BucketValid(recs: seq<Record>, q: seq<nat>, b: Bucket) {
    && NoDup(q)
    && (forall x :: x in q ==> x < |recs|)
    && (forall r :: 0 <= r < |recs| ==> (r in q <==> recs[r].state == Dirty(b)))
  }

  ghost predicate ArraysValid(recs: seq<Record>, arrays: seq<ModelArray>) {
    forall i :: 0 <= i < |arrays| ==> ArrayValid(arrays[i], recs)
  }

  /** The array `findAll` returned for a type is live over the whole type. */
  ghost predicate AllArraysValid(s: Store) {
    forall t :: t in s.allArrays ==>
      && s.allArrays[t] < |s.arrays|
      && s.arrays[s.allArrays[t]].Live?
      && s.arrays[s.allArrays[t]].modelType == t
      && s.arrays[s.allArrays[t]].filter == Everything
  }

  /** A record awaiting creation has no id yet: the server names it. */
  ghost predicate NewAnonymous(recs: seq<Record>) {
    forall r :: 0 <= r < |recs| && recs[r].state == Dirty(Created) ==> recs[r].id.None?
  }

  ghost predicate Valid(s: Store) {
    && IdentityValid(s)
    && NewAnonymous(s.records)
    && BucketValid(s.records, s.created, Created)
    && BucketValid(s.records, s.updated, Updated)
    && BucketValid(s.records, s.deleted, Deleted)
    && ArraysValid(s.records, s.arrays)
    && AllArraysValid(s)
  }

  /** Every bucket refers only to records the store holds. */
  ghost predicate BucketsInRange(s: Store) {
    forall b, x :: x in BucketOf(s, b) ==> x < |s.records|
  }

  lemma ValidBucketsInRange(s: Store)
    requires Valid(s)
    ensures BucketsInRange(s)
  {
    forall b, x | x in BucketOf(s, b) ensures x < |s.records| {
    }
  }

  /** The arrays a change to records leaves in place: as many as before, and
      every query array untouched. */
  ghost predicate QueriesKept(s: Store, s': Store) {
    && |s'.arrays| == |s.arrays|
    && forall i :: 0 <= i < |s.arrays| && s.arrays[i].Query? ==> s'.arrays[i] == s.arrays[i]
  }

  function EmptyStore(): (s: Store)
    ensures Valid(s)
    ensures s.records == [] && s.identity == map[]
    ensures forall b :: BucketOf(s, b) == []
  {
    Store([], map[], [], [], [], [], map[])
  }

  // ---------------------------------------------------------------------------
  // Primitives

  /** A bucket after the record `r` changed: it is listed (once, at the end if
      new) when it is now dirty with the bucket's kind, and dropped otherwise. */
  function Rebucket(q: seq<nat>, r: nat, now: bool): seq<nat> {
    if now then AddOnce(q, r) else Remove(q, r)
  }

  lemma RebucketValid(recs: seq<Record>, q: seq<nat>, b: Bucket, r: nat, rec: Record)
    requires BucketValid(recs, q, b) && r <= |recs|
    ensures BucketValid(Replace(recs, r, rec), Rebucket(q, r, rec.state == Dirty(b)), b)
  {
    var recs' := Replace(recs, r, rec);
    var q' := Rebucket(q, r, rec.state == Dirty(b));
    forall x | 0 <= x < |recs'|
      ensures x in q' <==> recs'[x].state == Dirty(b)
    {
    }
  }

  /** Every array refreshed for the record `r`. */
  function RefreshAll(arrays: seq<ModelArray>, r: nat, rec: Record): (arrays': seq<ModelArray>)
    ensures |arrays'| == |arrays|
    ensures forall i :: 0 <= i < |arrays| ==> arrays'[i] == Refresh(arrays[i], r, rec)
  {
    seq(|arrays|, i requires 0 <= i < |arrays| => Refresh(arrays[i], r, rec))
  }

  lemma ArraysRefreshValid(recs: seq<Record>, arrays: seq<ModelArray>, r: nat, rec: Record)
    requires ArraysValid(recs, arrays) && r <= |recs|
    ensures ArraysValid(Replace(recs, r, rec), RefreshAll(arrays, r, rec))
  {
    var arrays' := RefreshAll(arrays, r, rec);
    forall i | 0 <= i < |arrays'|
      ensures ArrayValid(arrays'[i], Replace(recs, r, rec))
    {
      RefreshValid(arrays[i], recs, r, rec);
    }
  }

  /** Store the record `rec` at reference `r` (a new reference when `r` is one
      past the end) and bring every bucket and live array up to date for it:
      the record is listed once in the bucket of its dirty kind and dropped from
      the others, and every live array re-evaluates it. */
  function Write(s: Store, r: nat, rec: Record): (s': Store)
    requires r <= |s.records|
    ensures s'.records == Replace(s.records, r, rec)
    ensures s'.identity == s.identity && s'.allArrays == s.allArrays
    ensures s'.created == Rebucket(s.created, r, rec.state == Dirty(Created))
    ensures s'.updated == Rebucket(s.updated, r, rec.state == Dirty(Updated))
    ensures s'.deleted == Rebucket(s.deleted, r, rec.state == Dirty(Deleted))
    ensures s'.arrays == RefreshAll(s.arrays, r, rec)
  {
    Store(Replace(s.records, r, rec), s.identity,
      Rebucket(s.created, r, rec.state == Dirty(Created)),
      Rebucket(s.updated, r, rec.state == Dirty(Updated)),
      Rebucket(s.deleted, r, rec.state == Dirty(Deleted)),
      RefreshAll(s.arrays, r, rec), s.allArrays)
  }

  /** Writing a record never removes another record from a bucket or adds one. */
  lemma WriteBuckets(s: Store, r: nat, rec: Record, b: Bucket)
    requires r <= |s.records|
    ensures BucketOf(Write(s, r, rec), b) == Rebucket(BucketOf(s, b), r, rec.state == Dirty(b))
  {
  }

  lemma WriteIdentityValid(s: Store, r: nat, rec: Record)
    requires IdentityValid(s) && r <= |s.records|
    requires r < |s.records| ==> rec.modelType == s.records[r].modelType
    requires r < |s.records| && s.records[r].id.Some? ==> rec.id == s.records[r].id
    ensures IdentityValid(Write(s, r, rec))
  {
    var s' := Write(s, r, rec);
    forall key | key in s'.identity
      ensures s'.identity[key] < |s'.records|
      ensures s'.records[s'.identity[key]].modelType == key.0
      ensures s'.records[s'.identity[key]].id == Some(key.1)
    {
      assert s.identity[key] < |s.records|;
    }
  }

  lemma WriteAllArraysValid(s: Store, r: nat, rec: Record)
    requires AllArraysValid(s) && r <= |s.records|
    ensures AllArraysValid(Write(s, r, rec))
  {
    var s' := Write(s, r, rec);
    forall t | t in s'.allArrays
      ensures s'.allArrays[t] < |s'.arrays|
      ensures s'.arrays[s'.allArrays[t]].Live?
      ensures s'.arrays[s'.allArrays[t]].modelType == t
      ensures s'.arrays[s'.allArrays[t]].filter == Everything
    {
      assert s.allArrays[t] < |s.arrays|;
    }
  }

  /** Writing a record keeps the store's invariant, provided an existing record
      keeps its type and, once it has one, its id. */
  lemma WriteValid(s: Store, r: nat, rec: Record)
    requires Valid(s) && r <= |s.records|
    requires r < |s.records| ==> rec.modelType == s.records[r].modelType
    requires r < |s.records| && s.records[r].id.Some? ==> rec.id == s.records[r].id
    requires rec.state == Dirty(Created) ==> rec.id.None?
    ensures Valid(Write(s, r, rec))
  {
    var recs' := Replace(s.records, r, rec);
    forall x | 0 <= x < |recs'| && recs'[x].state == Dirty(Created)
      ensures recs'[x].id.None?
    {
    }
    RebucketValid(s.records, s.created, Created, r, rec);
    RebucketValid(s.records, s.updated, Updated, r, rec);
    RebucketValid(s.records, s.deleted, Deleted, r, rec);
    ArraysRefreshValid(s.records, s.arrays, r, rec);
    WriteIdentityValid(s, r, rec);
    WriteAllArraysValid(s, r, rec);
  }

  /** Writing a clean record where no dirty one was leaves every bucket as it was. */
  lemma WriteCleanBuckets(s: Store, r: nat, rec: Record)
    requires Valid(s) && r <= |s.records| && !IsDirty(rec)
    requires r < |s.records| ==> !IsDirty(s.records[r])
    ensures forall b :: BucketOf(Write(s, r, rec), b) == BucketOf(s, b)
  {
    forall b ensures BucketOf(Write(s, r, rec), b) == BucketOf(s, b) {
      WriteBuckets(s, r, rec, b);
      assert r !in BucketOf(s, b);
    }
  }

  /** A bucket after a record changed: appended when it newly has the bucket's
      kind, dropped when it no longer has it, otherwise unchanged. */
  function Moved(q: seq<nat>, r: nat, was: bool, now: bool): seq<nat> {
    if now && !was then q + [r]
    else if was && !now then Remove(q, r)
    else q
  }

  /** How a write moves a record between buckets: it is appended to the bucket
      of the kind it became dirty with, dropped from the bucket it left, and
      every bucket it neither enters nor leaves is unchanged. */
  lemma WriteMovesBucket(s: Store, r: nat, rec: Record, b: Bucket)
    requires Valid(s) && r <= |s.records|
    ensures BucketOf(Write(s, r, rec), b) ==
      Moved(BucketOf(s, b), r, r < |s.records| && s.records[r].state == Dirty(b), rec.state == Dirty(b))
  {
    WriteBuckets(s, r, rec, b);
    assert r in BucketOf(s, b) <==> r < |s.records| && s.records[r].state == Dirty(b);
  }

  /** Enter a record into the identity map under its type and id. */
  function Register(s: Store, key: (ModelType, int), r: nat): (s': Store)
    requires IdentityValid(s) && r < |s.records|
    requires s.records[r].modelType == key.0 && s.records[r].id == Some(key.1)
    ensures IdentityValid(s')
    ensures s' == s.(identity := s.identity[key := r])
  {
    s.(identity := s.identity[key := r])
  }

  lemma RegisterValid(s: Store, key: (ModelType, int), r: nat)
    requires Valid(s) && r < |s.records|
    requires s.records[r].modelType == key.0 && s.records[r].id == Some(key.1)
    ensures Valid(Register(s, key, r))
  {
  }
}
