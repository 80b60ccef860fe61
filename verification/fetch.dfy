/** The store's fetch path: `find`, `findMany`, `load` and `loadMany`. */
module Fetching {
  import opened Wrappers
  import opened Values
  import opened Records
  import opened Seqs
  import opened ModelArrays
  import opened Adapters
  import opened Stores

  /** A store after a fetch, the record reference handed back, and the adapter
      calls the fetch made. */
  datatype Fetched = Fetched(store: Store, ref: nat, calls: seq<Call>)

  /** The record `find` reserves for an id the store has not seen: loading,
      with no data yet. */
  function Reserved(t: ModelType, id: int): (r: Record)
    ensures r.state == Loading && r.modelType == t && r.id == Some(id) && !IsLoaded(r)
  {
    LoadingData(NewRecord(t).(id := Some(id))).value
  }

  /** `find(type, id)`: the cached record when the identity map has one, with
      no adapter call; otherwise a new loading record, entered into the
      identity map, and exactly one adapter `find` for that type and id. */
  function Find(s: Store, t: ModelType, id: int): (res: Fetched)
    requires IdentityValid(s)
    ensures IdentityValid(res.store)
    ensures (t, id) in res.store.identity && res.store.identity[(t, id)] == res.ref
    ensures res.ref < |res.store.records| && |s.records| <= |res.store.records|
    ensures forall k :: k in s.identity ==> k in res.store.identity && res.store.identity[k] == s.identity[k]
    ensures (t, id) in s.identity ==> res == Fetched(s, s.identity[(t, id)], [])
    ensures (t, id) !in s.identity ==>
      && res.calls == [FindCall(t, id)]
      && res.ref == |s.records|
      && res.store.records == s.records + [Reserved(t, id)]
      && res.store.identity == s.identity[(t, id) := res.ref]
  {
    if (t, id) in s.identity then Fetched(s, s.identity[(t, id)], [])
    else
      var r := |s.records|;
      WriteIdentityValid(s, r, Reserved(t, id));
      Fetched(Register(Write(s, r, Reserved(t, id)), (t, id), r), r, [FindCall(t, id)])
  }

  lemma FindValid(s: Store, t: ModelType, id: int)
    requires Valid(s)
    ensures Valid(Find(s, t, id).store)
    ensures forall b :: BucketOf(Find(s, t, id).store, b) == BucketOf(s, b)
    ensures Find(s, t, id).store.allArrays == s.allArrays
    ensures QueriesKept(s, Find(s, t, id).store)
  {
    if (t, id) !in s.identity {
      var r := |s.records|;
      WriteValid(s, r, Reserved(t, id));
      RegisterValid(Write(s, r, Reserved(t, id)), (t, id), r);
      WriteCleanBuckets(s, r, Reserved(t, id));
    }
  }

  /** Asking for the same record twice calls the adapter once, and both
      requests resolve to the same record. */
  lemma FindTwiceCallsOnce(s: Store, t: ModelType, id: int)
    requires IdentityValid(s) && (t, id) !in s.identity
    ensures var first := Find(s, t, id);
      var second := Find(first.store, t, id);
      && first.calls + second.calls == [FindCall(t, id)]
      && second.ref == first.ref
      && second.store == first.store
  {
  }

  /** Reserve a loading record for every id not yet in the identity map, in the
      order the ids are given; returns the store and the ids that were missing. */
  function Reserve(s: Store, t: ModelType, ids: seq<int>): (res: (Store, seq<int>))
    requires IdentityValid(s)
    ensures IdentityValid(res.0)
    ensures forall x :: x in ids ==> (t, x) in res.0.identity
    ensures forall k :: k in s.identity ==> k in res.0.identity && res.0.identity[k] == s.identity[k]
    ensures (forall x :: x in ids ==> (t, x) in s.identity) ==> res.1 == [] && res.0 == s
    decreases |ids|
  {
    if |ids| == 0 then (s, [])
    else
      var f := Find(s, t, ids[0]);
      var rest := Reserve(f.store, t, ids[1..]);
      assert forall x :: x in ids <==> x == ids[0] || x in ids[1..];
      assert (forall x :: x in ids ==> (t, x) in s.identity) ==> f.store == s && f.calls == [] by {
        if forall x :: x in ids ==> (t, x) in s.identity {
          assert ids[0] in ids;
        }
      }
      ((rest.0, (if f.calls == [] then [] else [ids[0]]) + rest.1))
  }

  /** One step of `Reserve`'s missing list: the head, when unknown, goes in
      front of what the rest reports. */
  lemma MissingCons(t: ModelType, ids: seq<int>, known: map<(ModelType, int), nat>,
                    known': map<(ModelType, int), nat>, rest: seq<int>)
    requires |ids| > 0 && NoDup(rest)
    requires forall x :: (t, x) in known' <==> (t, x) in known || x == ids[0]
    requires forall x :: x in rest <==> x in ids[1..] && (t, x) !in known'
    ensures var missing := (if (t, ids[0]) in known then [] else [ids[0]]) + rest;
      && (forall x :: x in missing <==> x in ids && (t, x) !in known)
      && NoDup(missing)
  {
    assert forall x :: x in ids <==> x == ids[0] || x in ids[1..];
    assert ids[0] !in rest;
  }

  /** The ids `Reserve` reports missing are exactly, and once each, the given
      ids the identity map lacked. */
  lemma {:induction false} ReserveMissing(s: Store, t: ModelType, ids: seq<int>)
    requires IdentityValid(s)
    ensures forall x :: x in Reserve(s, t, ids).1 <==> x in ids && (t, x) !in s.identity
    ensures NoDup(Reserve(s, t, ids).1)
    decreases |ids|
  {
    if |ids| > 0 {
      var f := Find(s, t, ids[0]);
      ReserveMissing(f.store, t, ids[1..]);
      MissingCons(t, ids, s.identity, f.store.identity, Reserve(f.store, t, ids[1..]).1);
    }
  }

  /** Fresh, distinct ids are all reported missing, in the order given. */
  lemma {:induction false} ReserveFresh(s: Store, t: ModelType, ids: seq<int>)
    requires IdentityValid(s)
    requires NoDup(ids) && forall x :: x in ids ==> (t, x) !in s.identity
    ensures Reserve(s, t, ids).1 == ids
    decreases |ids|
  {
    if |ids| > 0 {
      var f := Find(s, t, ids[0]);
      NoDupTail(ids);
      forall x | x in ids[1..] ensures (t, x) !in f.store.identity {
        assert x in ids;
      }
      ReserveFresh(f.store, t, ids[1..]);
      assert [ids[0]] + ids[1..] == ids;
    }
  }

  lemma {:induction false} ReserveValid(s: Store, t: ModelType, ids: seq<int>)
    requires Valid(s)
    ensures Valid(Reserve(s, t, ids).0)
    ensures forall b :: BucketOf(Reserve(s, t, ids).0, b) == BucketOf(s, b)
    ensures Reserve(s, t, ids).0.allArrays == s.allArrays
    ensures QueriesKept(s, Reserve(s, t, ids).0)
    decreases |ids|
  {
    if |ids| > 0 {
      FindValid(s, t, ids[0]);
      ReserveValid(Find(s, t, ids[0]).store, t, ids[1..]);
    }
  }

  /** The ids of type `t` the identity map already names. */
  function KnownIds(s: Store, t: ModelType): set<int> {
    set k | k in s.identity && k.0 == t :: k.1
  }

  /** The ids among `ids` not in `known`, each at its first occurrence, in the
      order given. */
  function FirstUnknown(known: set<int>, ids: seq<int>): (r: seq<int>)
    ensures forall x :: x in r <==> x in ids && x !in known
    decreases |ids|
  {
    if |ids| == 0 then []
    else
      assert forall x :: x in ids <==> x == ids[0] || x in ids[1..];
      if ids[0] in known then FirstUnknown(known, ids[1..])
      else [ids[0]] + FirstUnknown(known + {ids[0]}, ids[1..])
  }

  /** A `find` adds its id to the known ids, and calls the adapter exactly
      when the id was not known. */
  lemma FindKnownIds(s: Store, t: ModelType, id: int)
    requires IdentityValid(s)
    ensures KnownIds(Find(s, t, id).store, t) == KnownIds(s, t) + {id}
    ensures Find(s, t, id).calls == [] <==> id in KnownIds(s, t)
  {
    assert id in KnownIds(s, t) <==> (t, id) in s.identity;
  }

  /** `Reserve` reports the unknown ids at their first occurrence, in the
      order given. */
  lemma {:induction false} ReserveOrder(s: Store, t: ModelType, ids: seq<int>)
    requires IdentityValid(s)
    ensures Reserve(s, t, ids).1 == FirstUnknown(KnownIds(s, t), ids)
    decreases |ids|
  {
    if |ids| > 0 {
      var f := Find(s, t, ids[0]);
      FindKnownIds(s, t, ids[0]);
      ReserveOrder(f.store, t, ids[1..]);
      if ids[0] in KnownIds(s, t) {
        assert KnownIds(s, t) + {ids[0]} == KnownIds(s, t);
      }
    }
  }

  /** The records `findMany` hands back, the ids it asked the adapter for, and
      the adapter calls. */
  datatype FetchedMany = FetchedMany(store: Store, refs: seq<nat>, missing: seq<int>, calls: seq<Call>)

  /** `findMany(type, ids)`: reserves every id the identity map lacks; the
      missing ids go to the adapter's `findMany` in one call when it has one,
      or to `find` once each, in order; ids already known cause no call. */
  function FindMany(s: Store, a: Adapter, t: ModelType, ids: seq<int>): (res: FetchedMany)
    requires IdentityValid(s)
    ensures IdentityValid(res.store)
    ensures forall x :: x in res.missing <==> x in ids && (t, x) !in s.identity
    ensures NoDup(res.missing)
    ensures res.missing == FirstUnknown(KnownIds(s, t), ids)
    ensures (forall x :: x in ids ==> (t, x) in s.identity) ==> res.missing == [] && res.store == s
    ensures forall i :: 0 <= i < |ids| ==> (t, ids[i]) in res.store.identity
    ensures res.calls == FetchCalls(a, t, res.missing)
    ensures res.refs == RefsOf(res.store, t, ids)
    ensures forall k :: k in s.identity ==> k in res.store.identity && res.store.identity[k] == s.identity[k]
  {
    var (s', missing) := Reserve(s, t, ids);
    ReserveMissing(s, t, ids);
    ReserveOrder(s, t, ids);
    assert forall i :: 0 <= i < |ids| ==> ids[i] in ids;
    FetchedMany(s', RefsOf(s', t, ids), missing, FetchCalls(a, t, missing))
  }

  /** The adapter calls for the ids a fetch found missing: one `findMany` when
      the adapter has it, else one `find` per id in order; none for no ids. */
  function FetchCalls(a: Adapter, t: ModelType, missing: seq<int>): (calls: seq<Call>)
    ensures calls == [] <==> missing == []
    ensures a.findMany && missing != [] ==> calls == [FindManyCall(t, missing)]
    ensures !a.findMany ==>
      && |calls| == |missing|
      && forall i :: 0 <= i < |calls| ==> calls[i] == FindCall(t, missing[i])
  {
    if |missing| == 0 then []
    else if a.findMany then [FindManyCall(t, missing)]
    else seq(|missing|, i requires 0 <= i < |missing| => FindCall(t, missing[i]))
  }

  /** The records the identity map holds for the given ids, position by position. */
  function RefsOf(s: Store, t: ModelType, ids: seq<int>): (refs: seq<nat>)
    requires forall i :: 0 <= i < |ids| ==> (t, ids[i]) in s.identity
    ensures |refs| == |ids|
    ensures forall i :: 0 <= i < |ids| ==> refs[i] == s.identity[(t, ids[i])]
  {
    seq(|ids|, i requires 0 <= i < |ids| => s.identity[(t, ids[i])])
  }

  /** Repeating a `findMany` asks the adapter for nothing and yields the same
      records. */
  lemma FindManyTwiceCallsOnce(s: Store, a: Adapter, t: ModelType, ids: seq<int>)
    requires IdentityValid(s)
    ensures var first := FindMany(s, a, t, ids);
      var second := FindMany(first.store, a, t, ids);
      second.calls == [] && second.refs == first.refs
  {
  }

  // ---------------------------------------------------------------------------
  // Loading data

  /** A store after a load and the record the data went into. */
  datatype Landed = Landed(store: Store, ref: nat)

  /** `load(type, id, hash)`: data for a record the identity map does not know
      creates a loaded record under that id; data for a known record that is
      loading or clean replaces its data; data for a dirty record is a conflict. */
  function Load(s: Store, t: ModelType, id: int, h: Hash): (res: Result<Landed, Error>)
    requires IdentityValid(s)
    ensures res == Failure(Conflict) <==> (t, id) in s.identity && IsDirty(s.records[s.identity[(t, id)]])
    ensures (t, id) !in s.identity ==> res.Success?
    ensures (t, id) in s.identity ==>
      (res.Success? <==> s.records[s.identity[(t, id)]].state in {Loading, Loaded})
    ensures res.Success? ==> var s', r := res.value.store, res.value.ref;
      && IdentityValid(s')
      && r < |s'.records| && |s.records| <= |s'.records|
      && s'.identity == s.identity[(t, id) := r]
      && s'.records[r] == Record(t, Some(id), Loaded, h)
      && (forall x :: 0 <= x < |s'.records| && x != r ==> x < |s.records| && s'.records[x] == s.records[x])
    ensures res.Success? && (t, id) in s.identity ==>
      res.value.ref == s.identity[(t, id)] && |res.value.store.records| == |s.records|
    ensures res.Success? && (t, id) !in s.identity ==>
      res.value.ref == |s.records| && |res.value.store.records| == |s.records| + 1
  {
    if (t, id) in s.identity then
      var r := s.identity[(t, id)];
      var rec :- SetData(s.records[r], h);
      WriteIdentityValid(s, r, rec);
      Success(Landed(Write(s, r, rec), r))
    else
      var rec := SetData(Reserved(t, id), h).value;
      var r := |s.records|;
      WriteIdentityValid(s, r, rec);
      Success(Landed(Register(Write(s, r, rec), (t, id), r), r))
  }

  lemma LoadKnownValid(s: Store, t: ModelType, id: int, h: Hash)
    requires Valid(s) && (t, id) in s.identity
    requires Load(s, t, id, h).Success?
    ensures Valid(Load(s, t, id, h).value.store)
    ensures forall b :: BucketOf(Load(s, t, id, h).value.store, b) == BucketOf(s, b)
    ensures Load(s, t, id, h).value.store.allArrays == s.allArrays
    ensures QueriesKept(s, Load(s, t, id, h).value.store)
  {
    var r := s.identity[(t, id)];
    var rec := SetData(s.records[r], h).value;
    assert Load(s, t, id, h).value.store == Write(s, r, rec);
    WriteValid(s, r, rec);
    WriteCleanBuckets(s, r, rec);
  }

  lemma LoadNewValid(s: Store, t: ModelType, id: int, h: Hash)
    requires Valid(s) && (t, id) !in s.identity
    ensures Valid(Load(s, t, id, h).value.store)
    ensures forall b :: BucketOf(Load(s, t, id, h).value.store, b) == BucketOf(s, b)
    ensures Load(s, t, id, h).value.store.allArrays == s.allArrays
    ensures QueriesKept(s, Load(s, t, id, h).value.store)
  {
    var rec := SetData(Reserved(t, id), h).value;
    var r := |s.records|;
    assert Load(s, t, id, h).value.store == Register(Write(s, r, rec), (t, id), r);
    WriteValid(s, r, rec);
    RegisterValid(Write(s, r, rec), (t, id), r);
    WriteCleanBuckets(s, r, rec);
  }

  /** Loading keeps the store's invariant and leaves every bucket as it was:
      the loaded record is clean, and so was any record it replaced. */
  lemma LoadValid(s: Store, t: ModelType, id: int, h: Hash)
    requires Valid(s)
    ensures Load(s, t, id, h).Success? ==> var s' := Load(s, t, id, h).value.store;
      && Valid(s')
      && (forall b :: BucketOf(s', b) == BucketOf(s, b))
      && s'.allArrays == s.allArrays && QueriesKept(s, s')
  {
    if (t, id) in s.identity {
      if Load(s, t, id, h).Success? {
        LoadKnownValid(s, t, id, h);
      }
    } else {
      LoadNewValid(s, t, id, h);
    }
  }

  /** `load(type, hash)`: the record's id is the hash's own `id`. */
  function LoadHash(s: Store, t: ModelType, h: Hash): (res: Result<Landed, Error>)
    requires IdentityValid(s)
    ensures IdOf(h).None? ==> res == Failure(MissingId)
    ensures IdOf(h).Some? ==> res == Load(s, t, IdOf(h).value, h)
  {
    match IdOf(h)
    case None => Failure(MissingId)
    case Some(id) => Load(s, t, id, h)
  }

  /** A store after several loads and the records the data went into. */
  datatype LandedMany = LandedMany(store: Store, refs: seq<nat>)

  /** `loadMany(type, hashes)`: load each hash in turn, stopping at the first
      failure; each hash's record is the one its id names. */
  function LoadMany(s: Store, t: ModelType, hs: seq<Hash>): (res: Result<LandedMany, Error>)
    requires IdentityValid(s)
    ensures res.Success? ==> LoadedAll(s, t, hs, res.value)
    decreases |hs|
  {
    if |hs| == 0 then Success(LandedMany(s, []))
    else
      match LoadHash(s, t, hs[0])
      case Failure(e) => Failure(e)
      case Success(first) =>
        match LoadMany(first.store, t, hs[1..])
        case Failure(e) => Failure(e)
        case Success(rest) =>
          var res := LandedMany(rest.store, [first.ref] + rest.refs);
          LoadHashLoadedOne(s, t, hs[0]);
          LoadedAllCons(s, t, hs, first, rest);
          Success(res)
  }

  /** No hash after the `i`th carries the same id: its data is the data that
      stays. */
  ghost predicate NotReloaded(hs: seq<Hash>, i: nat) {
    forall j :: i < j < |hs| ==> IdOf(hs[j]) != IdOf(hs[i])
  }

  /** What a successful `loadMany` establishes: the store stays well formed,
      entries already in the identity map stay, every hash lands in the
      record returned in its position, and every record no hash names is a
      record the store already held, unchanged. */
  ghost predicate LoadedAll(s: Store, t: ModelType, hs: seq<Hash>, res: LandedMany) {
    && IdentityValid(res.store)
    && |res.refs| == |hs|
    && |s.records| <= |res.store.records|
    && (forall k :: k in s.identity ==> k in res.store.identity && res.store.identity[k] == s.identity[k])
    && (forall i :: 0 <= i < |hs| ==> LandedAt(res.store, t, hs, res.refs, i))
    && Untouched(s, res)
  }

  /** The `i`th hash carried an id that now names the `i`th record; that
      record is loaded and clean and, unless a later hash reloads it, holds
      exactly the hash. */
  ghost predicate LandedAt(s: Store, t: ModelType, hs: seq<Hash>, refs: seq<nat>, i: nat)
    requires i < |hs| && i < |refs|
  {
    && IdOf(hs[i]).Some?
    && (t, IdOf(hs[i]).value) in s.identity
    && s.identity[(t, IdOf(hs[i]).value)] == refs[i]
    && refs[i] < |s.records|
    && s.records[refs[i]].state == Loaded
    && (NotReloaded(hs, i) ==> s.records[refs[i]].data == hs[i])
  }

  /** Every record of `res` that is not one of its refs was already in `s`,
      unchanged. */
  ghost predicate Untouched(s: Store, res: LandedMany) {
    forall x :: 0 <= x < |res.store.records| && x !in res.refs ==>
      x < |s.records| && res.store.records[x] == s.records[x]
  }

  /** What one successful load of the hash `h` establishes: its id now names
      the record `first.ref`, an entry that existed already kept its record,
      the record is loaded and clean with exactly `h`, and no other record
      changed. */
  ghost predicate LoadedOne(s: Store, t: ModelType, h: Hash, first: Landed) {
    && IdOf(h).Some?
    && IdentityValid(first.store)
    && first.ref < |first.store.records| && |s.records| <= |first.store.records|
    && first.store.identity == s.identity[(t, IdOf(h).value) := first.ref]
    && ((t, IdOf(h).value) in s.identity ==> first.ref == s.identity[(t, IdOf(h).value)])
    && first.store.records[first.ref] == Record(t, IdOf(h), Loaded, h)
    && FramedBy(s, first.store, first.ref)
  }

  lemma LoadHashLoadedOne(s: Store, t: ModelType, h: Hash)
    requires IdentityValid(s) && LoadHash(s, t, h).Success?
    ensures LoadedOne(s, t, h, LoadHash(s, t, h).value)
  {
  }

  /** One step of `loadMany`: the first hash's load, then the rest. */
  lemma LoadedAllCons(s: Store, t: ModelType, hs: seq<Hash>, first: Landed, rest: LandedMany)
    requires |hs| > 0 && LoadedOne(s, t, hs[0], first)
    requires LoadedAll(first.store, t, hs[1..], rest)
    ensures LoadedAll(s, t, hs, LandedMany(rest.store, [first.ref] + rest.refs))
  {
    UntouchedCons(s, first.store, first.ref, rest);
    var refs := [first.ref] + rest.refs;
    var key := (t, IdOf(hs[0]).value);
    var s1, s2 := first.store, rest.store;
    forall k | k in s.identity
      ensures k in s2.identity && s2.identity[k] == s.identity[k]
    {
      assert k in s1.identity && s1.identity[k] == s.identity[k];
    }
    assert key in s1.identity && s1.identity[key] == first.ref;
    HeadLanded(s1, t, hs, first.ref, rest);
    TailLanded(t, hs, first.ref, rest);
    forall i | 0 <= i < |hs| ensures LandedAt(s2, t, hs, refs, i) {
    }
  }

  /** The records of the later hashes land where they did, one position on. */
  lemma TailLanded(t: ModelType, hs: seq<Hash>, r: nat, rest: LandedMany)
    requires |hs| > 0 && |rest.refs| == |hs| - 1
    requires forall i :: 0 <= i < |hs| - 1 ==> LandedAt(rest.store, t, hs[1..], rest.refs, i)
    ensures forall i :: 0 < i < |hs| ==> LandedAt(rest.store, t, hs, [r] + rest.refs, i)
  {
    var refs := [r] + rest.refs;
    forall i | 0 < i < |hs| ensures LandedAt(rest.store, t, hs, refs, i) {
      assert LandedAt(rest.store, t, hs[1..], rest.refs, i - 1);
      assert hs[i] == hs[1..][i - 1] && refs[i] == rest.refs[i - 1];
      assert forall j :: i < j < |hs| ==> hs[j] == hs[1..][j - 1];
      assert NotReloaded(hs, i) <==> NotReloaded(hs[1..], i - 1);
    }
  }

  /** Every record of `s1` other than `r` was already in `s`, unchanged. */
  ghost predicate FramedBy(s: Store, s1: Store, r: nat) {
    forall x :: 0 <= x < |s1.records| && x != r ==> x < |s.records| && s1.records[x] == s.records[x]
  }

  /** A record untouched by the first load and by the rest is untouched by
      both. */
  lemma UntouchedCons(s: Store, s1: Store, r: nat, rest: LandedMany)
    requires FramedBy(s, s1, r)
    requires Untouched(s1, rest)
    ensures Untouched(s, LandedMany(rest.store, [r] + rest.refs))
  {
    forall x | 0 <= x < |rest.store.records| && x !in [r] + rest.refs
      ensures x < |s.records| && rest.store.records[x] == s.records[x]
    {
      assert x !in rest.refs;
    }
  }

  /** The record the first hash landed in stays loaded through the rest of a
      `loadMany`, and keeps the first hash unless a later hash reloads it. */
  lemma HeadLanded(s1: Store, t: ModelType, hs: seq<Hash>, r: nat, rest: LandedMany)
    requires |hs| > 0 && IdOf(hs[0]).Some? && r < |s1.records|
    requires s1.records[r] == Record(t, IdOf(hs[0]), Loaded, hs[0])
    requires (t, IdOf(hs[0]).value) in s1.identity && s1.identity[(t, IdOf(hs[0]).value)] == r
    requires LoadedAll(s1, t, hs[1..], rest)
    ensures LandedAt(rest.store, t, hs, [r] + rest.refs, 0)
  {
    var key := (t, IdOf(hs[0]).value);
    assert key in rest.store.identity && rest.store.identity[key] == r;
    if r in rest.refs {
      var m :| 0 <= m < |rest.refs| && rest.refs[m] == r;
      assert LandedAt(rest.store, t, hs[1..], rest.refs, m);
      assert hs[1..][m] == hs[m + 1];
      assert rest.store.records[r].id == Some(IdOf(hs[m + 1]).value);
    }
  }

  /** Whether the hash `h` can be loaded: it carries an id, and a record that
      id already names is loading or clean. */
  ghost predicate CanLoad(s: Store, t: ModelType, h: Hash)
    requires IdentityValid(s)
  {
    && IdOf(h).Some?
    && ((t, IdOf(h).value) in s.identity ==>
          s.records[s.identity[(t, IdOf(h).value)]].state in {Loading, Loaded})
  }

  ghost predicate Loadable(s: Store, t: ModelType, hs: seq<Hash>)
    requires IdentityValid(s)
  {
    forall i :: 0 <= i < |hs| ==> CanLoad(s, t, hs[i])
  }

  /** After loading the first hash, the rest can be loaded exactly when all of
      them could be loaded before: the record the first hash landed in is
      clean, and no other record changed. */
  lemma LoadableStep(s: Store, t: ModelType, hs: seq<Hash>, first: Landed)
    requires IdentityValid(s) && |hs| > 0 && CanLoad(s, t, hs[0])
    requires LoadedOne(s, t, hs[0], first)
    ensures IdentityValid(first.store)
    ensures Loadable(first.store, t, hs[1..]) <==> Loadable(s, t, hs)
  {
    var s1, key := first.store, (t, IdOf(hs[0]).value);
    forall i | 0 < i < |hs|
      ensures CanLoad(s1, t, hs[i]) <==> CanLoad(s, t, hs[i])
    {
      if IdOf(hs[i]).Some? && IdOf(hs[i]) != IdOf(hs[0]) {
        var k := (t, IdOf(hs[i]).value);
        if k in s.identity {
          assert s1.identity[k] == s.identity[k];
          assert s.records[s.identity[k]].id != Some(key.1);
        }
      }
    }
    assert forall i :: 0 < i < |hs| ==> hs[1..][i - 1] == hs[i];
  }

  /** `loadMany` succeeds exactly when every hash carries an id and every
      record those ids already name is loading or clean. */
  lemma {:induction false} LoadManySucceeds(s: Store, t: ModelType, hs: seq<Hash>)
    requires IdentityValid(s)
    ensures LoadMany(s, t, hs).Success? <==> Loadable(s, t, hs)
    decreases |hs|
  {
    if |hs| > 0 {
      if IdOf(hs[0]).None? || Load(s, t, IdOf(hs[0]).value, hs[0]).Failure? {
        assert !CanLoad(s, t, hs[0]);
      } else {
        var first := Load(s, t, IdOf(hs[0]).value, hs[0]).value;
        assert CanLoad(s, t, hs[0]);
        LoadHashLoadedOne(s, t, hs[0]);
        LoadableStep(s, t, hs, first);
        LoadManySucceeds(first.store, t, hs[1..]);
      }
    }
  }

  lemma {:induction false} LoadManyValid(s: Store, t: ModelType, hs: seq<Hash>)
    requires Valid(s)
    ensures LoadMany(s, t, hs).Success? ==> var s' := LoadMany(s, t, hs).value.store;
      && Valid(s')
      && (forall b :: BucketOf(s', b) == BucketOf(s, b))
      && s'.allArrays == s.allArrays && QueriesKept(s, s')
    decreases |hs|
  {
    if |hs| > 0 && LoadMany(s, t, hs).Success? {
      var first := LoadHash(s, t, hs[0]).value;
      LoadValid(s, t, IdOf(hs[0]).value, hs[0]);
      LoadManyValid(first.store, t, hs[1..]);
    }
  }
}
