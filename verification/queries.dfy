/** The store's record arrays: query results the adapter fills, the one live
    array per type `findAll` hands out, and filtered live arrays. */
module Queries {
  import opened Wrappers
  import opened Records
  import opened ModelArrays
  import opened Adapters
  import opened Stores
  import opened Fetching

  /** A store with a new or existing array, the array's handle, and the adapter
      calls made. */
  datatype Listed = Listed(store: Store, handle: nat, calls: seq<Call>)

  /** Add an array to the store. */
  function AddArray(s: Store, a: ModelArray): (res: (Store, nat))
    requires Valid(s) && ArrayValid(a, s.records)
    ensures Valid(res.0)
    ensures res.1 == |s.arrays| && res.0.arrays == s.arrays + [a]
    ensures res.0 == s.(arrays := res.0.arrays)
  {
    var s' := s.(arrays := s.arrays + [a]);
    assert ArraysValid(s'.records, s'.arrays) by {
      forall i | 0 <= i < |s'.arrays| ensures ArrayValid(s'.arrays[i], s'.records) {
        if i < |s.arrays| {
          assert s'.arrays[i] == s.arrays[i];
        }
      }
    }
    (s', |s.arrays|)
  }

  /** `find(type, query)`: a new, empty query array and exactly one adapter
      `findQuery` call that is handed the array to fill. */
  function FindQuery(s: Store, t: ModelType, query: Hash): (res: Listed)
    requires Valid(s)
    ensures Valid(res.store)
    ensures res.handle == |s.arrays| && |res.store.arrays| == |s.arrays| + 1
    ensures res.store.arrays[res.handle] == Query(t, query, [])
    ensures res.calls == [FindQueryCall(t, query, res.handle)]
    ensures res.store.records == s.records && res.store.identity == s.identity
    ensures forall b :: BucketOf(res.store, b) == BucketOf(s, b)
    ensures res.store.arrays[..|s.arrays|] == s.arrays
  {
    var (s', h) := AddArray(s, Query(t, query, []));
    assert s'.arrays[..|s.arrays|] == s.arrays;
    Listed(s', h, [FindQueryCall(t, query, h)])
  }

  /** Append records to the query array at handle `h`: the array keeps its
      earlier content and gains `refs` after it, and the change reported starts
      at the old end, removes nothing and adds one per reference. */
  function AppendToQuery(s: Store, h: nat, refs: seq<nat>): (res: (Store, Change))
    requires Valid(s) && h < |s.arrays| && s.arrays[h].Query?
    requires forall x :: x in refs ==> x < |s.records|
    ensures Valid(res.0)
    ensures res.0 == s.(arrays := res.0.arrays)
    ensures |res.0.arrays| == |s.arrays| && res.0.arrays[h].Query?
    ensures res.0.arrays[h].content == s.arrays[h].content + refs
    ensures res.1 == Change(|s.arrays[h].content|, 0, |refs|)
  {
    var (a', change) := AppendLoaded(s.arrays[h], refs);
    assert a'.content == s.arrays[h].content + refs;
    var s' := s.(arrays := s.arrays[h := a']);
    assert ArraysValid(s'.records, s'.arrays) by {
      forall i | 0 <= i < |s'.arrays| ensures ArrayValid(s'.arrays[i], s'.records) {
        if i != h {
          assert s'.arrays[i] == s.arrays[i];
        }
      }
    }
    (s', change)
  }

  /** The records a successful `loadMany` returns exist. */
  lemma LoadedRefsExist(s: Store, t: ModelType, hs: seq<Hash>, res: LandedMany)
    requires LoadedAll(s, t, hs, res)
    ensures forall x :: x in res.refs ==> x < |res.store.records|
  {
    forall x | x in res.refs ensures x < |res.store.records| {
      var i :| 0 <= i < |res.refs| && res.refs[i] == x;
      assert LandedAt(res.store, t, hs, res.refs, i);
    }
  }

  /** What filling the query array at handle `h` with `hs` establishes: the
      store stays well formed, the array keeps its earlier content and gains,
      after it, the records the hashes' ids name, in order, and the change
      reported starts at the old end, removes nothing and adds one per hash. */
  ghost predicate QueryFilled(s: Store, h: nat, hs: seq<Hash>, s': Store, change: Change)
    requires h < |s.arrays| && s.arrays[h].Query?
  {
    var prior := s.arrays[h].content;
    && Valid(s')
    && change == Change(|prior|, 0, |hs|)
    && |s'.arrays| == |s.arrays| && s'.arrays[h].Query?
    && |s'.arrays[h].content| == |prior| + |hs|
    && s'.arrays[h].content[..|prior|] == prior
    && LoadedAll(s, s.arrays[h].modelType, hs, LandedMany(s', s'.arrays[h].content[|prior|..]))
  }

  /** `modelArray.load(hashes)` on a query array: load every hash into the
      store, then append the records to the array. */
  function LoadQuery(s: Store, h: nat, hs: seq<Hash>): (res: Result<(Store, Change), Error>)
    requires Valid(s) && h < |s.arrays| && s.arrays[h].Query?
    ensures res.Success? <==> LoadMany(s, s.arrays[h].modelType, hs).Success?
    ensures res.Success? ==> QueryFilled(s, h, hs, res.value.0, res.value.1)
  {
    var loaded :- LoadMany(s, s.arrays[h].modelType, hs);
    AppendFills(s, h, hs, loaded);
    Success(AppendToQuery(loaded.store, h, loaded.refs))
  }

  /** Appending the records a successful `loadMany` returns fills the query
      array. */
  lemma AppendFills(s: Store, h: nat, hs: seq<Hash>, loaded: LandedMany)
    requires Valid(s) && h < |s.arrays| && s.arrays[h].Query?
    requires LoadMany(s, s.arrays[h].modelType, hs) == Success(loaded)
    ensures Valid(loaded.store) && h < |loaded.store.arrays| && loaded.store.arrays[h].Query?
    ensures forall x :: x in loaded.refs ==> x < |loaded.store.records|
    ensures var res := AppendToQuery(loaded.store, h, loaded.refs);
      QueryFilled(s, h, hs, res.0, res.1)
  {
    var t := s.arrays[h].modelType;
    LoadManyValid(s, t, hs);
    LoadedRefsExist(s, t, hs, loaded);
    var res := AppendToQuery(loaded.store, h, loaded.refs);
    var prior := s.arrays[h].content;
    assert loaded.store.arrays[h] == s.arrays[h];
    assert res.0.arrays[h].content[|prior|..] == loaded.refs;
    assert res.0.arrays[h].content[..|prior|] == prior;
    LoadedAllArrays(s, t, hs, loaded, res.0);
  }

  /** The `i`th record appended to the query array at `h` (which held
      `s.arrays[h].content` before) is a loaded record of the array's type
      and, unless a later hash reloads it, holds the `i`th hash. */
  ghost predicate AppendedLanded(s: Store, h: nat, hs: seq<Hash>, s': Store, i: nat)
    requires h < |s.arrays| && s.arrays[h].Query?
  {
    var k := |s.arrays[h].content| + i;
    && i < |hs| && h < |s'.arrays| && k < |s'.arrays[h].content|
    && s'.arrays[h].content[k] < |s'.records|
    && var rec := s'.records[s'.arrays[h].content[k]];
      && rec.state == Loaded
      && rec.modelType == s.arrays[h].modelType
      && (NotReloaded(hs, i) ==> rec.data == hs[i])
  }

  /** The `i`th record a successful `modelArray.load` appends is loaded and,
      unless a later hash reloads it, holds the `i`th hash. */
  lemma LoadQueryLands(s: Store, h: nat, hs: seq<Hash>, i: nat)
    requires Valid(s) && h < |s.arrays| && s.arrays[h].Query?
    requires LoadQuery(s, h, hs).Success? && i < |hs|
    ensures AppendedLanded(s, h, hs, LoadQuery(s, h, hs).value.0, i)
  {
    var s' := LoadQuery(s, h, hs).value.0;
    var prior := |s.arrays[h].content|;
    var added := s'.arrays[h].content[prior..];
    var t := s.arrays[h].modelType;
    assert LandedAt(s', t, hs, added, i);
    assert added[i] == s'.arrays[h].content[prior + i];
    assert s'.identity[(t, IdOf(hs[i]).value)] == added[i];
  }

  /** `LoadedAll` speaks of records and the identity map only. */
  lemma LoadedAllArrays(s: Store, t: ModelType, hs: seq<Hash>, loaded: LandedMany, s': Store)
    requires LoadedAll(s, t, hs, loaded)
    requires s' == loaded.store.(arrays := s'.arrays)
    ensures LoadedAll(s, t, hs, LandedMany(s', loaded.refs))
  {
    forall i | 0 <= i < |hs| ensures LandedAt(s', t, hs, loaded.refs, i) {
      assert LandedAt(loaded.store, t, hs, loaded.refs, i);
    }
  }

  /** `findAll(type)`: the type's live array over every loaded record of the
      type. The first request creates it and calls the adapter's `findAll`
      once; later requests return the same array and call nothing. */
  function FindAll(s: Store, t: ModelType): (res: Listed)
    requires Valid(s)
    ensures Valid(res.store)
    ensures res.handle < |res.store.arrays|
    ensures t in res.store.allArrays && res.store.allArrays[t] == res.handle
    ensures res.store.arrays[res.handle].Live? && res.store.arrays[res.handle].modelType == t
    ensures forall r :: 0 <= r < |res.store.records| ==>
      (r in res.store.arrays[res.handle].content <==> res.store.records[r].modelType == t && IsLoaded(res.store.records[r]))
    ensures res.store.records == s.records && res.store.identity == s.identity
    ensures forall b :: BucketOf(res.store, b) == BucketOf(s, b)
    ensures t in s.allArrays ==> res == Listed(s, s.allArrays[t], [])
    ensures t !in s.allArrays ==> res.calls == [FindAllCall(t)] && res.handle == |s.arrays|
  {
    if t in s.allArrays then
      Listed(s, s.allArrays[t], [])
    else
      var (s1, h) := AddArray(s, NewLive(t, Everything, s.records));
      var s' := s1.(allArrays := s1.allArrays[t := h]);
      assert AllArraysValid(s') by {
        forall u | u in s'.allArrays ensures s'.allArrays[u] < |s'.arrays| {
          if u != t {
            assert s'.allArrays[u] == s.allArrays[u];
          }
        }
      }
      Listed(s', h, [FindAllCall(t)])
  }

  /** Asking for every record of a type twice calls the adapter once, and both
      requests see the same array. */
  lemma FindAllTwiceCallsOnce(s: Store, t: ModelType)
    requires Valid(s) && t !in s.allArrays
    ensures var first := FindAll(s, t);
      var second := FindAll(first.store, t);
      && first.calls + second.calls == [FindAllCall(t)]
      && second.handle == first.handle
  {
  }

  /** `filter(type, filter)`: a new live array over the loaded records of the
      type whose data passes the filter; the adapter is not called. */
  function FilterArray(s: Store, t: ModelType, f: Filter): (res: (Store, nat))
    requires Valid(s)
    ensures Valid(res.0)
    ensures res.1 == |s.arrays| && |res.0.arrays| == |s.arrays| + 1
    ensures res.0.arrays[res.1].Live? && res.0.arrays[res.1].modelType == t
    ensures res.0.arrays[res.1].filter == f
    ensures forall r :: 0 <= r < |s.records| ==>
      (r in res.0.arrays[res.1].content <==>
        s.records[r].modelType == t && IsLoaded(s.records[r]) && Matches(f, s.records[r].data))
    ensures res.0.records == s.records && res.0.identity == s.identity
    ensures forall b :: BucketOf(res.0, b) == BucketOf(s, b)
  {
    AddArray(s, NewLive(t, f, s.records))
  }
}
