/** Batch acknowledgments: `didUpdateModels` and `didDeleteModels` apply the
    single acknowledgment to each record in turn, and `didCreateModels` pairs
    each created record with the server's hash in the same position. */
module Acks {
  import opened Wrappers
  import opened Seqs
  import opened Records
  import opened Stores
  import opened Changes

  /** Every reference is a record the store holds, in the given state. */
  ghost predicate AllIn(s: Store, refs: seq<nat>, st: State) {
    forall x :: x in refs ==> x < |s.records| && s.records[x].state == st
  }

  /** The state an acknowledged update or deletion leaves a record in. */
  function Settled(b: Bucket): State {
    if b == Deleted then Destroyed else Loaded
  }

  /** What acknowledging the records `refs` of bucket `b` establishes: the
      store stays well formed, each of them is settled with its data kept,
      every other record is untouched, bucket `b` loses exactly them and the
      other buckets are unchanged. The identity map only loses entries (and
      only on deletion), query arrays and the `findAll` arrays stay where they
      are; live arrays follow from `Valid`. */
  ghost predicate Settles(s: Store, refs: seq<nat>, b: Bucket, s': Store) {
    && Valid(s')
    && |s'.records| == |s.records|
    && (forall x :: x in refs ==> x < |s.records| && s'.records[x] == s.records[x].(state := Settled(b)))
    && (forall x :: 0 <= x < |s.records| && x !in refs ==> s'.records[x] == s.records[x])
    && (forall x :: x in BucketOf(s', b) <==> x in BucketOf(s, b) && x !in refs)
    && (forall c :: c != b ==> BucketOf(s', c) == BucketOf(s, c))
    && (b != Deleted ==> s'.identity == s.identity)
    && (forall k :: k in s'.identity ==> k in s.identity && s'.identity[k] == s.identity[k])
    && s'.allArrays == s.allArrays
    && QueriesKept(s, s')
  }

  /** Refreshing every array for one record leaves the query arrays alone. */
  lemma RefreshKeepsQueries(s: Store, s': Store, r: nat, rec: Record)
    requires s'.arrays == RefreshAll(s.arrays, r, rec)
    ensures QueriesKept(s, s')
  {
  }

  /** Settling one record and then the rest settles them all. */
  lemma SettlesTrans(s: Store, refs: seq<nat>, b: Bucket, s1: Store, s': Store)
    requires |refs| > 0 && refs[0] !in refs[1..]
    requires Settles(s, [refs[0]], b, s1) && Settles(s1, refs[1..], b, s')
    ensures Settles(s, refs, b, s')
  {
    assert forall x :: x in refs <==> x == refs[0] || x in refs[1..];
  }

  /** A single acknowledged update settles its record. */
  lemma DidUpdateSettles(s: Store, r: nat)
    requires Valid(s) && r < |s.records| && DidUpdateModel(s, r).Success?
    ensures Settles(s, [r], Updated, DidUpdateModel(s, r).value)
  {
    RefreshKeepsQueries(s, DidUpdateModel(s, r).value, r, DidUpdateModel(s, r).value.records[r]);
    assert s.records[r].(state := Loaded) == DidUpdateModel(s, r).value.records[r];
  }

  /** Distinctness of a sequence, one element at a time. */
  lemma NoDupCons(q: seq<nat>)
    requires |q| > 0
    ensures NoDup(q) <==> NoDup(q[1..]) && q[0] !in q[1..]
  {
    if NoDup(q[1..]) && q[0] !in q[1..] {
      forall i, j | 0 <= i < j < |q| ensures q[i] != q[j] {
        if i > 0 {
          assert q[i] == q[1..][i - 1] && q[j] == q[1..][j - 1];
        }
      }
    }
    if NoDup(q) {
      NoDupTail(q);
    }
  }

  /** Once the first record has left state `st`, the rest are distinct and in
      `st` exactly when all of them were. */
  lemma AllInCons(s: Store, s1: Store, refs: seq<nat>, st: State)
    requires |refs| > 0 && refs[0] < |s.records| && s.records[refs[0]].state == st
    requires |s1.records| == |s.records| && s1.records[refs[0]].state != st
    requires forall x :: 0 <= x < |s.records| && x != refs[0] ==> s1.records[x] == s.records[x]
    ensures NoDup(refs) && AllIn(s, refs, st) <==> NoDup(refs[1..]) && AllIn(s1, refs[1..], st)
  {
    NoDupCons(refs);
    assert forall x :: x in refs <==> x == refs[0] || x in refs[1..];
  }

  /** `didUpdateModels(records)`: it succeeds exactly when the records are
      distinct and all awaiting an update, and then settles them all. */
  function DidUpdateModels(s: Store, refs: seq<nat>): (res: Result<Store, Error>)
    requires Valid(s) && forall x :: x in refs ==> x < |s.records|
    ensures res.Success? <==> NoDup(refs) && AllIn(s, refs, Dirty(Updated))
    ensures res.Success? ==> Settles(s, refs, Updated, res.value)
    decreases |refs|
  {
    if |refs| == 0 then Success(s)
    else
      assert refs[0] in refs;
      var s1 :- DidUpdateModel(s, refs[0]);
      assert forall x :: x in refs[1..] ==> x in refs;
      var res := DidUpdateModels(s1, refs[1..]);
      AllInCons(s, s1, refs, Dirty(Updated));
      if res.Success? then
        DidUpdateSettles(s, refs[0]);
        SettlesTrans(s, refs, Updated, s1, res.value);
        res
      else res
  }

  /** A single acknowledged deletion settles its record. */
  lemma DidDeleteSettles(s: Store, r: nat)
    requires Valid(s) && r < |s.records| && DidDeleteModel(s, r).Success?
    ensures Settles(s, [r], Deleted, DidDeleteModel(s, r).value)
  {
    RefreshKeepsQueries(s, DidDeleteModel(s, r).value, r, DidDeleteModel(s, r).value.records[r]);
    assert s.records[r].(state := Destroyed) == DidDeleteModel(s, r).value.records[r];
  }

  /** `didDeleteModels(records)`: it succeeds exactly when the records are
      distinct and all awaiting deletion, and then settles them all: each is
      deleted and clean, and no id names any of them any more. */
  function DidDeleteModels(s: Store, refs: seq<nat>): (res: Result<Store, Error>)
    requires Valid(s) && forall x :: x in refs ==> x < |s.records|
    ensures res.Success? <==> NoDup(refs) && AllIn(s, refs, Dirty(Deleted))
    ensures res.Success? ==> Settles(s, refs, Deleted, res.value)
    ensures res.Success? ==>
      forall k :: k in res.value.identity <==> k in s.identity && s.identity[k] !in refs
    decreases |refs|
  {
    if |refs| == 0 then Success(s)
    else
      assert refs[0] in refs;
      var s1 :- DidDeleteModel(s, refs[0]);
      assert forall x :: x in refs[1..] ==> x in refs;
      var res := DidDeleteModels(s1, refs[1..]);
      AllInCons(s, s1, refs, Dirty(Deleted));
      if res.Success? then
        DidDeleteSettles(s, refs[0]);
        SettlesTrans(s, refs, Deleted, s1, res.value);
        assert forall x :: x in refs <==> x == refs[0] || x in refs[1..];
        res
      else res
  }

  /** The identity-map key a created record takes from the server's hash. */
  function Key(s: Store, r: nat, h: Hash): (ModelType, int)
    requires r < |s.records| && IdOf(h).Some?
  {
    (s.records[r].modelType, IdOf(h).value)
  }

  /** The server's hashes give every record an id, and no two records, nor a
      record and an entry already in the identity map, share a key. */
  ghost predicate FreshKeys(s: Store, refs: seq<nat>, hs: seq<Hash>) {
    && |refs| == |hs|
    && (forall i :: 0 <= i < |refs| ==> refs[i] < |s.records| && IdOf(hs[i]).Some?)
    && (forall i :: 0 <= i < |refs| ==> Key(s, refs[i], hs[i]) !in s.identity)
    && (forall i, j :: 0 <= i < j < |refs| ==> Key(s, refs[i], hs[i]) != Key(s, refs[j], hs[j]))
  }

  /** Each record takes its hash as data, is clean, and is what its type and
      the hash's id name in the identity map. */
  ghost predicate Lands(s: Store, refs: seq<nat>, hs: seq<Hash>, s': Store)
    requires |refs| == |hs|
  {
    forall i :: 0 <= i < |refs| ==>
      && refs[i] < |s.records| && refs[i] < |s'.records| && IdOf(hs[i]).Some?
      && s'.records[refs[i]] == Record(s.records[refs[i]].modelType, IdOf(hs[i]), Loaded, hs[i])
      && Key(s, refs[i], hs[i]) in s'.identity
      && s'.identity[Key(s, refs[i], hs[i])] == refs[i]
  }

  /** Every other record and every earlier identity entry is untouched,
      `created` loses exactly the records `refs`, and query arrays and the
      `findAll` arrays stay where they are. */
  ghost predicate KeepsOthers(s: Store, refs: seq<nat>, s': Store) {
    && |s'.records| == |s.records|
    && (forall x :: 0 <= x < |s.records| && x !in refs ==> s'.records[x] == s.records[x])
    && (forall k :: k in s.identity ==> k in s'.identity && s'.identity[k] == s.identity[k])
    && (forall x :: x in s'.created <==> x in s.created && x !in refs)
    && s'.updated == s.updated && s'.deleted == s.deleted
    && s'.allArrays == s.allArrays
    && QueriesKept(s, s')
  }

  /** What acknowledging created records with the server's hashes establishes. */
  ghost predicate CreatesLand(s: Store, refs: seq<nat>, hs: seq<Hash>, s': Store)
    requires |refs| == |hs|
  {
    Valid(s') && Lands(s, refs, hs, s') && KeepsOthers(s, refs, s')
  }

  lemma KeepsOthersTrans(s: Store, refs: seq<nat>, s1: Store, s': Store)
    requires |refs| > 0
    requires KeepsOthers(s, [refs[0]], s1) && KeepsOthers(s1, refs[1..], s')
    ensures KeepsOthers(s, refs, s')
  {
    forall x | 0 <= x < |s.records| && x !in refs ensures s'.records[x] == s.records[x] {
      assert x !in refs[1..] && x !in [refs[0]];
    }
    forall x ensures x in s'.created <==> x in s.created && x !in refs {
      assert x in [refs[0]] <==> x == refs[0];
      assert x in refs <==> x == refs[0] || x in refs[1..];
    }
  }

  lemma LandsTrans(s: Store, refs: seq<nat>, hs: seq<Hash>, s1: Store, s': Store)
    requires |refs| == |hs| > 0 && refs[0] !in refs[1..]
    requires Lands(s, [refs[0]], [hs[0]], s1) && KeepsOthers(s, [refs[0]], s1)
    requires Lands(s1, refs[1..], hs[1..], s') && KeepsOthers(s1, refs[1..], s')
    ensures Lands(s, refs, hs, s')
  {
    assert [refs[0]][0] == refs[0] && [hs[0]][0] == hs[0];
    forall i | 0 <= i < |refs|
      ensures refs[i] < |s.records| && refs[i] < |s'.records| && IdOf(hs[i]).Some?
      ensures s'.records[refs[i]] == Record(s.records[refs[i]].modelType, IdOf(hs[i]), Loaded, hs[i])
      ensures Key(s, refs[i], hs[i]) in s'.identity && s'.identity[Key(s, refs[i], hs[i])] == refs[i]
    {
      if i > 0 {
        assert refs[i] == refs[1..][i - 1] && hs[i] == hs[1..][i - 1];
        assert refs[i] in refs[1..] && refs[i] !in [refs[0]];
        assert s1.records[refs[i]] == s.records[refs[i]];
      } else {
        assert Key(s, refs[0], hs[0]) in s1.identity;
      }
    }
  }

  /** A single acknowledged creation lands its record. */
  lemma DidCreateLands(s: Store, r: nat, h: Hash)
    requires Valid(s) && r < |s.records| && DidCreateModel(s, r, h).Success?
    ensures CreatesLand(s, [r], [h], DidCreateModel(s, r, h).value)
  {
    var s' := DidCreateModel(s, r, h).value;
    RefreshKeepsQueries(s, s', r, s'.records[r]);
    assert forall x :: x in [r] <==> x == r;
    assert s'.records[r] == Record(s.records[r].modelType, IdOf(h), Loaded, h);
    assert s'.identity == s.identity[Key(s, r, h) := r];
  }

  /** `didCreateModels(type, records, hashes)`: the `i`th record is
      acknowledged with the `i`th hash. It succeeds when the records are
      distinct, all awaiting creation, and the hashes give them fresh,
      distinct keys; a success lands every record. */
  function DidCreateModels(s: Store, refs: seq<nat>, hs: seq<Hash>): (res: Result<Store, Error>)
    requires Valid(s) && |refs| == |hs| && forall x :: x in refs ==> x < |s.records|
    ensures res.Success? ==> NoDup(refs) && AllIn(s, refs, Dirty(Created))
    ensures NoDup(refs) && AllIn(s, refs, Dirty(Created)) && FreshKeys(s, refs, hs) ==> res.Success?
    ensures res.Success? ==> CreatesLand(s, refs, hs, res.value)
    decreases |refs|
  {
    if |refs| == 0 then Success(s)
    else
      assert refs[0] in refs;
      var s1 :- DidCreateModel(s, refs[0], hs[0]);
      assert forall x :: x in refs[1..] ==> x in refs;
      var res := DidCreateModels(s1, refs[1..], hs[1..]);
      AllInCons(s, s1, refs, Dirty(Created));
      assert NoDup(refs) && AllIn(s, refs, Dirty(Created)) && FreshKeys(s, refs, hs) ==>
        FreshKeys(s1, refs[1..], hs[1..]) by {
        if NoDup(refs) && AllIn(s, refs, Dirty(Created)) && FreshKeys(s, refs, hs) {
          FreshKeysTail(s, s1, refs, hs);
        }
      }
      if res.Success? then
        DidCreateLands(s, refs[0], hs[0]);
        KeepsOthersTrans(s, refs, s1, res.value);
        LandsTrans(s, refs, hs, s1, res.value);
        res
      else res
  }

  /** After the first record lands, the rest still have fresh keys. */
  lemma FreshKeysTail(s: Store, s1: Store, refs: seq<nat>, hs: seq<Hash>)
    requires |refs| == |hs| > 0 && forall x :: x in refs ==> x < |s.records|
    requires |s1.records| == |s.records| && NoDup(refs) && FreshKeys(s, refs, hs)
    requires forall x :: 0 <= x < |s.records| && x != refs[0] ==> s1.records[x] == s.records[x]
    requires s1.identity == s.identity[Key(s, refs[0], hs[0]) := refs[0]]
    ensures forall x :: x in refs[1..] ==> x < |s1.records|
    ensures FreshKeys(s1, refs[1..], hs[1..])
  {
    forall i | 0 <= i < |refs[1..]|
      ensures refs[1..][i] < |s1.records| && IdOf(hs[1..][i]).Some?
      ensures Key(s1, refs[1..][i], hs[1..][i]) == Key(s, refs[i + 1], hs[i + 1])
    {
      assert refs[i + 1] in refs;
      assert refs[i + 1] != refs[0];
    }
  }
}
