/** `commit()`: the dirty buckets, grouped by type, handed to the adapter. */
module Commits {
  import opened Seqs
  import opened Records
  import opened Adapters
  import opened Stores
  import opened Acks

  // ---------------------------------------------------------------------------
  // Grouping by type

  /** The references in `q` whose record's type is `t` (`keep`) or is not
      (`!keep`), in the order of `q`. */
  function Select(recs: seq<Record>, q: seq<nat>, t: ModelType, keep: bool): (r: seq<nat>)
    requires forall x :: x in q ==> x < |recs|
    ensures forall x :: x in r <==> x in q && (recs[x].modelType == t) == keep
    ensures |r| <= |q|
    decreases |q|
  {
    if |q| == 0 then []
    else
      assert q[0] in q && forall x :: x in q[1..] ==> x in q;
      var rest := Select(recs, q[1..], t, keep);
      assert forall x :: x in q <==> x == q[0] || x in q[1..];
      if (recs[q[0]].modelType == t) == keep then [q[0]] + rest else rest
  }

  /** Splitting by type loses and duplicates nothing. */
  lemma {:induction false} SelectSplits(recs: seq<Record>, q: seq<nat>, t: ModelType)
    requires forall x :: x in q ==> x < |recs|
    ensures multiset(Select(recs, q, t, true)) + multiset(Select(recs, q, t, false)) == multiset(q)
    decreases |q|
  {
    if |q| > 0 {
      assert forall x :: x in q[1..] ==> x in q;
      SelectSplits(recs, q[1..], t);
      assert q == [q[0]] + q[1..];
    }
  }

  /** Selecting type `u` among the references not of type `t` (`u != t`) is
      selecting `u` from the whole sequence. */
  lemma {:induction false} SelectOthers(recs: seq<Record>, q: seq<nat>, t: ModelType, u: ModelType)
    requires forall x :: x in q ==> x < |recs|
    requires u != t
    ensures Select(recs, Select(recs, q, t, false), u, true) == Select(recs, q, u, true)
    decreases |q|
  {
    if |q| > 0 {
      assert forall x :: x in q[1..] ==> x in q;
      SelectOthers(recs, q[1..], t, u);
    }
  }

  /** The references of all groups, group after group. */
  function Flatten(gs: seq<Group>): seq<nat> {
    if |gs| == 0 then [] else gs[0].refs + Flatten(gs[1..])
  }

  /** `eachType`: a bucket's records grouped by type, one non-empty group per
      type, the types in order of first appearance, each group headed by a
      record of its type. */
  function GroupByType(recs: seq<Record>, q: seq<nat>): (gs: seq<Group>)
    requires forall x :: x in q ==> x < |recs|
    ensures |gs| == 0 <==> |q| == 0
    ensures forall i :: 0 <= i < |gs| ==> |gs[i].refs| > 0
    ensures forall i :: 0 <= i < |gs| ==> gs[i].refs[0] in q && recs[gs[i].refs[0]].modelType == gs[i].modelType
    decreases |q|
  {
    if |q| == 0 then []
    else
      assert q[0] in q;
      var t := recs[q[0]].modelType;
      var mine := Select(recs, q, t, true);
      var others := Select(recs, q, t, false);
      assert q[0] in mine;
      SelectSplits(recs, q, t);
      assert |others| < |q| by {
        assert |multiset(mine)| + |multiset(others)| == |multiset(q)|;
      }
      var rest := GroupByType(recs, others);
      assert mine[0] in mine;
      [Group(t, mine)] + rest
  }

  /** One step of `eachType`: the group of the first record's type, then the
      groups of the records of other types. */
  lemma GroupUnfold(recs: seq<Record>, q: seq<nat>)
    requires forall x :: x in q ==> x < |recs|
    requires |q| > 0
    ensures q[0] in q
    ensures var t := recs[q[0]].modelType;
      var others := Select(recs, q, t, false);
      && |others| < |q|
      && GroupByType(recs, q) == [Group(t, Select(recs, q, t, true))] + GroupByType(recs, others)
  {
    assert q[0] in q;
    var t := recs[q[0]].modelType;
    var mine, others := Select(recs, q, t, true), Select(recs, q, t, false);
    SelectSplits(recs, q, t);
    assert |others| < |q| by {
      assert q[0] in mine;
      assert |multiset(mine)| + |multiset(others)| == |multiset(q)|;
    }
  }

  /** The groups together hold the bucket: nothing lost, nothing doubled. */
  lemma {:induction false} GroupsCover(recs: seq<Record>, q: seq<nat>)
    requires forall x :: x in q ==> x < |recs|
    ensures multiset(Flatten(GroupByType(recs, q))) == multiset(q)
    decreases |q|
  {
    if |q| > 0 {
      GroupUnfold(recs, q);
      var t := recs[q[0]].modelType;
      var mine, others := Select(recs, q, t, true), Select(recs, q, t, false);
      SelectSplits(recs, q, t);
      var gs := GroupByType(recs, q);
      assert gs[1..] == GroupByType(recs, others);
      GroupsCover(recs, others);
    }
  }

  /** No two groups share a type. */
  predicate DistinctTypes(gs: seq<Group>) {
    forall i, j :: 0 <= i < j < |gs| ==> gs[i].modelType != gs[j].modelType
  }

  lemma DistinctCons(g: Group, rest: seq<Group>)
    requires forall i :: 0 <= i < |rest| ==> rest[i].modelType != g.modelType
    requires DistinctTypes(rest)
    ensures DistinctTypes([g] + rest)
  {
    var gs := [g] + rest;
    forall i, j | 0 <= i < j < |gs| ensures gs[i].modelType != gs[j].modelType {
      assert gs[j] == rest[j - 1];
      if i > 0 {
        assert gs[i] == rest[i - 1];
      }
    }
  }

  /** The groups of a bucket have pairwise different types. */
  lemma {:induction false} GroupTypesDistinct(recs: seq<Record>, q: seq<nat>)
    requires forall x :: x in q ==> x < |recs|
    ensures DistinctTypes(GroupByType(recs, q))
    decreases |q|
  {
    if |q| > 0 {
      GroupUnfold(recs, q);
      var t := recs[q[0]].modelType;
      var others := Select(recs, q, t, false);
      var rest := GroupByType(recs, others);
      GroupTypesDistinct(recs, others);
      forall i | 0 <= i < |rest| ensures rest[i].modelType != t {
        assert rest[i].refs[0] in others;
      }
      DistinctCons(Group(t, Select(recs, q, t, true)), rest);
    }
  }

  /** Each group is exactly the bucket's records of its type, in bucket order. */
  lemma {:induction false} GroupsAreSelections(recs: seq<Record>, q: seq<nat>)
    requires forall x :: x in q ==> x < |recs|
    ensures forall i :: 0 <= i < |GroupByType(recs, q)| ==>
      GroupByType(recs, q)[i].refs == Select(recs, q, GroupByType(recs, q)[i].modelType, true)
    decreases |q|
  {
    if |q| > 0 {
      GroupUnfold(recs, q);
      var t := recs[q[0]].modelType;
      var others := Select(recs, q, t, false);
      var rest := GroupByType(recs, others);
      var gs := GroupByType(recs, q);
      GroupsAreSelections(recs, others);
      forall i | 0 < i < |gs| ensures gs[i].refs == Select(recs, q, gs[i].modelType, true) {
        var g := rest[i - 1];
        assert gs[i] == g;
        assert g.refs[0] in others;
        assert g.refs == Select(recs, others, g.modelType, true);
        SelectOthers(recs, q, t, g.modelType);
      }
    }
  }

  /** A bucket whose records share one type forms a single group, in bucket
      order. */
  lemma {:induction false} GroupOneType(recs: seq<Record>, q: seq<nat>, t: ModelType)
    requires forall x :: x in q ==> x < |recs| && recs[x].modelType == t
    requires |q| > 0
    ensures GroupByType(recs, q) == [Group(t, q)]
  {
    SelectAll(recs, q, t);
    var gs := GroupByType(recs, q);
    assert q[0] in q;
    EmptyIffNoMember(Select(recs, q, t, false));
  }

  lemma {:induction false} SelectAll(recs: seq<Record>, q: seq<nat>, t: ModelType)
    requires forall x :: x in q ==> x < |recs| && recs[x].modelType == t
    ensures Select(recs, q, t, true) == q
    decreases |q|
  {
    if |q| > 0 {
      assert forall x :: x in q[1..] ==> x in q;
      SelectAll(recs, q[1..], t);
      assert q == [q[0]] + q[1..];
    }
  }

  // ---------------------------------------------------------------------------
  // Dispatch

  /** The singular method once per record, in order. */
  function Singles(b: Bucket, t: ModelType, refs: seq<nat>): (calls: seq<Call>)
    ensures |calls| == |refs|
    ensures forall i :: 0 <= i < |refs| ==> calls[i] == SingleCall(b, t, refs[i])
  {
    seq(|refs|, i requires 0 <= i < |refs| => SingleCall(b, t, refs[i]))
  }

  /** The calls for one group of a bucket: the bulk method once when the
      adapter has it, else the singular method once per record. */
  function Send(a: Adapter, b: Bucket, g: Group): seq<Call> {
    if HasBulk(a, b) then [BulkCall(b, g.modelType, g.refs)] else Singles(b, g.modelType, g.refs)
  }

  /** The calls for a whole bucket, group after group. */
  function Dispatch(a: Adapter, b: Bucket, gs: seq<Group>): seq<Call> {
    if |gs| == 0 then [] else Send(a, b, gs[0]) + Dispatch(a, b, gs[1..])
  }

  /** The references the calls hand over for bucket `b`, call after call. */
  function Carried(calls: seq<Call>, b: Bucket): seq<nat> {
    if |calls| == 0 then []
    else
      (match calls[0]
       case BulkCall(c, _, refs) => if c == b then refs else []
       case SingleCall(c, _, r) => if c == b then [r] else []
       case _ => [])
      + Carried(calls[1..], b)
  }

  lemma {:induction false} CarriedAppend(xs: seq<Call>, ys: seq<Call>, b: Bucket)
    ensures Carried(xs + ys, b) == Carried(xs, b) + Carried(ys, b)
    decreases |xs|
  {
    if |xs| > 0 {
      assert (xs + ys)[0] == xs[0] && (xs + ys)[1..] == xs[1..] + ys;
      CarriedAppend(xs[1..], ys, b);
    } else {
      assert xs + ys == ys;
    }
  }

  /** A group's calls hand over exactly its records, for its own bucket only. */
  lemma {:induction false} SendCarries(a: Adapter, b: Bucket, g: Group, c: Bucket)
    ensures Carried(Send(a, b, g), c) == if c == b then g.refs else []
  {
    if !HasBulk(a, b) {
      SinglesCarry(b, g.modelType, g.refs, Singles(b, g.modelType, g.refs), c);
    }
  }

  lemma {:induction false} SinglesCarry(b: Bucket, t: ModelType, refs: seq<nat>, calls: seq<Call>, c: Bucket)
    requires |calls| == |refs|
    requires forall i :: 0 <= i < |refs| ==> calls[i] == SingleCall(b, t, refs[i])
    ensures Carried(calls, c) == if c == b then refs else []
    decreases |refs|
  {
    if |refs| > 0 {
      SinglesCarry(b, t, refs[1..], calls[1..], c);
    }
  }

  /** A bucket's calls hand over exactly the records of its groups, for that
      bucket only. */
  lemma {:induction false} DispatchCarries(a: Adapter, b: Bucket, gs: seq<Group>, c: Bucket)
    ensures Carried(Dispatch(a, b, gs), c) == if c == b then Flatten(gs) else []
    decreases |gs|
  {
    if |gs| > 0 {
      CarriedAppend(Send(a, b, gs[0]), Dispatch(a, b, gs[1..]), c);
      SendCarries(a, b, gs[0], c);
      DispatchCarries(a, b, gs[1..], c);
    }
  }

  /** With the bulk method, a bucket costs exactly one call per group. */
  lemma {:induction false} DispatchBulk(a: Adapter, b: Bucket, gs: seq<Group>)
    requires HasBulk(a, b)
    ensures |Dispatch(a, b, gs)| == |gs|
    ensures forall i :: 0 <= i < |gs| ==> Dispatch(a, b, gs)[i] == BulkCall(b, gs[i].modelType, gs[i].refs)
    decreases |gs|
  {
    if |gs| > 0 {
      DispatchBulk(a, b, gs[1..]);
    }
  }

  /** A bucket of non-empty groups makes calls exactly when it has a group. */
  lemma {:induction false} DispatchNone(a: Adapter, b: Bucket, gs: seq<Group>)
    requires forall i :: 0 <= i < |gs| ==> |gs[i].refs| > 0
    ensures Dispatch(a, b, gs) == [] <==> gs == []
  {
    if |gs| > 0 {
      assert |Send(a, b, gs[0])| > 0;
    }
  }

  // ---------------------------------------------------------------------------
  // Commit

  /** The groups `eachType` yields for one bucket. */
  function Groups(s: Store, b: Bucket): (gs: seq<Group>)
    requires BucketsInRange(s)
    ensures gs == [] <==> BucketOf(s, b) == []
    ensures forall i :: 0 <= i < |gs| ==> |gs[i].refs| > 0
  {
    GroupByType(s.records, BucketOf(s, b))
  }

  /** Whether every bucket is empty. */
  predicate Clean(s: Store) {
    s.created == [] && s.updated == [] && s.deleted == []
  }

  /** Of three per-bucket values, the one for bucket `b`. */
  function Pick<T>(b: Bucket, created: T, updated: T, deleted: T): T {
    match b
    case Created => created
    case Updated => updated
    case Deleted => deleted
  }

  /** The position of a bucket's calls in a commit without a `commit` hook. */
  function Rank(b: Bucket): nat {
    match b
    case Created => 0
    case Updated => 1
    case Deleted => 2
  }

  /** Whether a call hands records to a bulk or a singular method. */
  predicate Dispatched(c: Call) {
    c.BulkCall? || c.SingleCall?
  }

  /** Every call is a bulk or singular call for bucket `b`. */
  predicate Serves(calls: seq<Call>, b: Bucket) {
    forall i :: 0 <= i < |calls| ==> Dispatched(calls[i]) && calls[i].bucket == b
  }

  /** Every call is a bulk or singular call, and the calls serve the created
      bucket first, then the updated one, then the deleted one. */
  predicate InBucketOrder(calls: seq<Call>) {
    && (forall i :: 0 <= i < |calls| ==> Dispatched(calls[i]))
    && (forall i, j :: 0 <= i < j < |calls| && Dispatched(calls[i]) && Dispatched(calls[j]) ==>
          Rank(calls[i].bucket) <= Rank(calls[j].bucket))
  }

  /** A bucket's calls all serve that bucket. */
  lemma {:induction false} DispatchServes(a: Adapter, b: Bucket, gs: seq<Group>)
    ensures Serves(Dispatch(a, b, gs), b)
    decreases |gs|
  {
    if |gs| > 0 {
      DispatchServes(a, b, gs[1..]);
      var head, tail := Send(a, b, gs[0]), Dispatch(a, b, gs[1..]);
      assert Serves(head, b);
      assert forall i :: |head| <= i < |head| + |tail| ==> (head + tail)[i] == tail[i - |head|];
    }
  }

  /** Calls for the created, then the updated, then the deleted bucket are in
      bucket order. */
  lemma ServesInOrder(xs: seq<Call>, ys: seq<Call>, zs: seq<Call>)
    requires Serves(xs, Created) && Serves(ys, Updated) && Serves(zs, Deleted)
    ensures InBucketOrder(xs + ys + zs)
  {
    var calls := xs + ys + zs;
    assert forall i :: 0 <= i < |calls| ==>
      calls[i] == (if i < |xs| then xs[i] else if i < |xs| + |ys| then ys[i - |xs|] else zs[i - |xs| - |ys|]);
    assert forall i :: 0 <= i < |calls| ==>
      Dispatched(calls[i]) && Rank(calls[i].bucket) == (if i < |xs| then 0 else if i < |xs| + |ys| then 1 else 2);
  }

  /** The calls a commit makes for the given groups of the created, updated
      and deleted buckets: nothing when there are none. Otherwise an adapter
      with a `commit` hook receives all three, grouped by type, in one call;
      any other adapter gets the created, then the updated, then the deleted
      groups, each group by its bulk method when the adapter has one and else
      record by record. */
  function Plan(a: Adapter, gc: seq<Group>, gu: seq<Group>, gd: seq<Group>): (calls: seq<Call>)
    ensures a.commit ==> calls == [] || calls == [CommitCall(gc, gu, gd)]
    ensures !a.commit ==> InBucketOrder(calls)
  {
    if gc == [] && gu == [] && gd == [] then []
    else if a.commit then [CommitCall(gc, gu, gd)]
    else
      var dc, du, dd := Dispatch(a, Created, gc), Dispatch(a, Updated, gu), Dispatch(a, Deleted, gd);
      DispatchServes(a, Created, gc);
      DispatchServes(a, Updated, gu);
      DispatchServes(a, Deleted, gd);
      ServesInOrder(dc, du, dd);
      dc + du + dd
  }

  /** `store.commit()`: the plan for the store's three buckets. It calls the
      adapter exactly when some record is dirty; a `commit` hook then gets one
      call with every bucket grouped by type, and any other adapter gets the
      created, then the updated, then the deleted records. */
  function Commit(s: Store, a: Adapter): (calls: seq<Call>)
    requires BucketsInRange(s)
    ensures calls == [] <==> Clean(s)
    ensures a.commit && !Clean(s) ==>
      calls == [CommitCall(Groups(s, Created), Groups(s, Updated), Groups(s, Deleted))]
    ensures !a.commit ==> InBucketOrder(calls)
  {
    var gc, gu, gd := Groups(s, Created), Groups(s, Updated), Groups(s, Deleted);
    PlanNothing(a, gc, gu, gd);
    Plan(a, gc, gu, gd)
  }

  /** Non-empty groups make calls exactly when there is a group. */
  lemma PlanNothing(a: Adapter, gc: seq<Group>, gu: seq<Group>, gd: seq<Group>)
    requires forall i :: 0 <= i < |gc| ==> |gc[i].refs| > 0
    requires forall i :: 0 <= i < |gu| ==> |gu[i].refs| > 0
    requires forall i :: 0 <= i < |gd| ==> |gd[i].refs| > 0
    ensures Plan(a, gc, gu, gd) == [] <==> gc == [] && gu == [] && gd == []
  {
    DispatchNone(a, Created, gc);
    DispatchNone(a, Updated, gu);
    DispatchNone(a, Deleted, gd);
  }

  /** Without a `commit` hook, the calls for bucket `b` hand over the records
      of its groups, in order, and nothing else. */
  lemma PlanCarries(a: Adapter, gc: seq<Group>, gu: seq<Group>, gd: seq<Group>, b: Bucket)
    requires !a.commit
    ensures Carried(Plan(a, gc, gu, gd), b) == Flatten(Pick(b, gc, gu, gd))
  {
    var dc, du, dd := Dispatch(a, Created, gc), Dispatch(a, Updated, gu), Dispatch(a, Deleted, gd);
    CarriedAppend(dc + du, dd, b);
    CarriedAppend(dc, du, b);
    DispatchCarries(a, Created, gc, b);
    DispatchCarries(a, Updated, gu, b);
    DispatchCarries(a, Deleted, gd, b);
  }

  /** Without a `commit` hook, the calls for each bucket hand over each of
      its records exactly once. */
  lemma CommitCarries(s: Store, a: Adapter, b: Bucket)
    requires BucketsInRange(s) && !a.commit
    ensures multiset(Carried(Commit(s, a), b)) == multiset(BucketOf(s, b))
  {
    var gc, gu, gd := Groups(s, Created), Groups(s, Updated), Groups(s, Deleted);
    PlanCarries(a, gc, gu, gd, b);
    assert Pick(b, gc, gu, gd) == GroupByType(s.records, BucketOf(s, b));
    GroupsCover(s.records, BucketOf(s, b));
  }

  /** Without a `commit` hook, a single group in a single bucket is sent on
      its own. */
  lemma PlanOneGroup(a: Adapter, b: Bucket, g: Group, gc: seq<Group>, gu: seq<Group>, gd: seq<Group>)
    requires !a.commit
    requires Pick(b, gc, gu, gd) == [g]
    requires forall c :: c != b ==> Pick(c, gc, gu, gd) == []
    ensures Plan(a, gc, gu, gd) == Send(a, b, g)
  {
    assert Dispatch(a, b, [g]) == Send(a, b, g);
    assert Pick(Created, gc, gu, gd) == gc;
    assert Pick(Updated, gc, gu, gd) == gu;
    assert Pick(Deleted, gc, gu, gd) == gd;
  }

  /** One dirty bucket of one type, and no `commit` hook: the bulk method is
      called once with the whole bucket when the adapter has it; otherwise
      the singular method is called once per record, in bucket order. */
  lemma CommitOneType(s: Store, a: Adapter, b: Bucket, t: ModelType)
    requires BucketsInRange(s) && !a.commit
    requires BucketOf(s, b) != []
    requires forall c :: c != b ==> BucketOf(s, c) == []
    requires forall x :: x in BucketOf(s, b) ==> s.records[x].modelType == t
    ensures var q := BucketOf(s, b);
      Commit(s, a) == if HasBulk(a, b) then [BulkCall(b, t, q)] else Singles(b, t, q)
  {
    GroupOneType(s.records, BucketOf(s, b), t);
    CommitOneGroup(s, a, b, Group(t, BucketOf(s, b)));
  }

  /** Without a `commit` hook, a store with a single group of dirty records
      commits that group on its own. */
  lemma CommitOneGroup(s: Store, a: Adapter, b: Bucket, g: Group)
    requires BucketsInRange(s) && !a.commit
    requires Groups(s, b) == [g]
    requires forall c :: c != b ==> BucketOf(s, c) == []
    ensures Commit(s, a) == Send(a, b, g)
  {
    PickGroups(s, b, g);
    PlanOneGroup(a, b, g, Groups(s, Created), Groups(s, Updated), Groups(s, Deleted));
  }

  lemma PickGroups(s: Store, b: Bucket, g: Group)
    requires BucketsInRange(s)
    requires Groups(s, b) == [g]
    requires forall c :: c != b ==> BucketOf(s, c) == []
    ensures var gc, gu, gd := Groups(s, Created), Groups(s, Updated), Groups(s, Deleted);
      && Pick(b, gc, gu, gd) == [g]
      && forall c :: c != b ==> Pick(c, gc, gu, gd) == []
  {
    var gc, gu, gd := Groups(s, Created), Groups(s, Updated), Groups(s, Deleted);
    forall c ensures Pick(c, gc, gu, gd) == Groups(s, c) {
    }
  }

  // ---------------------------------------------------------------------------
  // Commit, then acknowledge

  /** Acknowledging the whole `updated` bucket empties it. */
  lemma AckUpdatedEmpties(s: Store)
    requires Valid(s)
    ensures DidUpdateModels(s, s.updated).Success?
    ensures DidUpdateModels(s, s.updated).value.updated == []
  {
    EmptyIffNoMember(DidUpdateModels(s, s.updated).value.updated);
  }

  /** Acknowledging the whole `deleted` bucket empties it. */
  lemma AckDeletedEmpties(s: Store)
    requires Valid(s)
    ensures DidDeleteModels(s, s.deleted).Success?
    ensures DidDeleteModels(s, s.deleted).value.deleted == []
  {
    EmptyIffNoMember(DidDeleteModels(s, s.deleted).value.deleted);
  }

  /** Acknowledging the whole `created` bucket, with hashes giving fresh,
      distinct ids, empties it. */
  lemma AckCreatedEmpties(s: Store, hs: seq<Hash>)
    requires Valid(s) && FreshKeys(s, s.created, hs)
    ensures DidCreateModels(s, s.created, hs).Success?
    ensures DidCreateModels(s, s.created, hs).value.created == []
  {
    EmptyIffNoMember(DidCreateModels(s, s.created, hs).value.created);
  }

  /** Once every created, updated and deleted record is acknowledged, a
      second commit calls nothing. */
  lemma CommitAfterAcks(s: Store, a: Adapter, hs: seq<Hash>)
    requires Valid(s) && FreshKeys(s, s.created, hs)
    ensures var s1 := DidCreateModels(s, s.created, hs).value;
      var s2 := DidUpdateModels(s1, s1.updated).value;
      var s3 := DidDeleteModels(s2, s2.deleted).value;
      BucketsInRange(s3) && Commit(s3, a) == []
  {
    AckCreatedEmpties(s, hs);
    var s1 := DidCreateModels(s, s.created, hs).value;
    AckUpdatedEmpties(s1);
    var s2 := DidUpdateModels(s1, s1.updated).value;
    assert BucketOf(s2, Created) == BucketOf(s1, Created);
    AckDeletedEmpties(s2);
    var s3 := DidDeleteModels(s2, s2.deleted).value;
    assert BucketOf(s3, Created) == BucketOf(s2, Created);
    assert BucketOf(s3, Updated) == BucketOf(s2, Updated);
    ValidBucketsInRange(s3);
  }
}
