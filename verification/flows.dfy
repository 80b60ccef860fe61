/** End-to-end flows through the store: a change made by the application,
    the adapter calls a commit makes for it, and the acknowledgment that
    settles it. */
module Flows {
  import opened Wrappers
  import opened Values
  import opened Records
  import opened Seqs
  import opened ModelArrays
  import opened Adapters
  import opened Stores
  import opened Fetching
  import opened Changes
  import opened Acks
  import opened Commits
  import opened Queries

  /** A created record, once the server names it, is what `find` returns for
      that id, without asking the adapter. */
  lemma CreateAckThenFind(s: Store, t: ModelType, h0: Hash, h: Hash, id: int)
    requires Valid(s) && IdOf(h) == Some(id) && (t, id) !in s.identity
    ensures var c := Create(s, t, h0);
      var ack := DidCreateModel(c.store, c.ref, h);
      && ack.Success?
      && ack.value.records[c.ref] == Record(t, Some(id), Loaded, h)
      && c.ref !in ack.value.created
      && Find(ack.value, t, id) == Fetched(ack.value, c.ref, [])
  {
    var c := Create(s, t, h0);
    assert c.store.records[c.ref] == CreatedRecord(t, h0);
  }

  /** A loaded record, once deleted and acknowledged, is deleted and clean,
      in no bucket, and no longer named by the identity map. */
  lemma DeleteAckSettles(s: Store, r: nat)
    requires Valid(s) && r < |s.records| && s.records[r].state == Loaded
    ensures DeleteRecord(s, r).Success?
    ensures var s1 := DeleteRecord(s, r).value;
      var ack := DidDeleteModel(s1, r);
      && ack.Success?
      && IsDeleted(ack.value.records[r]) && !IsDirty(ack.value.records[r])
      && r !in ack.value.created && r !in ack.value.updated && r !in ack.value.deleted
      && forall k :: k in ack.value.identity ==> ack.value.identity[k] != r
  {
    var s1 := DeleteRecord(s, r).value;
    assert s1.records[r].state == Dirty(Deleted);
  }

  /** A write to a loaded record, once acknowledged, reads back as written
      (coerced by the attribute's type when it declares one), and the record
      is clean again. */
  lemma UpdateAckReadsBack(s: Store, r: nat, name: string, v: JsValue)
    requires Valid(s) && r < |s.records| && s.records[r].state == Loaded
    ensures SetAttr(s, r, name, v).Success?
    ensures var s1 := SetAttr(s, r, name, v).value;
      var ack := DidUpdateModel(s1, r);
      var t := s.records[r].modelType;
      && ack.Success?
      && ack.value.records[r].state == Loaded
      && ack.value.updated == s.updated
      && (name in t.attrs ==> Get(ack.value.records[r], name) == Some(Coerce(t.attrs[name].tag, v)))
      && (name !in t.attrs ==> Get(ack.value.records[r], name) == Some(v))
  {
    var rec := s.records[r];
    ReadAfterWrite(rec, name, v);
    var s1 := SetAttr(s, r, name, v).value;
    assert s1.records[r].state == Dirty(Updated);
    assert r !in s.updated;
    RemoveLast(s.updated, r);
    var s2 := DidUpdateModel(s1, r).value;
    assert s2.records[r] == s1.records[r].(state := Loaded);
  }

  /** On a clean store, one write and a commit hand an adapter with a
      `commit` hook that single record, as the only group of the updated
      bucket. */
  lemma SetThenCommitHook(s: Store, a: Adapter, r: nat, name: string, v: JsValue)
    requires Valid(s) && Clean(s) && a.commit
    requires r < |s.records| && s.records[r].state == Loaded
    ensures SetAttr(s, r, name, v).Success?
    ensures var s1 := SetAttr(s, r, name, v).value;
      BucketsInRange(s1) &&
      Commit(s1, a) == [CommitCall([], [Group(s.records[r].modelType, [r])], [])]
  {
    var s1 := SetAttr(s, r, name, v).value;
    assert s1.updated == [r];
    ValidBucketsInRange(s1);
    GroupOneType(s1.records, [r], s.records[r].modelType);
    assert BucketOf(s1, Updated) == [r];
    assert BucketOf(s1, Created) == [] && BucketOf(s1, Deleted) == [];
    assert Commit(s1, a) == Plan(a, Groups(s1, Created), Groups(s1, Updated), Groups(s1, Deleted));
  }

  /** On a clean store, a created record and a commit hand an adapter with a
      `commit` hook that record as the only group of the created bucket. */
  lemma CreateThenCommitHook(s: Store, a: Adapter, t: ModelType, h: Hash)
    requires Valid(s) && Clean(s) && a.commit
    ensures var c := Create(s, t, h);
      BucketsInRange(c.store) && Commit(c.store, a) == [CommitCall([Group(t, [c.ref])], [], [])]
  {
    var c := Create(s, t, h);
    var s1 := c.store;
    assert s1.created == [c.ref];
    ValidBucketsInRange(s1);
    GroupOneType(s1.records, [c.ref], t);
    assert BucketOf(s1, Created) == [c.ref];
    assert BucketOf(s1, Updated) == [] && BucketOf(s1, Deleted) == [];
  }

  /** On a clean store, deleting a loaded record and committing hand an
      adapter with a `commit` hook that record as the only group of the
      deleted bucket. */
  lemma DeleteThenCommitHook(s: Store, a: Adapter, r: nat)
    requires Valid(s) && Clean(s) && a.commit
    requires r < |s.records| && s.records[r].state == Loaded
    ensures DeleteRecord(s, r).Success?
    ensures var s1 := DeleteRecord(s, r).value;
      BucketsInRange(s1) &&
      Commit(s1, a) == [CommitCall([], [], [Group(s.records[r].modelType, [r])])]
  {
    var s1 := DeleteRecord(s, r).value;
    assert s1.deleted == [r];
    assert s1.records[r].modelType == s.records[r].modelType;
    ValidBucketsInRange(s1);
    GroupOneType(s1.records, [r], s.records[r].modelType);
    assert BucketOf(s1, Deleted) == [r];
    assert BucketOf(s1, Created) == [] && BucketOf(s1, Updated) == [];
  }

  /** Two records created on a clean store, committed through an adapter
      with a bulk create method and no `commit` hook: one bulk call carries
      both, in creation order. */
  lemma CreateTwoCommitBulk(s: Store, a: Adapter, t: ModelType, h1: Hash, h2: Hash)
    requires Valid(s) && Clean(s) && !a.commit && HasBulk(a, Created)
    ensures var c1 := Create(s, t, h1);
      var c2 := Create(c1.store, t, h2);
      BucketsInRange(c2.store) && Commit(c2.store, a) == [BulkCall(Created, t, [c1.ref, c2.ref])]
  {
    var c1 := Create(s, t, h1);
    var c2 := Create(c1.store, t, h2);
    var s2 := c2.store;
    assert s2.created == [c1.ref, c2.ref];
    assert s2.records[c1.ref] == CreatedRecord(t, h1) && s2.records[c2.ref] == CreatedRecord(t, h2);
    ValidBucketsInRange(s2);
    assert forall x :: x in BucketOf(s2, Created) ==> s2.records[x].modelType == t;
    assert forall c :: c != Created ==> BucketOf(s2, c) == [];
    CommitOneType(s2, a, Created, t);
  }

  /** The server acknowledges both creations with hashes naming two new ids:
      from then on `find` returns each record for its id, with no adapter
      call, and nothing is left to create. */
  lemma CreateTwoAckThenFind(s: Store, t: ModelType, h1: Hash, h2: Hash, k1: Hash, k2: Hash, id1: int, id2: int)
    requires Valid(s) && Clean(s)
    requires IdOf(k1) == Some(id1) && IdOf(k2) == Some(id2) && id1 != id2
    requires (t, id1) !in s.identity && (t, id2) !in s.identity
    ensures var c1 := Create(s, t, h1);
      var c2 := Create(c1.store, t, h2);
      var ack := DidCreateModels(c2.store, [c1.ref, c2.ref], [k1, k2]);
      && ack.Success?
      && ack.value.created == []
      && Find(ack.value, t, id1) == Fetched(ack.value, c1.ref, [])
      && Find(ack.value, t, id2) == Fetched(ack.value, c2.ref, [])
  {
    var c1 := Create(s, t, h1);
    var c2 := Create(c1.store, t, h2);
    var s2, refs, hs := c2.store, [c1.ref, c2.ref], [k1, k2];
    assert s2.records[c1.ref] == CreatedRecord(t, h1) && s2.records[c2.ref] == CreatedRecord(t, h2);
    assert NoDup(refs);
    assert AllIn(s2, refs, Dirty(Created));
    assert Key(s2, refs[0], hs[0]) == (t, id1) && Key(s2, refs[1], hs[1]) == (t, id2);
    assert FreshKeys(s2, refs, hs);
    var s3 := DidCreateModels(s2, refs, hs).value;
    assert Lands(s2, refs, hs, s3);
    EmptyIffNoMember(s3.created);
  }

  /** A duplicate-free sequence whose only member is `y` is `[y]`. */
  lemma OnlyMember(q: seq<nat>, y: nat)
    requires NoDup(q)
    requires forall x :: x in q <==> x == y
    ensures q == [y]
  {
    assert y in q;
    NoDupTail(q);
    assert q[0] in q && forall x :: x in q[1..] ==> x in q;
    EmptyIffNoMember(q[1..]);
    assert q == [q[0]] + q[1..];
  }

  /** A person's data hash: an `id` and a `name`. */
  function PersonHash(id: int, name: string): Hash {
    map["id" := Int(id), "name" := Str(name)]
  }

  /** The three people of the `loadMany` scenario. */
  function ThreePeople(): seq<Hash> {
    [PersonHash(1, "Scumbag Dale"), PersonHash(2, "Scumbag Katz"), PersonHash(3, "Scumbag Bryn")]
  }

  /** Three people loaded into a new store with `loadMany`: `find` then hands
      back the second one with no adapter call; it is the person with id 2,
      loaded and clean, holding its own hash, and its name reads back. */
  lemma LoadManyThenFind(t: ModelType)
    requires t.attrs == map["name" := Attr(StringType, None)]
    ensures LoadMany(EmptyStore(), t, ThreePeople()).Success?
    ensures var ld := LoadMany(EmptyStore(), t, ThreePeople()).value;
      && |ld.refs| == 3 && ld.refs[1] < |ld.store.records|
      && Find(ld.store, t, 2) == Fetched(ld.store, ld.refs[1], [])
      && ld.store.records[ld.refs[1]] == Record(t, Some(2), Loaded, ThreePeople()[1])
      && Get(ld.store.records[ld.refs[1]], "name") == Some(Str("Scumbag Katz"))
  {
    ThreeLanded(t);
    var res := LoadMany(EmptyStore(), t, ThreePeople()).value;
    FindSecond(res.store, res.refs, t);
  }

  /** In a store holding the three people, `find(Person, 2)` makes no call and
      hands back the second person, whose name reads back. */
  lemma FindSecond(s: Store, refs: seq<nat>, t: ModelType)
    requires HoldsThree(s, refs, t) && t.attrs == map["name" := Attr(StringType, None)]
    ensures refs[1] < |s.records| && Find(s, t, 2) == Fetched(s, refs[1], [])
    ensures s.records[refs[1]] == Record(t, Some(2), Loaded, ThreePeople()[1])
    ensures Get(s.records[refs[1]], "name") == Some(Str("Scumbag Katz"))
  {
    assert s.records[refs[1]].data == PersonHash(2, "Scumbag Katz");
  }

  /** A query's array starts empty; once the adapter loads two people into
      it, it holds two records, reports them as two added at 0, and its first
      record is the first person, whose name reads back. */
  lemma QueryThenLoad(s: Store, t: ModelType, query: Hash)
    requires Valid(s) && (t, 1) !in s.identity && (t, 2) !in s.identity
    requires "name" !in t.attrs
    ensures var q := FindQuery(s, t, query);
      && q.calls == [FindQueryCall(t, query, q.handle)]
      && q.store.arrays[q.handle].content == []
      && QueryGetsTwo(q.store, q.handle)
  {
    var q := FindQuery(s, t, query);
    LoadTwoPeople(q.store, q.handle);
  }

  /** The two people loaded into the query array at handle `h`. */
  function TwoPeople(): seq<Hash> {
    [PersonHash(1, "Peter Wagenet"), PersonHash(2, "Brohuda Katz")]
  }

  /** Loading the two people into the query array at handle `h` succeeds,
      adds two records at 0, and its first record holds the first person. */
  ghost predicate QueryGetsTwo(s: Store, h: nat)
    requires Valid(s) && h < |s.arrays| && s.arrays[h].Query?
  {
    var ld := LoadQuery(s, h, TwoPeople());
    && ld.Success?
    && ld.value.1 == Change(0, 0, 2)
    && |ld.value.0.arrays| == |s.arrays|
    && |ld.value.0.arrays[h].content| == 2
    && ld.value.0.arrays[h].content[0] < |ld.value.0.records|
    && ld.value.0.records[ld.value.0.arrays[h].content[0]].data == TwoPeople()[0]
    && Get(ld.value.0.records[ld.value.0.arrays[h].content[0]], "name") == Some(Str("Peter Wagenet"))
  }

  lemma LoadTwoPeople(s: Store, h: nat)
    requires Valid(s) && h < |s.arrays| && s.arrays[h].Query? && s.arrays[h].content == []
    requires var t := s.arrays[h].modelType;
      (t, 1) !in s.identity && (t, 2) !in s.identity && "name" !in t.attrs
    ensures QueryGetsTwo(s, h)
  {
    var t := s.arrays[h].modelType;
    TwoPeopleLoadable(s, t);
    LoadManySucceeds(s, t, TwoPeople());
    LoadQueryLands(s, h, TwoPeople(), 0);
  }

  lemma TwoPeopleLoadable(s: Store, t: ModelType)
    requires IdentityValid(s) && (t, 1) !in s.identity && (t, 2) !in s.identity
    ensures Loadable(s, t, TwoPeople()) && NotReloaded(TwoPeople(), 0)
  {
    var hs := TwoPeople();
    assert IdOf(hs[0]) == Some(1) && IdOf(hs[1]) == Some(2);
  }

  /** `findAll` on a type with no loaded records yields an empty array, which
      then holds the record of data loaded for a new id of the type. */
  lemma FindAllThenLoad(s: Store, t: ModelType, id: int, h: Hash)
    requires Valid(s) && t !in s.allArrays && (t, id) !in s.identity
    requires forall r :: 0 <= r < |s.records| ==> !(s.records[r].modelType == t && IsLoaded(s.records[r]))
    ensures var l := FindAll(s, t);
      var ld := Load(l.store, t, id, h);
      && l.store.arrays[l.handle].content == []
      && ld.Success?
      && l.handle < |ld.value.store.arrays|
      && ld.value.store.arrays[l.handle].content == [ld.value.ref]
  {
    var l := FindAll(s, t);
    var a := l.store.arrays[l.handle];
    EmptyIffNoMember(a.content);
    var ld := Load(l.store, t, id, h).value;
    LoadValid(l.store, t, id, h);
    var a' := ld.store.arrays[l.handle];
    assert ArrayValid(a', ld.store.records);
    OnlyMember(a'.content, ld.ref);
  }

  /** Writing a string to the `name` of a record in a live array that keeps
      records whose `name` ends in `suffix` (a raw slot, or a plain string
      attribute): the record stays exactly when the new string ends in
      `suffix`, and the array loses one entry when it leaves. */
  lemma RenameRefilters(s: Store, r: nat, i: nat, name: string, suffix: string, x: string)
    requires Valid(s) && r < |s.records| && i < |s.arrays|
    requires var t := s.records[r].modelType;
      name !in t.attrs || t.attrs[name] == Attr(StringType, None)
    requires s.arrays[i].Live? && s.arrays[i].filter == EndsWith(name, suffix)
    requires r in s.arrays[i].content
    ensures var s1 := SetAttr(s, r, name, Str(x));
      && s1.Success?
      && s1.value.records[r].modelType == s.records[r].modelType
      && IsLoaded(s1.value.records[r])
      && Get(s1.value.records[r], name) == Some(Str(x))
      && |s1.value.arrays| == |s.arrays|
      && s1.value.arrays[i].Live? && s1.value.arrays[i].filter == s.arrays[i].filter
      && (r in s1.value.arrays[i].content <==> EndsIn(x, suffix))
      && |s1.value.arrays[i].content| == |s.arrays[i].content| - (if EndsIn(x, suffix) then 0 else 1)
  {
    assert ArrayValid(s.arrays[i], s.records);
    var rec := s.records[r];
    assert Slot(rec.modelType, name) == name;
    ReadAfterWrite(rec, name, Str(x));
    var s1 := SetAttr(s, r, name, Str(x)).value;
    assert s1.records[r].data[name] == Str(x);
    assert Belongs(s.arrays[i], s1.records[r]) <==> EndsIn(x, suffix);
  }

  /** Renaming "Scumbag Katz" to "Yehuda Katz" keeps the record in the Katz
      array and its length; renaming it on to "Yehuda Katz-Foo" drops it and
      shortens the array by one. */
  lemma RenameMovesFilter(s: Store, r: nat, i: nat, name: string)
    requires Valid(s) && r < |s.records| && i < |s.arrays|
    requires var t := s.records[r].modelType;
      name !in t.attrs || t.attrs[name] == Attr(StringType, None)
    requires s.arrays[i].Live? && s.arrays[i].filter == EndsWith(name, "Katz")
    requires r in s.arrays[i].content
    ensures var s1 := SetAttr(s, r, name, Str("Yehuda Katz"));
      && s1.Success?
      && Get(s1.value.records[r], name) == Some(Str("Yehuda Katz"))
      && |s1.value.arrays| == |s.arrays|
      && r in s1.value.arrays[i].content
      && |s1.value.arrays[i].content| == |s.arrays[i].content|
    ensures var s1 := SetAttr(s, r, name, Str("Yehuda Katz")).value;
      var s2 := SetAttr(s1, r, name, Str("Yehuda Katz-Foo"));
      && s2.Success?
      && |s2.value.arrays| == |s.arrays|
      && r !in s2.value.arrays[i].content
      && |s2.value.arrays[i].content| == |s.arrays[i].content| - 1
  {
    assert EndsIn("Yehuda Katz", "Katz") by {
      assert "Yehuda Katz"[7..] == "Katz";
    }
    RenameRefilters(s, r, i, name, "Katz", "Yehuda Katz");
    var s1 := SetAttr(s, r, name, Str("Yehuda Katz")).value;
    assert !EndsIn("Yehuda Katz-Foo", "Katz") by {
      assert "Yehuda Katz-Foo"[11..] == "-Foo";
    }
    RenameRefilters(s1, r, i, name, "Katz", "Yehuda Katz-Foo");
  }

  /** The store holds exactly the records `refs`: the `i`th is the person
      with id `i + 1` of the three, loaded and clean, holding its own hash. */
  ghost predicate HoldsThree(s: Store, refs: seq<nat>, t: ModelType) {
    && Valid(s) && |refs| == 3
    && (forall x :: 0 <= x < |s.records| ==> x in refs)
    && forall i :: 0 <= i < 3 ==>
      && refs[i] < |s.records| && s.records[refs[i]] == Record(t, Some(i + 1), Loaded, ThreePeople()[i])
      && (t, i + 1) in s.identity && s.identity[(t, i + 1)] == refs[i]
  }

  /** `loadMany` into a new store: the store holds nothing but the records
      the hashes landed in. */
  lemma LoadedIntoEmpty(t: ModelType, hs: seq<Hash>)
    requires Loadable(EmptyStore(), t, hs)
    ensures LoadMany(EmptyStore(), t, hs).Success?
    ensures var res := LoadMany(EmptyStore(), t, hs).value;
      && Valid(res.store)
      && (forall x :: 0 <= x < |res.store.records| ==> x in res.refs)
      && forall i :: 0 <= i < |hs| ==> LandedAt(res.store, t, hs, res.refs, i)
  {
    LoadManySucceeds(EmptyStore(), t, hs);
    LoadManyValid(EmptyStore(), t, hs);
  }

  /** A record that landed and was not reloaded is exactly its hash's record. */
  lemma LandedRecord(s: Store, t: ModelType, hs: seq<Hash>, refs: seq<nat>, i: nat)
    requires IdentityValid(s) && i < |hs| && i < |refs|
    requires LandedAt(s, t, hs, refs, i) && NotReloaded(hs, i)
    ensures refs[i] < |s.records| && s.records[refs[i]] == Record(t, IdOf(hs[i]), Loaded, hs[i])
  {
    assert s.identity[(t, IdOf(hs[i]).value)] == refs[i];
  }

  /** After `loadMany` of the three people into a new store, the store holds
      exactly those three. */
  lemma ThreeLanded(t: ModelType)
    ensures LoadMany(EmptyStore(), t, ThreePeople()).Success?
    ensures var res := LoadMany(EmptyStore(), t, ThreePeople()).value;
      HoldsThree(res.store, res.refs, t)
  {
    ThreeLoadable(t);
    LoadedIntoEmpty(t, ThreePeople());
    var res := LoadMany(EmptyStore(), t, ThreePeople()).value;
    LandedThree(res.store, res.refs, t);
  }

  /** The three people carry the ids 1, 2 and 3, so a new store can load them. */
  lemma ThreeLoadable(t: ModelType)
    ensures forall i :: 0 <= i < 3 ==> IdOf(ThreePeople()[i]) == Some(i + 1)
    ensures Loadable(EmptyStore(), t, ThreePeople())
  {
  }

  /** A store into which the three people landed, and which holds nothing
      else, holds exactly those three. */
  lemma LandedThree(s: Store, refs: seq<nat>, t: ModelType)
    requires Valid(s) && |refs| == 3
    requires forall x :: 0 <= x < |s.records| ==> x in refs
    requires forall i :: 0 <= i < 3 ==> LandedAt(s, t, ThreePeople(), refs, i)
    ensures HoldsThree(s, refs, t)
  {
    var hs := ThreePeople();
    ThreeLoadable(t);
    forall i | 0 <= i < 3
      ensures refs[i] < |s.records|
      ensures s.records[refs[i]] == Record(t, Some(i + 1), Loaded, hs[i])
      ensures (t, i + 1) in s.identity && s.identity[(t, i + 1)] == refs[i]
    {
      assert NotReloaded(hs, i);
      LandedRecord(s, t, hs, refs, i);
    }
  }

  /** Of the three people, only the second one's name ends in "Katz". */
  lemma OnlyKatz(i: nat)
    requires i < 3
    ensures Matches(EndsWith("name", "Katz"), ThreePeople()[i]) <==> i == 1
  {
    assert "Scumbag Dale"[8..] == "Dale" && "Scumbag Katz"[8..] == "Katz" && "Scumbag Bryn"[8..] == "Bryn";
  }

  /** On a store holding the three people, `filter` on names ending in "Katz"
      holds exactly the second person, whose name reads "Scumbag Katz". */
  lemma KatzFilter(s: Store, refs: seq<nat>, t: ModelType)
    requires HoldsThree(s, refs, t)
    requires "name" !in t.attrs || t.attrs["name"] == Attr(StringType, None)
    ensures var f := FilterArray(s, t, EndsWith("name", "Katz"));
      && f.0.arrays[f.1].content == [refs[1]]
      && refs[1] < |f.0.records|
      && Get(f.0.records[refs[1]], "name") == Some(Str("Scumbag Katz"))
  {
    var f := FilterArray(s, t, EndsWith("name", "Katz"));
    var a := f.0.arrays[f.1];
    assert ArrayValid(a, f.0.records);
    forall x ensures x in a.content <==> x == refs[1] {
      if x in a.content {
        assert x < |s.records| && x in refs;
        var i :| 0 <= i < |refs| && x == refs[i];
        OnlyKatz(i);
      }
      if x == refs[1] {
        OnlyKatz(1);
      }
    }
    OnlyMember(a.content, refs[1]);
    assert ThreePeople()[1]["name"] == Str("Scumbag Katz");
  }

  /** The filter scenario end to end: after `loadMany` of the three people,
      the "Katz" filter has length 1 and holds "Scumbag Katz"; renaming that
      person "Yehuda Katz" keeps the length at 1, and renaming them on to
      "Yehuda Katz-Foo" brings it to 0. */
  lemma LoadFilterRename(t: ModelType)
    requires "name" !in t.attrs || t.attrs["name"] == Attr(StringType, None)
    ensures LoadMany(EmptyStore(), t, ThreePeople()).Success?
    ensures var ld := LoadMany(EmptyStore(), t, ThreePeople()).value;
      && Valid(ld.store)
      && var f := FilterArray(ld.store, t, EndsWith("name", "Katz"));
        && |f.0.arrays[f.1].content| == 1
        && var r := f.0.arrays[f.1].content[0];
          && r < |f.0.records| && f.0.records[r].modelType == t
          && Get(f.0.records[r], "name") == Some(Str("Scumbag Katz"))
          && var s1 := SetAttr(f.0, r, "name", Str("Yehuda Katz"));
            && s1.Success?
            && Get(s1.value.records[r], "name") == Some(Str("Yehuda Katz"))
            && |s1.value.arrays| == |f.0.arrays|
            && |s1.value.arrays[f.1].content| == 1
            && var s2 := SetAttr(s1.value, r, "name", Str("Yehuda Katz-Foo"));
              && s2.Success?
              && |s2.value.arrays| == |f.0.arrays|
              && |s2.value.arrays[f.1].content| == 0
  {
    ThreeLanded(t);
    var ld := LoadMany(EmptyStore(), t, ThreePeople()).value;
    KatzFilter(ld.store, ld.refs, t);
    var f := FilterArray(ld.store, t, EndsWith("name", "Katz"));
    var r := ld.refs[1];
    assert f.0.arrays[f.1].content == [r];
    RenameMovesFilter(f.0, r, f.1, "name");
  }

  /** A clean store holding two people, loaded and clean: `r1` at id 1 and
      `r2` at id 2. */
  ghost predicate TwoClean(s: Store, t: ModelType, r1: nat, r2: nat) {
    && Valid(s) && Clean(s)
    && (t, 1) in s.identity && s.identity[(t, 1)] == r1
    && (t, 2) in s.identity && s.identity[(t, 2)] == r2
    && r1 < |s.records| && s.records[r1].state == Loaded
    && r2 < |s.records| && s.records[r2].state == Loaded
  }

  /** Loading a hash with a new id into a clean store leaves it clean and
      enters one loaded record under that id. */
  lemma LoadNewClean(s: Store, t: ModelType, id: int, h: Hash)
    requires Valid(s) && Clean(s) && (t, id) !in s.identity && IdOf(h) == Some(id)
    ensures LoadHash(s, t, h).Success?
    ensures var l := LoadHash(s, t, h).value;
      && Valid(l.store) && Clean(l.store)
      && l.store.identity == s.identity[(t, id) := l.ref]
      && l.store.records[l.ref].state == Loaded
      && forall x :: 0 <= x < |s.records| ==> x != l.ref && l.store.records[x] == s.records[x]
  {
    LoadValid(s, t, id, h);
    var l := Load(s, t, id, h).value;
    assert BucketOf(l.store, Created) == [] && BucketOf(l.store, Updated) == [];
    assert BucketOf(l.store, Deleted) == [];
  }

  /** Loading two people with new ids into a clean store leaves it clean,
      holding both. */
  lemma LoadTwo(s: Store, t: ModelType)
    requires Valid(s) && Clean(s) && (t, 1) !in s.identity && (t, 2) !in s.identity
    ensures LoadHash(s, t, PersonHash(1, "Braaaahm Dale")).Success?
    ensures var l1 := LoadHash(s, t, PersonHash(1, "Braaaahm Dale")).value;
      && LoadHash(l1.store, t, PersonHash(2, "Gentile Katz")).Success?
      && var l2 := LoadHash(l1.store, t, PersonHash(2, "Gentile Katz")).value;
        TwoClean(l2.store, t, l1.ref, l2.ref)
  {
    var h1, h2 := PersonHash(1, "Braaaahm Dale"), PersonHash(2, "Gentile Katz");
    assert IdOf(h1) == Some(1) && IdOf(h2) == Some(2);
    LoadNewClean(s, t, 1, h1);
    var l1 := LoadHash(s, t, h1).value;
    LoadNewClean(l1.store, t, 2, h2);
  }

  /** The first write of the scenario, "Tom Dale" to the person with id 1:
      that person alone is dirty in `updated`, and the other is untouched. */
  ghost function RenamedTom(s: Store, t: ModelType, r1: nat, r2: nat): (s1: Store)
    requires TwoClean(s, t, r1, r2)
    ensures Valid(s1) && s1.identity == s.identity && |s1.records| == |s.records|
    ensures s1.updated == [r1] && s1.created == [] && s1.deleted == []
    ensures s1.records[r1].modelType == t
    ensures s1.records[r2] == s.records[r2]
  {
    SetAttr(s, r1, "name", Str("Tom Dale")).value
  }

  /** The two writes of the scenario, "Tom Dale" to the person with id 1 and
      then "Yehuda Katz" to the one with id 2: both are dirty in `updated`, in
      the order written, nothing else is dirty, and the second name reads
      back. */
  ghost function Renamed(s: Store, t: ModelType, r1: nat, r2: nat): (s2: Store)
    requires TwoClean(s, t, r1, r2) && ("name" !in t.attrs || t.attrs["name"] == Attr(StringType, None))
    ensures Valid(s2) && s2.identity == s.identity
    ensures s2.updated == [r1, r2] && s2.created == [] && s2.deleted == []
    ensures s2.records[r1].modelType == t && s2.records[r2].modelType == t
    ensures forall x :: x in s2.updated ==> x < |s2.records| && s2.records[x].modelType == t
    ensures Get(s2.records[r2], "name") == Some(Str("Yehuda Katz"))
  {
    var s1 := RenamedTom(s, t, r1, r2);
    ReadAfterWrite(s1.records[r2], "name", Str("Yehuda Katz"));
    SetAttr(s1, r2, "name", Str("Yehuda Katz")).value
  }

  /** A valid store whose only dirty records are updates of one type commits
      them, without a `commit` hook, as a single bulk call when the adapter
      has a bulk update method. */
  lemma CommitOnlyUpdates(s: Store, a: Adapter, t: ModelType)
    requires Valid(s) && !a.commit && HasBulk(a, Updated)
    requires s.created == [] && s.deleted == [] && s.updated != []
    requires forall x :: x in s.updated ==> x < |s.records| && s.records[x].modelType == t
    ensures BucketsInRange(s) && Commit(s, a) == [BulkCall(Updated, t, s.updated)]
  {
    ValidBucketsInRange(s);
    assert forall c :: c != Updated ==> BucketOf(s, c) == [];
    CommitOneType(s, a, Updated, t);
  }

  /** Acknowledging every pending update of a store with nothing else dirty
      leaves it clean, with the same identity map. */
  lemma SettledUpdatesClean(s: Store, refs: seq<nat>, s': Store)
    requires Settles(s, refs, Updated, s')
    requires s.created == [] && s.deleted == [] && forall x :: x in s.updated ==> x in refs
    ensures Clean(s') && s'.identity == s.identity
  {
    EmptyIffNoMember(s'.updated);
    assert BucketOf(s', Created) == [] && BucketOf(s', Deleted) == [];
  }

  /** `updateMany` on two loaded people: `find` hands out both with no
      call, and after both are renamed a commit through an adapter with a
      bulk update method and no `commit` hook makes one bulk call carrying
      both, in the order written. */
  lemma UpdateManyCommit(s: Store, a: Adapter, t: ModelType, r1: nat, r2: nat)
    requires TwoClean(s, t, r1, r2) && !a.commit && HasBulk(a, Updated)
    requires "name" !in t.attrs || t.attrs["name"] == Attr(StringType, None)
    ensures Find(s, t, 1) == Fetched(s, r1, []) && Find(s, t, 2) == Fetched(s, r2, [])
    ensures var s2 := Renamed(s, t, r1, r2);
      BucketsInRange(s2) && Commit(s2, a) == [BulkCall(Updated, t, [r1, r2])]
  {
    CommitOnlyUpdates(Renamed(s, t, r1, r2), a, t);
  }

  /** `didUpdateModels` on the two renamed people succeeds; `find(Person, 2)`
      then returns the same record with no adapter call, its name reads
      "Yehuda Katz", and a second commit calls nothing. */
  lemma UpdateManyThenFind(s: Store, a: Adapter, t: ModelType, r1: nat, r2: nat)
    requires TwoClean(s, t, r1, r2) && ("name" !in t.attrs || t.attrs["name"] == Attr(StringType, None))
    ensures var s2 := Renamed(s, t, r1, r2);
      && DidUpdateModels(s2, [r1, r2]).Success?
      && var s3 := DidUpdateModels(s2, [r1, r2]).value;
        && Find(s3, t, 2) == Fetched(s3, r2, [])
        && Get(s3.records[r2], "name") == Some(Str("Yehuda Katz"))
        && BucketsInRange(s3) && Commit(s3, a) == []
  {
    var s2 := Renamed(s, t, r1, r2);
    assert r1 in s2.updated && r2 in s2.updated;
    assert NoDup([r1, r2]) && AllIn(s2, [r1, r2], Dirty(Updated));
    var s3 := DidUpdateModels(s2, [r1, r2]).value;
    SettledUpdatesClean(s2, [r1, r2], s3);
    assert s3.records[r2] == s2.records[r2].(state := Loaded);
    ValidBucketsInRange(s3);
  }
}
