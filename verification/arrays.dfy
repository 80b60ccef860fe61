/** Record arrays: live arrays scoped to a type and a filter over the raw data
    hash (`filter`, `findAll`), and query arrays filled once by the adapter. */
module ModelArrays {
  import opened Values
  import opened Records
  import opened Seqs

  /** A predicate over a record's raw data hash. */
  datatype Filter =
    | Everything                              // every record of the type
    | EndsWith(slot: string, suffix: string)  // the slot holds a string ending in `suffix`

  /** Whether the string `x` ends in `suffix`. */
  predicate EndsIn(x: string, suffix: string) {
    |suffix| <= |x| && x[|x| - |suffix|..] == suffix
  }

  predicate Matches(f: Filter, h: Hash) {
    match f
    case Everything => true
    case EndsWith(slot, suffix) => slot in h && h[slot].Str? && EndsIn(h[slot].s, suffix)
  }

  /** An array of record references (indices into the store's records). */
  datatype ModelArray =
    | Live(modelType: ModelType, filter: Filter, content: seq<nat>)
    | Query(modelType: ModelType, query: Hash, content: seq<nat>)

  /** The granular change an array reports: at `start`, `removed` references
      left and `added` references arrived. */
  datatype Change = Change(start: nat, removed: nat, added: nat)

  /** Whether a record belongs in a live array: loaded, of the array's type, and
      with data satisfying its filter. */
  predicate Belongs(a: ModelArray, r: Record) {
    a.Live? && r.modelType == a.modelType && IsLoaded(r) && Matches(a.filter, r.data)
  }

  /** A live array holds exactly the records that belong in it, once each; a
      query array refers only to existing records. */
  ghost predicate ArrayValid(a: ModelArray, recs: seq<Record>) {
    && (forall x :: x in a.content ==> x < |recs|)
    && (a.Live? ==> NoDup(a.content))
    && (a.Live? ==> forall r :: 0 <= r < |recs| ==> (r in a.content <==> Belongs(a, recs[r])))
  }

  /** The members of a live array among the first `n` records, in record order. */
  function MembersUpTo(a: ModelArray, recs: seq<Record>, n: nat): (q: seq<nat>)
    requires n <= |recs|
    ensures forall x :: x in q ==> x < n
    ensures NoDup(q)
    ensures forall r :: 0 <= r < n ==> (r in q <==> Belongs(a, recs[r]))
  {
    if n == 0 then []
    else
      var q := MembersUpTo(a, recs, n - 1);
      assert n - 1 !in q;
      if Belongs(a, recs[n - 1]) then q + [n - 1] else q
  }

  /** A new live array over the given records. */
  function NewLive(t: ModelType, f: Filter, recs: seq<Record>): (a: ModelArray)
    ensures a.Live? && a.modelType == t && a.filter == f
    ensures ArrayValid(a, recs)
  {
    Live(t, f, MembersUpTo(Live(t, f, []), recs, |recs|))
  }

  /** Re-evaluate one record's membership after it changed: it is appended if it
      now belongs and was absent, removed if it no longer belongs, and nothing
      else enters, leaves or moves. Query arrays are not affected by record
      changes. */
  function Refresh(a: ModelArray, r: nat, rec: Record): (a': ModelArray)
    ensures a'.modelType == a.modelType && a'.Live? == a.Live?
    ensures a.Live? ==> a'.filter == a.filter
    ensures a.Query? ==> a' == a
    ensures a.Live? ==> forall x :: x != r ==> (x in a'.content <==> x in a.content)
    ensures a.Live? ==> (r in a'.content <==> Belongs(a, rec))
    ensures a.Live? ==> Remove(a'.content, r) == Remove(a.content, r)
    ensures a.Live? && NoDup(a.content) ==>
      |a'.content| == |a.content| + (if r in a'.content then 1 else 0) - (if r in a.content then 1 else 0)
  {
    if a.Query? then a
    else if Belongs(a, rec) then
      assert Remove(AddOnce(a.content, r), r) == Remove(a.content, r) by {
        if r !in a.content {
          RemoveLast(a.content, r);
        }
      }
      Live(a.modelType, a.filter, AddOnce(a.content, r))
    else Live(a.modelType, a.filter, Remove(a.content, r))
  }

  /** Refreshing a valid array for a changed record keeps it valid. */
  lemma RefreshValid(a: ModelArray, recs: seq<Record>, r: nat, rec: Record)
    requires ArrayValid(a, recs)
    requires r <= |recs|
    ensures ArrayValid(Refresh(a, r, rec), Replace(recs, r, rec))
  {
    var recs' := Replace(recs, r, rec);
    var a' := Refresh(a, r, rec);
    if a.Live? {
      forall x | 0 <= x < |recs'|
        ensures x in a'.content <==> Belongs(a, recs'[x])
      {
        if x != r {
          assert recs'[x] == recs[x];
        }
      }
    }
  }

  /** Query arrays are filled by appending loaded references. */
  function AppendLoaded(a: ModelArray, refs: seq<nat>): (res: (ModelArray, Change))
    requires a.Query?
    ensures res.0.Query? && res.0.modelType == a.modelType && res.0.query == a.query
    ensures |res.0.content| == |a.content| + |refs|
    ensures res.0.content[..|a.content|] == a.content && res.0.content[|a.content|..] == refs
    ensures res.1 == Change(|a.content|, 0, |refs|)
  {
    (Query(a.modelType, a.query, a.content + refs), Change(|a.content|, 0, |refs|))
  }
}
