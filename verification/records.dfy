/** A single record (a `DS.Model` instance): its declared attributes, its
    backing data hash, and its lifecycle state machine. */
module Records {
  import opened Wrappers
  import opened Values

  /** An attribute declaration `attr(tag, { key })`: the coercion to apply and an
      optional alternate slot in the backing hash. */
  datatype Attr = Attr(tag: AttrType, key: Option<string>)

  /** A record type (a model class); the value itself is its identity. */
  datatype ModelType = ModelType(name: string, attrs: map<string, Attr>)

  /** The backing data hash of a record. */
  type Hash = map<string, JsValue>

  /** The three kinds of pending change, one dirty bucket each. */
  datatype Bucket = Created | Updated | Deleted

  /** Lifecycle: `Empty` until a fetch starts, `Loading` while it is in flight,
      `Loaded` when clean, `Dirty(b)` while a change of kind `b` awaits commit,
      and `Destroyed` once the adapter has confirmed a deletion. */
  datatype State = Empty | Loading | Loaded | Dirty(bucket: Bucket) | Destroyed

  /** The errors a record or store operation signals to its caller. */
  datatype Error =
    | Conflict           // new data loaded into a record with unsaved changes
    | InvalidTransition  // the event is not handled in the record's current state
    | MissingId          // a hash that must identify a record carries no integer id
    | IdInUse            // a server id already names another record of the type
    | Unmodelled         // deleting a created record that was never committed

  datatype Record = Record(modelType: ModelType, id: Option<int>, state: State, data: Hash)

  predicate IsLoaded(r: Record) {
    r.state.Loaded? || r.state.Dirty?
  }

  predicate IsDirty(r: Record) {
    r.state.Dirty?
  }

  predicate IsDeleted(r: Record) {
    r.state == Dirty(Deleted) || r.state.Destroyed?
  }

  predicate IsNew(r: Record) {
    r.state == Dirty(Created)
  }

  /** The id a hash carries in its `id` slot, if that slot holds an integer. */
  function IdOf(h: Hash): Option<int> {
    if "id" in h && h["id"].Int? then Some(h["id"].i) else None
  }

  /** A record sequence with the record at `r` replaced, or appended when `r`
      is one past the end. */
  function Replace(recs: seq<Record>, r: nat, rec: Record): (recs': seq<Record>)
    requires r <= |recs|
    ensures |recs'| == if r == |recs| then |recs| + 1 else |recs|
    ensures recs'[r] == rec
    ensures forall x :: 0 <= x < |recs| && x != r ==> recs'[x] == recs[x]
  {
    if r == |recs| then recs + [rec] else recs[r := rec]
  }

  // ---------------------------------------------------------------------------
  // Construction and loading

  /** A freshly created record, not yet attached to any data. */
  function NewRecord(t: ModelType): (r: Record)
    ensures r.state == Empty && !IsLoaded(r) && !IsDirty(r)
    ensures r.modelType == t && r.id == None
  {
    Record(t, None, Empty, map[])
  }

  /** The `loadingData` event: a fetch for the record has started. */
  function LoadingData(r: Record): (res: Result<Record, Error>)
    ensures res.Success? <==> r.state == Empty
    ensures res.Success? ==> res.value == r.(state := Loading)
    ensures res.Failure? ==> res.error == InvalidTransition
  {
    if r.state == Empty then Success(r.(state := Loading)) else Failure(InvalidTransition)
  }

  /** The `setData` event: data arrived for a loading record, or fresh data
      replaces that of a clean one. Loading into a record with unsaved changes
      is a conflict. */
  function SetData(r: Record, h: Hash): (res: Result<Record, Error>)
    ensures res == Failure(Conflict) <==> IsDirty(r)
    ensures res.Success? <==> r.state == Loading || r.state == Loaded
    ensures res.Success? ==> res.value.state == Loaded && res.value.data == h
    ensures res.Success? ==> res.value.modelType == r.modelType && res.value.id == r.id
  {
    match r.state
    case Loading => Success(r.(state := Loaded, data := h))
    case Loaded => Success(r.(data := h))
    case Dirty(_) => Failure(Conflict)
    case _ => Failure(InvalidTransition)
  }

  /** A record created locally with an initial hash: new, dirty in `created`. */
  function CreatedRecord(t: ModelType, h: Hash): (r: Record)
    ensures IsNew(r) && IsDirty(r) && IsLoaded(r) && !IsDeleted(r)
    ensures r.modelType == t && r.id == None && r.data == h
  {
    Record(t, None, Dirty(Created), h)
  }

  // ---------------------------------------------------------------------------
  // Attribute access

  /** The hash slot an attribute reads and writes: its `key` option if it
      declares one, else its own name. */
  function Slot(t: ModelType, name: string): string {
    if name in t.attrs && t.attrs[name].key.Some? then t.attrs[name].key.value else name
  }

  /** Read an attribute. A declared attribute is coerced from its slot at read
      time (an absent slot reads as null); an undeclared one reads the raw slot
      of the same name, and is undefined (`None`) when that slot is absent. */
  function Get(r: Record, name: string): (v: Option<JsValue>)
    ensures name in r.modelType.attrs ==> v.Some? && Conforms(r.modelType.attrs[name].tag, v.value)
    ensures name !in r.modelType.attrs ==> (v.Some? <==> name in r.data)
    ensures name !in r.modelType.attrs && name in r.data ==> v == Some(r.data[name])
  {
    var slot := Slot(r.modelType, name);
    if name in r.modelType.attrs then
      Some(Coerce(r.modelType.attrs[name].tag, if slot in r.data then r.data[slot] else Null))
    else if name in r.data then Some(r.data[name])
    else None
  }

  /** The value a write of `v` to attribute `name` stores in the hash. */
  function Stored(t: ModelType, name: string, v: JsValue): JsValue {
    if name in t.attrs then Coerce(t.attrs[name].tag, v) else v
  }

  /** Write an attribute of a loaded record. Only the attribute's slot changes;
      a clean record becomes dirty in `updated`, a dirty one keeps its bucket. */
  function Set(r: Record, name: string, v: JsValue): (res: Result<Record, Error>)
    ensures res.Success? <==> IsLoaded(r)
    ensures res.Failure? ==> res.error == InvalidTransition
    ensures res.Success? ==> res.value.modelType == r.modelType && res.value.id == r.id
    ensures res.Success? ==> res.value.data.Keys == r.data.Keys + {Slot(r.modelType, name)}
    ensures res.Success? ==> forall k :: k in r.data && k != Slot(r.modelType, name) ==> res.value.data[k] == r.data[k]
    ensures res.Success? ==> res.value.state == (if r.state == Loaded then Dirty(Updated) else r.state)
  {
    if !IsLoaded(r) then Failure(InvalidTransition)
    else
      var data := r.data[Slot(r.modelType, name) := Stored(r.modelType, name, v)];
      Success(r.(state := if r.state == Loaded then Dirty(Updated) else r.state, data := data))
  }

  /** The `deleteModel` event: a loaded record moves to the `deleted` bucket,
      whatever change was pending before. */
  function DeleteModel(r: Record): (res: Result<Record, Error>)
    ensures res.Success? <==> r.state == Loaded || r.state == Dirty(Updated) || r.state == Dirty(Deleted)
    ensures r.state == Dirty(Created) ==> res == Failure(Unmodelled)
    ensures res.Success? ==> res.value == r.(state := Dirty(Deleted))
    ensures res.Success? ==> IsDeleted(res.value) && IsDirty(res.value)
  {
    match r.state
    case Loaded => Success(r.(state := Dirty(Deleted)))
    case Dirty(Updated) => Success(r.(state := Dirty(Deleted)))
    case Dirty(Deleted) => Success(r)
    case Dirty(Created) => Failure(Unmodelled)
    case _ => Failure(InvalidTransition)
  }

  // ---------------------------------------------------------------------------
  // Acknowledgments

  /** The adapter confirmed an update: the record is clean again. */
  function DidUpdate(r: Record): (res: Result<Record, Error>)
    ensures res.Success? <==> r.state == Dirty(Updated)
    ensures res.Success? ==> res.value == r.(state := Loaded) && !IsDirty(res.value)
  {
    if r.state == Dirty(Updated) then Success(r.(state := Loaded)) else Failure(InvalidTransition)
  }

  /** The adapter confirmed a deletion: the record is deleted and clean. */
  function DidDelete(r: Record): (res: Result<Record, Error>)
    ensures res.Success? <==> r.state == Dirty(Deleted)
    ensures res.Success? ==> IsDeleted(res.value) && !IsDirty(res.value) && !IsLoaded(res.value)
    ensures res.Success? ==> res.value == r.(state := Destroyed)
  {
    if r.state == Dirty(Deleted) then Success(r.(state := Destroyed)) else Failure(InvalidTransition)
  }

  /** The adapter confirmed a creation with the server's hash: the record takes
      the server's id and data and is clean. */
  function DidCreate(r: Record, h: Hash): (res: Result<Record, Error>)
    ensures res.Success? <==> r.state == Dirty(Created) && IdOf(h).Some?
    ensures r.state == Dirty(Created) && IdOf(h).None? ==> res == Failure(MissingId)
    ensures res.Success? ==> res.value.state == Loaded && res.value.data == h
    ensures res.Success? ==> res.value.id == IdOf(h) && res.value.modelType == r.modelType
  {
    if r.state != Dirty(Created) then Failure(InvalidTransition)
    else if IdOf(h).None? then Failure(MissingId)
    else Success(r.(id := IdOf(h), state := Loaded, data := h))
  }

  // ---------------------------------------------------------------------------
  // Properties

  /** `empty`, then `loadingData`, then `setData` ends in `loaded`, clean,
      holding exactly the data given. */
  lemma LoadLifecycle(t: ModelType, h: Hash)
    ensures NewRecord(t).state == Empty
    ensures LoadingData(NewRecord(t)).Success?
    ensures var r := SetData(LoadingData(NewRecord(t)).value, h);
      r.Success? && r.value.state == Loaded && !IsDirty(r.value) && r.value.data == h
  {
  }

  /** Reading an attribute back after writing it gives the write's coerced
      value, the same value loading it through `setData` would give. */
  lemma ReadAfterWrite(r: Record, name: string, v: JsValue)
    requires IsLoaded(r)
    ensures Set(r, name, v).Success?
    ensures name in r.modelType.attrs ==>
      Get(Set(r, name, v).value, name) == Some(Coerce(r.modelType.attrs[name].tag, v))
    ensures name !in r.modelType.attrs ==> Get(Set(r, name, v).value, name) == Some(v)
  {
    if name in r.modelType.attrs {
      CoerceIdempotent(r.modelType.attrs[name].tag, v);
    }
  }

  /** Loading a raw value and writing it through an attribute read the same. */
  lemma LoadAndSetAgree(r: Record, name: string, v: JsValue)
    requires r.state == Loading
    requires name in r.modelType.attrs
    ensures var loaded := SetData(r, map[Slot(r.modelType, name) := v]).value;
      var written := Set(SetData(r, map[]).value, name, v).value;
      Get(loaded, name) == Get(written, name)
  {
    CoerceIdempotent(r.modelType.attrs[name].tag, v);
  }

  /** Writing an attribute leaves every other attribute's reading unchanged,
      unless the other attribute shares its slot. */
  lemma WriteFrame(r: Record, name: string, other: string, v: JsValue)
    requires IsLoaded(r)
    requires Slot(r.modelType, other) != Slot(r.modelType, name)
    ensures Get(Set(r, name, v).value, other) == Get(r, other)
  {
  }

  /** An attribute declared with `key` reads and writes that slot of the
      hash; the slot of its own name is left alone. */
  lemma KeyOption(r: Record, name: string, key: string, v: JsValue)
    requires IsLoaded(r) && name in r.modelType.attrs && name != key
    requires r.modelType.attrs[name].key == Some(key)
    ensures key in r.data ==> Get(r, name) == Some(Coerce(r.modelType.attrs[name].tag, r.data[key]))
    ensures var w := Set(r, name, v).value;
      && key in w.data && w.data[key] == Coerce(r.modelType.attrs[name].tag, v)
      && (name in w.data <==> name in r.data)
      && (name in r.data ==> w.data[name] == r.data[name])
  {
  }
}
