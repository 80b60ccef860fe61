/** The adapter as the store sees it: which optional hooks it implements, and
    the calls the store makes on it. */
module Adapters {
  import opened Records
  import opened ModelArrays

  /** Capability flags for the adapter's optional hooks. The singular
      `find`, `findQuery`, `findAll`, `create`, `update` and `deleteModel`
      methods are always available. */
  datatype Adapter = Adapter(
    findMany: bool,
    commit: bool,
    createMany: bool,
    updateMany: bool,
    deleteMany: bool)

  /** Whether the adapter has the bulk method for a bucket: `createMany`,
      `updateMany` or `deleteMany`. */
  predicate HasBulk(a: Adapter, b: Bucket) {
    match b
    case Created => a.createMany
    case Updated => a.updateMany
    case Deleted => a.deleteMany
  }

  /** The records of one type in one bucket, as `eachType` hands them out. */
  datatype Group = Group(modelType: ModelType, refs: seq<nat>)

  /** One call the store makes on the adapter. `BulkCall(Created, …)` is
      `createMany`, `SingleCall(Deleted, …)` is `deleteModel`, and so on. */
  datatype Call =
    | FindCall(modelType: ModelType, id: int)
    | FindManyCall(modelType: ModelType, ids: seq<int>)
    | FindQueryCall(modelType: ModelType, query: Hash, handle: nat)
    | FindAllCall(modelType: ModelType)
    | CommitCall(created: seq<Group>, updated: seq<Group>, deleted: seq<Group>)
    | BulkCall(bucket: Bucket, modelType: ModelType, refs: seq<nat>)
    | SingleCall(bucket: Bucket, modelType: ModelType, ref: nat)
}
