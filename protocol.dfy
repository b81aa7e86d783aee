/** The messages of the coordinator's single RPC (src/mr/rpc.go). */
module Protocol {
  import opened GoStrings

  /** The five task-kind tags (the TaskType* string constants). */
  datatype TaskType = None | Map | Reduce | Sleep | Exit

  /** What a worker sends: the task it just finished (None on first contact
      and after a Sleep). For a Map report `files` is indexed by reduce
      bucket, an empty entry meaning the bucket got nothing. The worker
      code calls this shape TaskArgs. */
  datatype TaskRequest = TaskRequest(kind: TaskType, id: int, files: seq<GoString>)

  /** What the coordinator answers. Fields the coordinator does not set keep
      Go's zero values. */
  datatype TaskResponse = TaskResponse(kind: TaskType, id: int, files: seq<GoString>, nReduce: int)

  /** A response that carries only its kind (Sleep or Exit). */
  function Bare(kind: TaskType): TaskResponse {
    TaskResponse(kind, 0, [], 0)
  }
}
