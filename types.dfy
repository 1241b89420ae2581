/** Values shared by the behavior service: stored rows, RPC requests and
    responses, and the error taxonomy of the RPC layer. */
module BehaviorTypes {

  /** Timestamps are opaque epoch-millisecond integers. */
  type Time = int

  /** The protobuf `int32` fields (page, page size). */
  type Int32 = x: int | -0x8000_0000 <= x < 0x8000_0000

  /** The `int64` the corrected offset is computed in. */
  type Int64 = x: int | -0x8000_0000_0000_0000 <= x < 0x8000_0000_0000_0000

  datatype Option<T> = None | Some(value: T)

  /** The gRPC status codes the handlers use. */
  datatype Code = InvalidArgument | NotFound | Internal

  /** A call-level error: its status code and its bracketed tag, e.g. "RB001". */
  datatype Error = Error(code: Code, tag: string)

  datatype Result<T> = Ok(value: T) | Err(error: Error)

  /** One row of the behaviors table; `deletedAt` set marks a soft-deleted row. */
  datatype Row = Row(id: int, key: string, userId: int, data: string,
                     createdAt: Time, updatedAt: Time, deletedAt: Option<Time>)
  {
    predicate Live() { deletedAt.None? }
  }

  /** The item of RecordBehavior and of BatchRecordBehavior. */
  datatype RecordRequest = RecordRequest(key: string, userId: int, data: string)

  datatype RecordResponse = RecordResponse(success: bool, id: int)

  /** The proto `Behavior` message: a row as the caller sees it. */
  datatype Behavior = Behavior(id: int, key: string, userId: int, data: string,
                               createdAt: Time, updatedAt: Time)

  /** The field copy GetBehavior and ListBehaviors perform. */
  function ToBehavior(row: Row): (b: Behavior)
    ensures b.id == row.id && b.key == row.key && b.userId == row.userId && b.data == row.data
    ensures b.createdAt == row.createdAt && b.updatedAt == row.updatedAt
  {
    Behavior(row.id, row.key, row.userId, row.data, row.createdAt, row.updatedAt)
  }

  /** The row RecordBehavior and BatchRecordBehavior build before the insert:
      fields copied from the request, both timestamps the current time, not deleted. */
  function NewRow(id: int, req: RecordRequest, now: Time): (row: Row)
    ensures row.id == id && row.key == req.key && row.userId == req.userId && row.data == req.data
    ensures row.createdAt == now && row.updatedAt == now && row.Live()
  {
    Row(id, req.key, req.userId, req.data, now, now, None)
  }

  /** The largest batch either batch call accepts, and the largest page size. */
  const MaxBatch := 100
  const MaxPageSize := 100
  const DefaultPageSize := 10
}
