/** The uniform response every controller operation returns. */
module Envelope {
  import opened Wrappers
  import opened Curriculum

  datatype Status = Success | Failure

  /** A named payload, as `Result.data(name, value)` attaches it. */
  datatype Payload = Payload(name: string, entries: seq<Entry>)

  datatype Result = Result(
    status: Status,
    message: string,
    description: Option<string>,
    data: Option<Payload>
  )

}
