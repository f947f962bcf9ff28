/** Small failure-carrying datatypes shared by every module. */
module Wrappers {

  /** A nullable value: `None` stands for SQL NULL, JavaScript null or undefined. */
  datatype Option<+T> = None | Some(value: T)

  /** The outcome of a request handler: a value, or the HTTP status of the error reply. */
  datatype Result<+T> = Ok(value: T) | Err(status: int)

  /** A field of a request body: absent (`undefined`) or given with a value (which may be null). */
  datatype Field<+T> = Absent | Given(value: T)
}
