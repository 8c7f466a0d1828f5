/**
 * Small shared vocabulary: the optional value JavaScript writes as null/undefined and
 * Python as None, raw bytes, and connection ids.
 */
module Common {

  datatype Option<+T> = None | Some(value: T)

  /** Raw bytes: a file chunk, an upload's content, a serialised embedding. */
  type Bytes = seq<bv8>

  /** A Socket.IO connection id, the key of both the server's and the browsers' tables. */
  type Sid = string

}
