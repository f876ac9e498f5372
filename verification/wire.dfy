/** What travels between the client and the remote store: the outcome
    wrappers, the errors the client raises, the write requests it sends and
    the answers it receives. */
module Wire {
  import opened Values

  datatype Option<+T> = None | Some(value: T)

  datatype Result<+T, +E> = Ok(value: T) | Err(error: E)

  /** The exceptions the modelled code raises. */
  datatype Failure =
    | Unauthorized(node: string, key: string)            // a read answered 401
    | ReadFailed(node: string, key: string, status: int)  // a read answered anything else but 200
    | NotAMapping                                        // `{**xs}` on a list: a Python TypeError

  /** HTTP verbs of the write requests. */
  datatype Verb = Put | Patch | Delete

  /** One write request: its verb, the node it addresses and its JSON body
      (a DELETE carries none). */
  datatype Request = Request(verb: Verb, node: string, payload: Option<Value>)

  /** The answer to a read: its status code and, for 200, the decoded body
      (JSON `null` decodes to `Null`). */
  datatype Response = Response(status: int, body: Value)

  /** Everything one call consults but does not compute: the remote's
      answer to a read of `(node, key)` as it stands during that call, the
      status it gives a write request, and Python's `str()` used when a
      caller asks for string formatting. */
  datatype Env = Env(read: (string, string) -> Response, status: Request -> int, show: Value -> string)
}
