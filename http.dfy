/** What the crawler sees of an HTTP request made with `requests.get`. */
module Http {

  /** The reply to a GET: either the request never produced a response
      (connection refused, name not resolved, timeout), or a response with
      its status code, its body decoded as text and its raw body. */
  datatype Reply = TransportError | Response(status: int, text: string, content: seq<bv8>)

  /** `requests` treats a response as a failure exactly when its status is a
      client error (400-499) or a server error (500-599): that is when
      `raise_for_status` raises and when the response is falsy. */
  predicate IsErrorStatus(status: int) {
    400 <= status < 600
  }

  predicate Succeeded(reply: Reply) {
    reply.Response? && !IsErrorStatus(reply.status)
  }
}
