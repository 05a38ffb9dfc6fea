/** Option and the result of one request to the remote catalogue service. */
module Wrappers {

  datatype Option<+T> = None | Some(value: T)

  /** What one HTTP request yields: the decoded response body, or a transport
      failure (network error, timeout or a non-2xx status, which the client
      does not tell apart). */
  datatype Fetch<+T> = Received(data: T) | TransportError
}
