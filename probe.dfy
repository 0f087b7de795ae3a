/** Configuration of the nginx integration tests and the abstraction of one HTTP request.
    The network is not modelled: every `requests.get` call is replaced by the Outcome it yields. */
module Probe {
  /** The three server blocks' ports. They only record the configuration: the model
      abstracts the URLs away, so no operation takes a port. */
  const PortHtml: int := 8080
  const PortError: int := 8081
  const PortHttps: int := 8443

  /** Readiness budget: attempts are numbered 1..MaxRetries. */
  const MaxRetries: nat := 10

  const OkCode: int := 200
  const ExpectedErrorCode: int := 403
  const ExpectedContent: string := "Hello from Nginx!"

  /** Size of one rate-limit burst and the status that marks a limited request
      (429 Too Many Requests, section 4 of RFC 6585). */
  const RateLimitRequests: nat := 20
  const RateLimitCode: int := 429

  /** Number of leading characters of a body shown when content is missing. */
  const SnippetLength: nat := 200

  /** A received response: its status code and its decoded text. */
  datatype Response = Response(status: int, text: string)

  /** What one request yields: a response, or one of the two kinds of request
      exception the tests tell apart. */
  datatype Outcome =
    | Got(resp: Response)
      /** `requests.exceptions.ConnectionError`: refused, unreachable, connect timeout. */
    | ConnectionError
      /** Any other `requests.exceptions.RequestException`, such as a read timeout. */
    | RequestError
}
