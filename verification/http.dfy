/** What the crawler sees of one HTTP GET: a status code and a decoded body.
    The request itself is not modelled; its answers are inputs. */
module Http {

  const OK := 200
  const FORBIDDEN := 403

  datatype Response<B> = Response(status: int, body: B)

  /** One call site that is retried once on 403: `first` is the answer to the first
      request and `retry` the answer to the request repeated after the quota wait. */
  datatype Exchange<B> = Exchange(first: Response<B>, retry: Response<B>)

  /** The response the caller goes on with: a 403 is retried exactly once and the
      retry's answer is final, whatever its status. */
  function Final<B>(e: Exchange<B>): (r: Response<B>)
    ensures r == e.first || r == e.retry
    ensures e.first.status != FORBIDDEN ==> r == e.first
    ensures e.first.status == FORBIDDEN ==> r == e.retry
    ensures r.status == FORBIDDEN ==> e.first.status == FORBIDDEN && e.retry.status == FORBIDDEN
  {
    if e.first.status == FORBIDDEN then e.retry else e.first
  }
}
