/**
 * What the qBittorrent-compatible handlers read from an echo request: the
 * method, the query parameters of a GET and the raw body of a POST. Every
 * handler answers either `Ok` (200) or `Fails` (500 "Fails.").
 */
module Http {
  datatype Request = Get(query: map<string, string>) | Post(body: string)

  /** `c.QueryParam(key)`: the parameter's value, `""` when it is absent. */
  function QueryParam(query: map<string, string>, key: string): (v: string)
    ensures key in query ==> v == query[key]
    ensures key !in query ==> v == ""
  {
    if key in query then query[key] else ""
  }

  /** A handler's answer: `Fails(c)` or a 200 carrying `value`. */
  datatype Reply<+T> = Fails | Ok(value: T)
}
