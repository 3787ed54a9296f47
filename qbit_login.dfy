/**
 * internal/api/qbittorrent/login.go: the qBittorrent login endpoint. The
 * handler keeps one flag, set by the first successful login and never
 * cleared; while it is set every login answers Ok. Credentials come from
 * the query string of a GET or from a `key=value&key=value` POST body.
 */
module QbitLogin {
  import opened Wrappers
  import opened Text
  import opened Http

  datatype Credentials = Credentials(username: string, password: string)

  // ---------------------------------------------------------------------
  // parseLoginBody

  /**
   * One `&` segment's effect on the credentials read so far: `None` when it
   * does not split on `=` into exactly two pieces; `username` and `password`
   * overwrite their field, any other key is ignored.
   */
  function Assign(auth: Credentials, segment: string): Option<Credentials>
  {
    var pair := Split(segment, '=');
    if |pair| != 2 then None
    else if pair[0] == "username" then Some(auth.(username := pair[1]))
    else if pair[0] == "password" then Some(auth.(password := pair[1]))
    else Some(auth)
  }

  /** The credentials after reading `segments` in order, starting from blank ones. */
  function Parsed(segments: seq<string>): Option<Credentials>
  {
    if segments == [] then Some(Credentials("", ""))
    else
      match Parsed(segments[..|segments| - 1])
      case None => None
      case Some(auth) => Assign(auth, segments[|segments| - 1])
  }

  /** What `parseLoginBody` returns for a body: `None` stands for its nil result. */
  function ParsedBody(body: string): Option<Credentials>
  {
    Parsed(Split(body, '&'))
  }

  /** `parseLoginBody`: read the segments in order, giving up at the first malformed one. */
  method ParseLoginBody(body: string) returns (r: Option<Credentials>)
    ensures r == ParsedBody(body)
  {
    var segments := Split(body, '&');
    var auth := Credentials("", "");
    for i := 0 to |segments|
      invariant Parsed(segments[..i]) == Some(auth)
    {
      assert segments[..i + 1][..i] == segments[..i];
      var pair := Split(segments[i], '=');
      if |pair| != 2 {
        assert Parsed(segments[..i + 1]) == None;
        ParsedNoneExtends(segments, i + 1);
        return None;
      }
      if pair[0] == "username" {
        auth := auth.(username := pair[1]);
      } else if pair[0] == "password" {
        auth := auth.(password := pair[1]);
      }
    }
    assert segments[..|segments|] == segments;
    r := Some(auth);
  }

  /** Once a prefix of the segments is malformed, so is every longer prefix. */
  lemma {:induction false} ParsedNoneExtends(segments: seq<string>, k: nat)
    requires k <= |segments|
    requires Parsed(segments[..k]) == None
    ensures Parsed(segments) == None
    decreases |segments| - k
  {
    if k < |segments| {
      assert segments[..k + 1][..k] == segments[..k];
      ParsedNoneExtends(segments, k + 1);
    } else {
      assert segments[..k] == segments;
    }
  }

  /** Every segment is exactly one `key=value` pair. */
  predicate AllPairs(segments: seq<string>)
  {
    forall i :: 0 <= i < |segments| ==> |Split(segments[i], '=')| == 2
  }

  /** The value of the last `key=…` pair among the segments, `""` when there is none. */
  function LastValue(segments: seq<string>, key: string): string
  {
    if segments == [] then ""
    else
      var pair := Split(segments[|segments| - 1], '=');
      if |pair| == 2 && pair[0] == key then pair[1] else LastValue(segments[..|segments| - 1], key)
  }

  /**
   * The body parses exactly when every segment is one pair, and then the
   * credentials are the last `username` and the last `password` given, or
   * `""` for one that is not given.
   */
  lemma {:induction false} ParsedExact(segments: seq<string>)
    ensures Parsed(segments).Some? <==> AllPairs(segments)
    ensures Parsed(segments).Some? ==>
      Parsed(segments).value == Credentials(LastValue(segments, "username"), LastValue(segments, "password"))
  {
    if segments != [] {
      var init := segments[..|segments| - 1];
      ParsedExact(init);
      assert AllPairs(segments) <==> AllPairs(init) && |Split(segments[|segments| - 1], '=')| == 2 by {
        assert forall i :: 0 <= i < |init| ==> init[i] == segments[i];
      }
    }
  }

  /** A body `username=u&password=p`, with `u` and `p` free of `&` and `=`, gives `u` and `p`. */
  lemma LoginBodyRoundTrip(u: string, p: string)
    requires '&' !in u && '=' !in u && '&' !in p && '=' !in p
    ensures ParsedBody("username=" + u + "&password=" + p) == Some(Credentials(u, p))
  {
    var first := "username=" + u;
    var second := "password=" + p;
    SplitJoin([first, second], '&');
    assert [first, second][1..] == [second];
    assert Join([first, second], '&') == "username=" + u + "&password=" + p;
    SplitJoin(["username", u], '=');
    assert ["username", u][1..] == [u];
    assert Join(["username", u], '=') == first;
    SplitJoin(["password", p], '=');
    assert ["password", p][1..] == [p];
    assert Join(["password", p], '=') == second;
    assert "username=" + u == "username" + "=" + u;
    assert "password=" + p == "password" + "=" + p;
    assert Split(first, '=') == ["username", u];
    assert Split(second, '=') == ["password", p];
    var segments := Split("username=" + u + "&password=" + p, '&');
    assert segments == [first, second];
    assert segments[..1] == [first] && segments[..1][..0] == [];
    assert Parsed(segments[..1]) == Some(Credentials(u, ""));
  }

  /** An empty body is not a pair, so it parses to the nil result. */
  lemma EmptyBodyIsNil()
    ensures ParsedBody("") == None
  {
    assert Split("", '&') == [""];
    assert Split("", '=') == [""];
    assert Split("", '&')[..0] == [];
  }

  // ---------------------------------------------------------------------
  // login

  /**
   * The handler's answer: `Ok` and `Fails` as sent, `Crash` for the
   * dereference of `parseLoginBody`'s nil result.
   */
  datatype Outcome = LoginOk | LoginFails | Crash

  /** The credentials a request supplies: from the query of a GET, from the body of a POST. */
  function Supplied(req: Request): Option<Credentials>
  {
    match req
    case Get(query) => Some(Credentials(QueryParam(query, "username"), QueryParam(query, "password")))
    case Post(body) => ParsedBody(body)
  }

  /**
   * One login against the configured `username` and `password`: the answer
   * and the flag afterwards. An authenticated handler answers Ok whatever is
   * supplied; otherwise the flag is set exactly when Ok is answered, which
   * is exactly when both supplied credentials match.
   */
  function LoginResult(authenticated: bool, username: string, password: string, req: Request): (r: (Outcome, bool))
    ensures authenticated ==> r == (LoginOk, true)
    ensures r.1 <==> r.0 == LoginOk
    ensures !authenticated ==> (r.0 == LoginOk <==> Supplied(req) == Some(Credentials(username, password)))
    ensures r.0 == Crash <==> !authenticated && req.Post? && ParsedBody(req.body).None?
  {
    if authenticated then (LoginOk, true)
    else
      match Supplied(req)
      case None => (Crash, false)
      case Some(auth) =>
        if auth.username != username || auth.password != password then (LoginFails, false)
        else (LoginOk, true)
  }

  /** The outcomes of a sequence of logins, starting with the given flag. */
  function Replay(authenticated: bool, username: string, password: string, reqs: seq<Request>): (outcomes: seq<Outcome>)
    ensures |outcomes| == |reqs|
    decreases |reqs|
  {
    if reqs == [] then []
    else
      var r := LoginResult(authenticated, username, password, reqs[0]);
      [r.0] + Replay(r.1, username, password, reqs[1..])
  }

  /** After the first Ok, every later login in the sequence is Ok too. */
  lemma {:induction false} OkIsForever(authenticated: bool, username: string, password: string, reqs: seq<Request>, i: nat, j: nat)
    requires i <= j < |reqs|
    requires Replay(authenticated, username, password, reqs)[i] == LoginOk
    ensures Replay(authenticated, username, password, reqs)[j] == LoginOk
    decreases |reqs|
  {
    var r := LoginResult(authenticated, username, password, reqs[0]);
    if i == 0 {
      if j > 0 {
        AuthenticatedReplay(username, password, reqs[1..], j - 1);
      }
    } else {
      OkIsForever(r.1, username, password, reqs[1..], i - 1, j - 1);
    }
  }

  /** An authenticated handler answers Ok to every login. */
  lemma {:induction false} AuthenticatedReplay(username: string, password: string, reqs: seq<Request>, j: nat)
    requires j < |reqs|
    ensures Replay(true, username, password, reqs)[j] == LoginOk
    decreases |reqs|
  {
    if j > 0 {
      AuthenticatedReplay(username, password, reqs[1..], j - 1);
    }
  }

  // ---------------------------------------------------------------------
  // The handler

  class AuthApi {
    const username: string
    const password: string
    /** Whether the cache holds the `auth` entry. */
    var authenticated: bool

    constructor (username: string, password: string)
      ensures this.username == username && this.password == password
      ensures !authenticated
    {
      this.username := username;
      this.password := password;
      authenticated := false;
    }

    /** `login`: answer from the cache, or check the supplied credentials and cache a success. */
    method Login(req: Request) returns (o: Outcome)
      modifies this
      ensures (o, authenticated) == LoginResult(old(authenticated), username, password, req)
    {
      if authenticated {
        return LoginOk;
      }
      var auth: Credentials;
      if req.Post? {
        var parsed := ParseLoginBody(req.body);
        if parsed.None? {
          return Crash;
        }
        auth := parsed.value;
      } else {
        auth := Credentials(QueryParam(req.query, "username"), QueryParam(req.query, "password"));
      }
      if auth.username != username || auth.password != password {
        return LoginFails;
      }
      authenticated := true;
      o := LoginOk;
    }
  }
}
