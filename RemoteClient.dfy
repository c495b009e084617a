/** The client of the remote People API: a cached bearer token, and four
    requests whose failures are mapped to a null list, a rethrown exception
    or `false`. The network is not modelled: every call is given, as a
    parameter, what the token endpoint and the API endpoint answer. */
module RemoteClient {
  import opened Records

  /** The answer of one HTTP exchange: a success status with its decoded
      body, or any failure (transport, non-success status, bad body). */
  datatype Response<+T> = Success(value: T) | Failure

  /** What one public operation meets on the network: the token endpoint's
      answer (consulted only while no token is cached) and the API's answer. */
  datatype Exchange<+T> = Exchange(auth: Response<string>, reply: Response<T>)

  /** The requests the client sends, each API request with the bearer token
      it carries. */
  datatype Request =
    | FetchToken                            // POST /Token
    | Get(bearer: string)                   // GET api/People
    | Post(bearer: string, person: Person)  // POST api/People
    | Put(bearer: string, id: int, person: Person)  // PUT api/People/{id}
    | Delete(bearer: string, id: int)       // DELETE api/People/{id}

  /** The token after one call of Initialize: fetched only while empty; a
      failed fetch leaves it empty (a null token is written as ""). */
  function NextToken(token: string, auth: Response<string>): (r: string)
    ensures token != "" ==> r == token
    ensures r != "" <==> token != "" || (auth.Success? && auth.value != "")
    ensures token == "" && auth.Success? ==> r == auth.value
  {
    if token != "" then token
    else if auth.Success? then auth.value
    else ""
  }

  /** The token request Initialize sends for a given cached token. */
  function Fetched(token: string): (r: seq<Request>)
    ensures r == [] <==> token != ""
    ensures |r| <= 1 && forall i :: 0 <= i < |r| ==> r[i] == FetchToken
  {
    if token == "" then [FetchToken] else []
  }

  /** The token after a run of calls that meet `auths` in turn. */
  function TokenAfter(token: string, auths: seq<Response<string>>): string
    decreases auths
  {
    if auths == [] then token else TokenAfter(NextToken(token, auths[0]), auths[1..])
  }

  /** The number of token requests sent during that run. */
  function FetchesDuring(token: string, auths: seq<Response<string>>): nat
    decreases auths
  {
    if auths == [] then 0
    else |Fetched(token)| + FetchesDuring(NextToken(token, auths[0]), auths[1..])
  }

  /** One more call at the end of a run moves the token once more. */
  lemma {:induction false} TokenAfterSnoc(token: string, auths: seq<Response<string>>, a: Response<string>)
    ensures TokenAfter(token, auths + [a]) == NextToken(TokenAfter(token, auths), a)
    decreases auths
  {
    if auths != [] {
      assert (auths + [a])[1..] == auths[1..] + [a];
      TokenAfterSnoc(NextToken(token, auths[0]), auths[1..], a);
    }
  }

  /** The index of the first answer that yields a non-empty token, or
      `|auths|` if there is none. */
  function FirstToken(auths: seq<Response<string>>): (i: nat)
    ensures i <= |auths|
    ensures forall j :: 0 <= j < i ==> !(auths[j].Success? && auths[j].value != "")
    ensures i < |auths| ==> auths[i].Success? && auths[i].value != ""
  {
    if auths == [] then 0
    else if auths[0].Success? && auths[0].value != "" then 0
    else 1 + FirstToken(auths[1..])
  }

  /** Once a token is cached, no later call fetches again or changes it. */
  lemma {:induction false} CachedTokenIsKept(token: string, auths: seq<Response<string>>)
    requires token != ""
    ensures TokenAfter(token, auths) == token
    ensures FetchesDuring(token, auths) == 0
  {
    if auths != [] {
      CachedTokenIsKept(token, auths[1..]);
    }
  }

  /** From an empty cache, every call fetches until the first fetch that
      yields a token, and no call fetches after it; the token ends non-empty
      exactly when such a fetch happened, and then holds that fetch's
      token. */
  lemma {:induction false} FetchUntilFirstToken(auths: seq<Response<string>>)
    ensures FetchesDuring("", auths) == if FirstToken(auths) < |auths| then FirstToken(auths) + 1 else |auths|
    ensures TokenAfter("", auths) != "" <==> FirstToken(auths) < |auths|
    ensures FirstToken(auths) < |auths| ==> TokenAfter("", auths) == auths[FirstToken(auths)].value
  {
    if auths != [] {
      var t := NextToken("", auths[0]);
      if t != "" {
        CachedTokenIsKept(t, auths[1..]);
      } else {
        FetchUntilFirstToken(auths[1..]);
      }
    }
  }

  /** The process-wide client: the cached token and the requests sent so far. */
  class WebApiClient {
    var token: string
    var log: seq<Request>

    constructor ()
      ensures token == "" && log == []
    {
      token, log := "", [];
    }

    /** Initialize: fetch a token only while none is cached; a failed fetch
        is caught and leaves the cache empty. */
    method Initialize(auth: Response<string>)
      modifies this
      ensures token == NextToken(old(token), auth)
      ensures log == old(log) + Fetched(old(token))
    {
      if token == "" {
        log := log + [FetchToken];
        if auth.Success? {
          token := auth.value;
        }
      }
    }

    /** GetPeopleAsync: the remote collection, or null on any failure. */
    method GetPeople(ex: Exchange<seq<Person>>) returns (r: Option<seq<Person>>)
      modifies this
      ensures token == NextToken(old(token), ex.auth)
      ensures log == old(log) + Fetched(old(token)) + [Get(token)]
      ensures ex.reply.Success? ==> r == Some(ex.reply.value)
      ensures ex.reply.Failure? ==> r == None
    {
      Initialize(ex.auth);
      log := log + [Get(token)];
      if ex.reply.Success? {
        r := Some(ex.reply.value);
      } else {
        r := None;
      }
    }

    /** PostPersonAsync: the id the server assigned, or the failure rethrown. */
    method PostPerson(person: Person, ex: Exchange<int>) returns (r: Result<int, Fault>)
      modifies this
      ensures token == NextToken(old(token), ex.auth)
      ensures log == old(log) + Fetched(old(token)) + [Post(token, person)]
      ensures ex.reply.Success? ==> r == Ok(ex.reply.value)
      ensures ex.reply.Failure? ==> r == Err(RemoteError)
    {
      Initialize(ex.auth);
      log := log + [Post(token, person)];
      if ex.reply.Success? {
        r := Ok(ex.reply.value);
      } else {
        r := Err(RemoteError);
      }
    }

    /** UpdatePersonAsync: PUT to the address of `person.Id`; true exactly
        when the request succeeded, never throws. */
    method UpdatePerson(person: Person, ex: Exchange<()>) returns (ok: bool)
      modifies this
      ensures token == NextToken(old(token), ex.auth)
      ensures log == old(log) + Fetched(old(token)) + [Put(token, person.Id, person)]
      ensures ok <==> ex.reply.Success?
    {
      Initialize(ex.auth);
      log := log + [Put(token, person.Id, person)];
      ok := ex.reply.Success?;
    }

    /** DeletePersonAsync: DELETE the address of `person.Id`, nothing else of
        `person` is sent; true exactly when the request succeeded, never
        throws. */
    method DeletePerson(person: Person, ex: Exchange<()>) returns (ok: bool)
      modifies this
      ensures token == NextToken(old(token), ex.auth)
      ensures log == old(log) + Fetched(old(token)) + [Delete(token, person.Id)]
      ensures ok <==> ex.reply.Success?
    {
      Initialize(ex.auth);
      log := log + [Delete(token, person.Id)];
      ok := ex.reply.Success?;
    }
  }
}
