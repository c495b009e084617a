/** The push the application makes when it goes to sleep: the local records
    whose names the server does not know are posted to it. The diff is
    computed by pure functions (a set of remote names, a filter, a first-match
    lookup); the posts are made by loops over the client. */
module App {
  import opened Records
  import LocalStore
  import opened RemoteClient

  /** The HashSet of the names of the remote records. */
  function RemoteNames(remote: seq<Person>): (names: set<string>)
    ensures forall i :: 0 <= i < |remote| ==> remote[i].Name in names
    ensures forall n :: n in names ==> exists i :: 0 <= i < |remote| && remote[i].Name == n
  {
    set p | p in remote :: p.Name
  }

  /** The local records whose name is not in `names`, in local order. */
  function Unmatched(local: seq<Person>, names: set<string>): (diff: seq<Person>)
    ensures forall p :: p in diff <==> p in local && p.Name !in names
  {
    if local == [] then []
    else
      var last := local[|local| - 1];
      assert local == local[..|local| - 1] + [last];
      Unmatched(local[..|local| - 1], names) + (if last.Name in names then [] else [last])
  }

  /** The filter keeps local order: filtering two runs of records one after
      the other gives the two filtered runs one after the other. */
  lemma {:induction false} UnmatchedAppend(a: seq<Person>, b: seq<Person>, names: set<string>)
    ensures Unmatched(a + b, names) == Unmatched(a, names) + Unmatched(b, names)
    decreases |b|
  {
    if b == [] {
      assert a + b == a;
    } else {
      var init, last := b[..|b| - 1], b[|b| - 1];
      var kept := if last.Name in names then [] else [last];
      assert (a + b)[..|a + b| - 1] == a + init;
      assert (a + b)[|a + b| - 1] == last;
      assert Unmatched(a + b, names) == Unmatched(a + init, names) + kept;
      UnmatchedAppend(a, init, names);
      assert Unmatched(b, names) == Unmatched(init, names) + kept;
    }
  }

  /** `FirstOrDefault(x => x.Name == name)`: the first record with that name,
      or null when there is none. */
  function FirstOrDefault(ps: seq<Person>, name: string): (r: Option<Person>)
    ensures r.None? <==> forall i :: 0 <= i < |ps| ==> ps[i].Name != name
    ensures r.Some? ==> exists i :: 0 <= i < |ps| && ps[i] == r.value && (forall j :: 0 <= j < i ==> ps[j].Name != name)
    ensures r.Some? ==> r.value.Name == name
  {
    if ps == [] then None
    else if ps[0].Name == name then Some(ps[0])
    else
      var r := FirstOrDefault(ps[1..], name);
      assert r.Some? ==> exists i :: 0 <= i < |ps| && ps[i] == r.value && (forall j :: 0 <= j < i ==> ps[j].Name != name) by {
        if r.Some? {
          var i :| 0 <= i < |ps[1..]| && ps[1..][i] == r.value && (forall j :: 0 <= j < i ==> ps[1..][j].Name != name);
          assert ps[i + 1] == r.value && forall j :: 0 <= j < i + 1 ==> ps[j].Name != name;
        }
      }
      r
  }

  /** A local record always finds a first record with its name. */
  lemma FirstOrDefaultFinds(ps: seq<Person>, p: Person)
    requires p in ps
    ensures FirstOrDefault(ps, p.Name).Some?
  {
    var k :| 0 <= k < |ps| && ps[k] == p;
    assert ps[k].Name == p.Name;
  }

  /** For each record of `diff`, the first local record with its name. */
  function FirstOfEach(local: seq<Person>, diff: seq<Person>): (r: seq<Person>)
    requires forall d :: d in diff ==> d in local
    ensures |r| == |diff|
    ensures forall i :: 0 <= i < |diff| ==> FirstOrDefault(local, diff[i].Name) == Some(r[i])
  {
    if diff == [] then []
    else
      var d := diff[|diff| - 1];
      FirstOrDefaultFinds(local, d);
      var first := FirstOrDefault(local, d.Name).value;
      FirstOfEach(local, diff[..|diff| - 1]) + [first]
  }

  /** Every record `FirstOfEach` picks is a local record with the name of
      the diff entry it was picked for. */
  lemma FirstOfEachFromLocal(local: seq<Person>, diff: seq<Person>)
    requires forall d :: d in diff ==> d in local
    ensures forall i :: 0 <= i < |diff| ==> FirstOfEach(local, diff)[i] in local && FirstOfEach(local, diff)[i].Name == diff[i].Name
  {
  }

  /** The records OnSleep posts, in order: every local record when the
      remote list is empty; otherwise, for each local record whose name is
      unknown remotely, the first local record with that name. */
  function PushList(local: seq<Person>, remote: seq<Person>): (r: seq<Person>)
    ensures forall p :: p in r ==> p in local && p.Name !in RemoteNames(remote)
  {
    if |remote| == 0 then local
    else
      var diff := Unmatched(local, RemoteNames(remote));
      var r := FirstOfEach(local, diff);
      assert forall p :: p in r ==> p.Name !in RemoteNames(remote) by {
        forall p | p in r ensures p.Name !in RemoteNames(remote) {
          var i :| 0 <= i < |r| && r[i] == p;
          assert diff[i] in diff;
        }
      }
      r
  }

  /** The names posted are exactly the local names the server does not know:
      none of a known name, and at least one of each unknown one. */
  lemma PushedNamesAreMissingNames(local: seq<Person>, remote: seq<Person>)
    ensures (set p | p in PushList(local, remote) :: p.Name)
         == (set p | p in local && p.Name !in RemoteNames(remote) :: p.Name)
  {
    var pushed := PushList(local, remote);
    var known := RemoteNames(remote);
    var sent := set p | p in pushed :: p.Name;
    var missing := set p | p in local && p.Name !in known :: p.Name;
    forall n | n in sent ensures n in missing {
      var p :| p in pushed && p.Name == n;
      assert p in local && p.Name !in known;
    }
    forall n | n in missing ensures n in sent {
      var p :| p in local && p.Name !in known && p.Name == n;
      var q := PushedWithName(local, remote, p);
    }
  }

  /** A local record with an unknown name has a posted record with its name. */
  lemma PushedWithName(local: seq<Person>, remote: seq<Person>, p: Person) returns (q: Person)
    requires p in local && p.Name !in RemoteNames(remote)
    ensures q in PushList(local, remote) && q.Name == p.Name
  {
    if |remote| == 0 {
      q := p;
    } else {
      var diff := Unmatched(local, RemoteNames(remote));
      var pushed := FirstOfEach(local, diff);
      assert pushed == PushList(local, remote);
      assert p in diff;
      var i :| 0 <= i < |diff| && diff[i] == p;
      q := pushed[i];
    }
  }

  /** The number of records of `ps` named `name`. */
  function NameCount(ps: seq<Person>, name: string): nat {
    if ps == [] then 0
    else NameCount(ps[..|ps| - 1], name) + (if ps[|ps| - 1].Name == name then 1 else 0)
  }

  /** Posting the first match for each record of `diff` posts a record `p`
      once per record of `diff` with its name if `p` is the first local record
      with that name, and never otherwise. */
  lemma {:induction false} FirstOfEachCount(local: seq<Person>, diff: seq<Person>, p: Person)
    requires forall d :: d in diff ==> d in local
    ensures multiset(FirstOfEach(local, diff))[p]
         == if FirstOrDefault(local, p.Name) == Some(p) then NameCount(diff, p.Name) else 0
  {
    if diff != [] {
      var init, d := diff[..|diff| - 1], diff[|diff| - 1];
      FirstOfEachCount(local, init, p);
      FirstOrDefaultFinds(local, d);
      assert FirstOfEach(local, diff) == FirstOfEach(local, init) + [FirstOrDefault(local, d.Name).value];
    }
  }

  /** Filtering out known names keeps all and only the records with an
      unknown name. */
  lemma {:induction false} UnmatchedNameCount(local: seq<Person>, names: set<string>, name: string)
    ensures NameCount(Unmatched(local, names), name) == if name in names then 0 else NameCount(local, name)
  {
    if local != [] {
      var init, last := local[..|local| - 1], local[|local| - 1];
      UnmatchedNameCount(init, names, name);
      var u := Unmatched(init, names);
      var tail := if last.Name in names then [] else [last];
      assert Unmatched(local, names) == u + tail;
      if tail != [] {
        assert (u + tail)[..|u + tail| - 1] == u;
      } else {
        assert u + tail == u;
      }
    }
  }

  /** The duplicate-name quirk: when the server has records, a local record
      with an unknown name that is the first with that name is posted once
      for every local record sharing the name, and a later record with the
      same name is never posted. */
  lemma DuplicateNamesPostFirst(local: seq<Person>, remote: seq<Person>, p: Person)
    requires |remote| != 0
    ensures multiset(PushList(local, remote))[p]
         == if p.Name !in RemoteNames(remote) && FirstOrDefault(local, p.Name) == Some(p)
            then NameCount(local, p.Name) else 0
  {
    var names := RemoteNames(remote);
    FirstOfEachCount(local, Unmatched(local, names), p);
    UnmatchedNameCount(local, names, p.Name);
  }

  /** When the server has no records, every local record is posted exactly
      once, in local order. */
  lemma EmptyRemotePostsAll(local: seq<Person>)
    ensures PushList(local, []) == local
  {
  }

  /** A push whose records the server kept leaves nothing to push: if the
      server's names now include its former names and the pushed names, the
      next OnSleep posts nothing. */
  lemma PushThenNothingLeft(local: seq<Person>, remote: seq<Person>, later: seq<Person>)
    requires RemoteNames(remote) <= RemoteNames(later)
    requires (set p | p in PushList(local, remote) :: p.Name) <= RemoteNames(later)
    ensures PushList(local, later) == []
  {
    PushedNamesAreMissingNames(local, remote);
    var names := RemoteNames(later);
    assert forall p :: p in local ==> p.Name in names by {
      forall p | p in local ensures p.Name in names {
        if p.Name !in RemoteNames(remote) {
          assert p.Name in (set q | q in local && q.Name !in RemoteNames(remote) :: q.Name);
        }
      }
    }
    if |later| == 0 {
      FirstIsMember(local);
    } else {
      FirstIsMember(Unmatched(local, names));
    }
  }

  /** A non-empty sequence holds its first record. */
  lemma FirstIsMember(s: seq<Person>)
    ensures s != [] ==> s[0] in s
  {
  }

  /** Two local records share the name "Ann", which the server does not
      know: the first of them is posted twice and the second never. With no
      remote records, each is posted once. */
  lemma DuplicateNameExample(birthday: Instant)
    ensures var a, b, c := Person(1, "Ann", birthday), Person(2, "Ann", birthday), Person(7, "Bob", birthday);
            && PushList([a, b], [c]) == [a, a]
            && PushList([a, b], []) == [a, b]
  {
    var a, b, c := Person(1, "Ann", birthday), Person(2, "Ann", birthday), Person(7, "Bob", birthday);
    assert RemoteNames([c]) == {"Bob"};
    assert [a, b][..1] == [a] && [a][..0] == [];
    assert Unmatched([a], {"Bob"}) == [a];
    assert Unmatched([a, b], {"Bob"}) == [a, b];
    assert FirstOrDefault([a, b], "Ann") == Some(a);
    assert FirstOfEach([a, b], [a, b]) == [a, a] by {
      assert [a, b][..1] == [a];
      assert [a][..0] == [];
    }
  }

  /** The persons of the POST requests in a request log, in order. */
  function Posted(log: seq<Request>): seq<Person> {
    if log == [] then []
    else Posted(log[..|log| - 1]) + (if log[|log| - 1].Post? then [log[|log| - 1].person] else [])
  }

  lemma {:induction false} PostedAppend(a: seq<Request>, b: seq<Request>)
    ensures Posted(a + b) == Posted(a) + Posted(b)
  {
    if b == [] {
      assert a + b == a;
    } else {
      var init, last := b[..|b| - 1], b[|b| - 1];
      PostedAppend(a, init);
      assert (a + b)[..|a + b| - 1] == a + init;
      assert (a + b)[|a + b| - 1] == last;
    }
  }

  /** A log with no POST in it posts nobody. */
  lemma {:induction false} PostedNone(log: seq<Request>)
    requires forall i :: 0 <= i < |log| ==> !log[i].Post?
    ensures Posted(log) == []
  {
    if log != [] {
      PostedNone(log[..|log| - 1]);
    }
  }

  /** No request in the log changes or removes a remote record. */
  predicate NoRemoteWrites(log: seq<Request>) {
    forall i :: 0 <= i < |log| ==> !log[i].Put? && !log[i].Delete?
  }

  /** The GET at the start of OnSleep posts nothing and writes nothing. */
  lemma OpeningGet(before: seq<Request>, after: seq<Request>, token: string, bearer: string)
    requires after == before + Fetched(token) + [Get(bearer)]
    ensures |before| <= |after| && after[..|before|] == before
    ensures NoRemoteWrites(after[|before|..]) && Posted(after[|before|..]) == []
  {
    assert after[|before|..] == Fetched(token) + [Get(bearer)];
    PostedNone(after[|before|..]);
  }

  /** One call of PostPerson adds exactly its record to the posted ones, and
      no write. */
  lemma PostedOneCall(before: seq<Request>, after: seq<Request>, token: string, bearer: string, p: Person)
    requires NoRemoteWrites(before)
    requires after == before + Fetched(token) + [Post(bearer, p)]
    ensures NoRemoteWrites(after)
    ensures Posted(after) == Posted(before) + [p]
  {
    PostedNone(Fetched(token));
    PostedAppend(before, Fetched(token));
    assert after[..|after| - 1] == before + Fetched(token);
  }

  /** The first `n` posts of a run succeed. */
  predicate AllSucceed(post: nat -> Exchange<int>, n: nat) {
    forall i :: 0 <= i < n ==> post(i).reply.Success?
  }

  /** How many of `n` planned posts are sent: every one up to and including
      the first that fails, since a failed post throws and ends the run. */
  function Attempted(post: nat -> Exchange<int>, n: nat): (k: nat)
    ensures k <= n
    ensures AllSucceed(post, n) ==> k == n
    ensures !AllSucceed(post, n) ==> 0 < k && AllSucceed(post, k - 1) && post(k - 1).reply.Failure?
  {
    if n == 0 then 0
    else if AllSucceed(post, n - 1) then n
    else Attempted(post, n - 1)
  }

  /** The token endpoint's answers met by the first `n` posts. */
  function PostAuths(post: nat -> Exchange<int>, n: nat): (auths: seq<Response<string>>)
    ensures |auths| == n
    ensures forall i :: 0 <= i < n ==> auths[i] == post(i).auth
  {
    if n == 0 then [] else PostAuths(post, n - 1) + [post(n - 1).auth]
  }

  lemma {:induction false} AttemptedStopsAtFailure(post: nat -> Exchange<int>, n: nat, i: nat)
    requires i < n
    requires AllSucceed(post, i) && post(i).reply.Failure?
    ensures Attempted(post, n) == i + 1
    ensures !AllSucceed(post, n)
  {
    if n > i + 1 {
      assert !AllSucceed(post, n - 1);
      AttemptedStopsAtFailure(post, n - 1, i);
    }
  }

  /** A log that extends `mid`, which extends `before`, posts after `before`
      what the two extensions post, and writes nothing exactly when neither
      extension writes. */
  lemma JoinRuns(before: seq<Request>, mid: seq<Request>, log: seq<Request>)
    requires |before| <= |mid| <= |log|
    requires mid[..|before|] == before && log[..|mid|] == mid
    ensures log[..|before|] == before
    ensures Posted(log[|before|..]) == Posted(mid[|before|..]) + Posted(log[|mid|..])
    ensures NoRemoteWrites(log[|before|..]) <==> NoRemoteWrites(mid[|before|..]) && NoRemoteWrites(log[|mid|..])
  {
    assert log[..|before|] == mid[..|before|];
    assert log[|before|..|mid|] == mid[|before|..];
    assert log[|before|..] == log[|before|..|mid|] + log[|mid|..];
    PostedAppend(log[|before|..|mid|], log[|mid|..]);
  }

  /** The state of a run of posts that started with log `before` and token
      `t0`: the log only grew, the requests added post `posted` and write
      nothing, and the token moved through the token answers `auths`. */
  ghost predicate PostRun(log: seq<Request>, token: string, before: seq<Request>, posted: seq<Person>,
                          t0: string, auths: seq<Response<string>>)
  {
    && |before| <= |log| && log[..|before|] == before
    && NoRemoteWrites(log[|before|..]) && Posted(log[|before|..]) == posted
    && token == TokenAfter(t0, auths)
  }

  /** One `PostPersonAsync` call within a run: it posts `p` and meets the
      token answer `ex.auth`. */
  method PostOne(client: WebApiClient, p: Person, ex: Exchange<int>, ghost before: seq<Request>,
                 ghost posted: seq<Person>, ghost t0: string, ghost auths: seq<Response<string>>)
    returns (res: Result<int, Fault>)
    requires PostRun(client.log, client.token, before, posted, t0, auths)
    modifies client
    ensures PostRun(client.log, client.token, before, posted + [p], t0, auths + [ex.auth])
    ensures ex.reply.Success? ==> res == Ok(ex.reply.value)
    ensures ex.reply.Failure? ==> res == Err(RemoteError)
  {
    ghost var log0, token0 := client.log, client.token;
    res := client.PostPerson(p, ex);
    assert client.log[|before|..] == log0[|before|..] + Fetched(token0) + [Post(client.token, p)];
    PostedOneCall(log0[|before|..], client.log[|before|..], token0, client.token, p);
    TokenAfterSnoc(t0, auths, ex.auth);
    assert client.log[..|before|] == log0[..|before|];
  }

  /** Taking one more element of a sequence appends that element. */
  lemma TakeOneMore(s: seq<Person>, i: nat)
    requires i < |s|
    ensures s[..i + 1] == s[..i] + [s[i]]
  {
  }

  /** The first loop of OnSleep: post every local record in order; the
      `i`-th post meets `post(i)`, and the first failure is rethrown. */
  method PostEach(client: WebApiClient, local: seq<Person>, post: nat -> Exchange<int>)
    returns (r: Outcome<Fault>)
    modifies client
    ensures PostRun(client.log, client.token, old(client.log), local[..Attempted(post, |local|)],
                    old(client.token), PostAuths(post, Attempted(post, |local|)))
    ensures r == if AllSucceed(post, |local|) then Pass else Fail(RemoteError)
  {
    assert client.log[|client.log|..] == [];
    var i := 0;
    while i < |local|
      invariant 0 <= i <= |local|
      invariant PostRun(client.log, client.token, old(client.log), local[..i], old(client.token), PostAuths(post, i))
      invariant AllSucceed(post, i)
    {
      TakeOneMore(local, i);
      var res := PostOne(client, local[i], post(i), old(client.log), local[..i], old(client.token), PostAuths(post, i));
      i := i + 1;
      if res.Err? {
        AttemptedStopsAtFailure(post, |local|, i - 1);
        return Fail(RemoteError);
      }
    }
    assert local[..i] == local;
    return Pass;
  }

  /** The second loop of OnSleep: for each record of `diff`, post the first
      local record with its name. */
  method PostFirstOfEach(client: WebApiClient, local: seq<Person>, diff: seq<Person>, post: nat -> Exchange<int>)
    returns (r: Outcome<Fault>)
    requires forall d :: d in diff ==> d in local
    modifies client
    ensures PostRun(client.log, client.token, old(client.log), FirstOfEach(local, diff)[..Attempted(post, |diff|)],
                    old(client.token), PostAuths(post, Attempted(post, |diff|)))
    ensures r == if AllSucceed(post, |diff|) then Pass else Fail(RemoteError)
  {
    ghost var pushes := FirstOfEach(local, diff);
    assert client.log[|client.log|..] == [];
    var i := 0;
    while i < |diff|
      invariant 0 <= i <= |diff|
      invariant PostRun(client.log, client.token, old(client.log), pushes[..i], old(client.token), PostAuths(post, i))
      invariant AllSucceed(post, i)
    {
      assert FirstOrDefault(local, diff[i].Name) == Some(pushes[i]);
      TakeOneMore(pushes, i);
      var data := FirstOrDefault(local, diff[i].Name).value;
      var res := PostOne(client, data, post(i), old(client.log), pushes[..i], old(client.token), PostAuths(post, i));
      i := i + 1;
      if res.Err? {
        AttemptedStopsAtFailure(post, |diff|, i - 1);
        return Fail(RemoteError);
      }
    }
    assert pushes[..i] == pushes;
    return Pass;
  }

  /** OnSleep: read the local records and the remote list; post every local
      record when the remote list is empty, otherwise the first local record
      with each unknown name. A null remote list throws on its `Count`; a
      failed post throws and skips the posts after it. */
  method OnSleep(db: LocalStore.PeopleManager, client: WebApiClient, toLocalTime: Instant -> Instant,
                 get: Exchange<seq<Person>>, post: nat -> Exchange<int>)
    returns (r: Outcome<Fault>)
    requires db.Valid()
    modifies client
    ensures unchanged(db)
    ensures |old(client.log)| <= |client.log| && client.log[..|old(client.log)|] == old(client.log)
    ensures NoRemoteWrites(client.log[|old(client.log)|..])
    ensures get.reply.Failure? ==>
              && r == Fail(NullReference) && Posted(client.log[|old(client.log)|..]) == []
              && client.token == NextToken(old(client.token), get.auth)
    ensures get.reply.Success? ==>
              var pushes := PushList(LocalStore.Localized(LocalStore.Rows(db.Snapshot()), toLocalTime), get.reply.value);
              && Posted(client.log[|old(client.log)|..]) == pushes[..Attempted(post, |pushes|)]
              && client.token == TokenAfter(NextToken(old(client.token), get.auth), PostAuths(post, Attempted(post, |pushes|)))
              && r == if AllSucceed(post, |pushes|) then Pass else Fail(RemoteError)
  {
    var localPeople := db.GetPeople(toLocalTime);
    ghost var logBefore := client.log;
    var webPeople := client.GetPeople(get);
    OpeningGet(logBefore, client.log, old(client.token), client.token);
    if webPeople.None? {
      return Fail(NullReference);
    }
    var web := webPeople.value;
    ghost var mid := client.log;
    if |web| == 0 {
      r := PostEach(client, localPeople, post);
    } else {
      var hash := RemoteNames(web);
      var diff := Unmatched(localPeople, hash);
      r := PostFirstOfEach(client, localPeople, diff, post);
    }
    JoinRuns(logBefore, mid, client.log);
  }
}
