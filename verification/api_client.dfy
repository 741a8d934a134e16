/**
 * The authenticated HTTP client of the frontend: the token store kept in
 * `localStorage`, the request interceptor that attaches the bearer token, and
 * the response interceptor that answers a 401 with a single shared token
 * refresh, queueing the requests that fail while it is in flight and
 * replaying each of them once.
 *
 * JavaScript runs each callback to completion, so the coordinator is a state
 * machine over discrete events: a request made through the client failed, the
 * refresh call settled, the login stored tokens, something cleared them, the
 * application (un)registered its logout callback. Network calls and callback
 * invocations are not performed; they are the effects a step emits.
 */
module ApiClient {
  import opened Text
  import opened Wrappers

  const AccessKey := "access_token"
  const RefreshKey := "refresh_token"
  const AuthErrorKey := "auth_error"
  const SessionExpiredMessage := "Sua sessão expirou. Por favor, faça login novamente."
  const RefreshEndpoint := "api/token/refresh/"
  const AuthorizationHeader := "Authorization"
  const Unauthorized := 401

  /** A browser storage area (`localStorage`, `sessionStorage`): string keys to string values. */
  type Storage = map<string, string>

  /** `storage.getItem(key)`: `null` when the key is missing. */
  function GetItem(st: Storage, key: string): Option<string> {
    if key in st then Some(st[key]) else None
  }

  /** JavaScript truthiness of a possibly missing string. */
  predicate Truthy(t: Option<string>) {
    t.Some? && t.value != ""
  }

  // ------------------------------------------------------------ token store

  function GetAccessToken(local: Storage): Option<string> {
    GetItem(local, AccessKey)
  }

  function GetRefreshToken(local: Storage): Option<string> {
    GetItem(local, RefreshKey)
  }

  /** `setAuthTokens`: writes each token that is truthy and leaves the other key alone. */
  function SetAuthTokens(local: Storage, access: Option<string>, refresh: Option<string>): (r: Storage)
    ensures Truthy(access) ==> GetAccessToken(r) == access
    ensures !Truthy(access) ==> GetAccessToken(r) == GetAccessToken(local)
    ensures Truthy(refresh) ==> GetRefreshToken(r) == refresh
    ensures !Truthy(refresh) ==> GetRefreshToken(r) == GetRefreshToken(local)
    ensures forall k :: k != AccessKey && k != RefreshKey ==> GetItem(r, k) == GetItem(local, k)
  {
    var a := if Truthy(access) then local[AccessKey := access.value] else local;
    if Truthy(refresh) then a[RefreshKey := refresh.value] else a
  }

  /** `clearAuthTokens`: removes both tokens and nothing else. */
  function ClearAuthTokens(local: Storage): (r: Storage)
    ensures GetAccessToken(r).None? && GetRefreshToken(r).None?
    ensures forall k :: k != AccessKey && k != RefreshKey ==> GetItem(r, k) == GetItem(local, k)
  {
    local - {AccessKey, RefreshKey}
  }

  // ---------------------------------------------------------------- requests

  /**
   * An axios request configuration: an identity for the caller waiting on it,
   * its URL, its headers and the `_retry` mark the interceptor sets.
   */
  datatype Request = Request(id: nat, url: string, headers: map<string, string>, retry: bool)

  /** An axios error: the failed request and, when a response arrived, its status. */
  datatype HttpError = HttpError(config: Request, status: Option<int>)

  function Bearer(token: string): string {
    "Bearer " + token
  }

  /**
   * The request interceptor: when an access token is stored, the request
   * carries it as a bearer credential; otherwise it leaves unchanged.
   */
  function InterceptRequest(local: Storage, config: Request): (r: Request)
    ensures Truthy(GetAccessToken(local)) ==>
              && AuthorizationHeader in r.headers
              && r.headers[AuthorizationHeader] == Bearer(GetAccessToken(local).value)
              && r.headers - {AuthorizationHeader} == config.headers - {AuthorizationHeader}
    ensures !Truthy(GetAccessToken(local)) ==> r.headers == config.headers
    ensures r.id == config.id && r.url == config.url && r.retry == config.retry
  {
    var token := GetAccessToken(local);
    if Truthy(token) then config.(headers := config.headers[AuthorizationHeader := Bearer(token.value)])
    else config
  }

  /** `originalRequest.headers.Authorization = Bearer ${token}` before a replay. */
  function WithToken(config: Request, token: string): Request {
    config.(headers := config.headers[AuthorizationHeader := Bearer(token)])
  }

  // ------------------------------------------------------------- the machine

  /** Why `refreshAccessToken` threw. */
  datatype RefreshError =
    | MissingRefreshToken            // no refresh token stored: no network call is made
    | MissingAccess                  // the reply carried no truthy `access`
    | RefreshRejected(status: Option<int>)  // the refresh POST itself failed

  /** What a caller's promise is rejected with. */
  datatype Rejection =
    | Unchanged(error: HttpError)    // the original error, passed through
    | RefreshFailed(cause: RefreshError)

  /** What a step does outside the state. */
  datatype Effect =
    | Reject(request: Request, why: Rejection)  // the caller's promise rejects
    | Send(request: Request)                    // `api(originalRequest)`: the request goes out again
    | PostRefresh(refresh: string)              // the raw POST to the refresh endpoint
    | NotifyLogout                              // the registered logout callback runs

  /** How the refresh POST settled: a failure (with a status when a response arrived), or the reply's `access`. */
  datatype RefreshReply = ReplyError(status: Option<int>) | ReplyData(access: Option<string>)

  /** The first 401 handler, suspended in `await refreshAccessToken()`, with the refresh token it read. */
  datatype Refresh = Refresh(leader: Request, token: Option<string>)

  /**
   * The client: both storage areas, whether a logout callback is registered,
   * the `isRefreshing` flag, the waiter queue, and the suspended first handler.
   */
  datatype Client = Client(
    local: Storage,
    session: Storage,
    onLogout: bool,
    isRefreshing: bool,
    queue: seq<Request>,
    inFlight: Option<Refresh>)

  datatype Event =
    | ResponseError(error: HttpError)           // a request made through the client failed
    | RefreshSettled(reply: RefreshReply)       // the awaited refresh settled
    | StoreTokens(access: Option<string>, refresh: Option<string>)  // `setAuthTokens` from the login page
    | ClearTokens                               // `clearAuthTokens` from elsewhere
    | SetOnLogout(registered: bool)             // `setOnLogout` with a function, or with something else

  /** No refresh in flight, no waiters, nothing stored. */
  function Initial(local: Storage): Client {
    Client(local, map[], false, false, [], None)
  }

  /**
   * The flag is up exactly while a first handler awaits the refresh, the queue
   * only holds waiters while it is up, and every waiting request is marked
   * as retried.
   */
  predicate Inv(c: Client) {
    && (c.isRefreshing <==> c.inFlight.Some?)
    && (!c.isRefreshing ==> c.queue == [])
    && (forall i :: 0 <= i < |c.queue| ==> c.queue[i].retry)
    && (c.inFlight.Some? ==> c.inFlight.value.leader.retry)
  }

  /**
   * `forceLogout`: clears the tokens, leaves the session-expired message for
   * the login page, and runs the logout callback only when one is registered.
   */
  function ForceLogout(c: Client): (r: (Client, seq<Effect>))
    ensures GetAccessToken(r.0.local).None? && GetRefreshToken(r.0.local).None?
    ensures GetItem(r.0.session, AuthErrorKey) == Some(SessionExpiredMessage)
    ensures r.1 == (if c.onLogout then [NotifyLogout] else [])
    ensures r.0.isRefreshing == c.isRefreshing && r.0.queue == c.queue
    ensures r.0.inFlight == c.inFlight && r.0.onLogout == c.onLogout
  {
    (c.(local := ClearAuthTokens(c.local), session := c.session[AuthErrorKey := SessionExpiredMessage]),
     if c.onLogout then [NotifyLogout] else [])
  }

  /** The interceptor gives up on an error: no response, not a 401, or a request already retried. */
  predicate PassesThrough(e: HttpError) {
    e.status.None? || e.status.value != Unauthorized || e.config.retry
  }

  /** A 401 from a request addressed to the refresh endpoint itself. */
  predicate IsRefreshCall(e: HttpError) {
    Contains(e.config.url, RefreshEndpoint)
  }

  /** The response interceptor's error handler, up to its `await`. */
  function OnResponseError(c: Client, e: HttpError): (r: (Client, seq<Effect>))
    ensures PassesThrough(e) ==> r == (c, [Reject(e.config, Unchanged(e))])
    ensures !PassesThrough(e) && IsRefreshCall(e) ==>
              r == (ForceLogout(c).0, ForceLogout(c).1 + [Reject(e.config, Unchanged(e))])
    ensures !PassesThrough(e) && !IsRefreshCall(e) && c.isRefreshing ==>
              r == (c.(queue := c.queue + [e.config.(retry := true)]), [])
    ensures !PassesThrough(e) && !IsRefreshCall(e) && !c.isRefreshing ==>
              && r.0 == c.(isRefreshing := true, inFlight := Some(Refresh(e.config.(retry := true), GetRefreshToken(c.local))))
              && r.1 == (if Truthy(GetRefreshToken(c.local)) then [PostRefresh(GetRefreshToken(c.local).value)] else [])
  {
    if PassesThrough(e) then (c, [Reject(e.config, Unchanged(e))])
    else if IsRefreshCall(e) then
      var (c1, fx) := ForceLogout(c);
      (c1, fx + [Reject(e.config, Unchanged(e))])
    else
      var original := e.config.(retry := true);
      if c.isRefreshing then (c.(queue := c.queue + [original]), [])
      else
        var token := GetRefreshToken(c.local);
        (c.(isRefreshing := true, inFlight := Some(Refresh(original, token))),
         if Truthy(token) then [PostRefresh(token.value)] else [])
  }

  /**
   * `refreshAccessToken` once its POST settled: fails when there was no
   * refresh token, when the POST failed, or when the reply has no truthy
   * `access`; otherwise stores the new access token next to the refresh
   * token it used and yields the new access token.
   */
  function RefreshAccessToken(local: Storage, token: Option<string>, reply: RefreshReply): (r: Result<(string, Storage), RefreshError>)
    ensures !Truthy(token) ==> r == Failure(MissingRefreshToken)
    ensures Truthy(token) && reply.ReplyError? ==> r == Failure(RefreshRejected(reply.status))
    ensures Truthy(token) && reply.ReplyData? && !Truthy(reply.access) ==> r == Failure(MissingAccess)
    ensures r.Success? ==> reply.ReplyData? && Truthy(reply.access) && r.value.0 == reply.access.value
    ensures r.Success? ==> GetAccessToken(r.value.1) == reply.access && GetRefreshToken(r.value.1) == token
    ensures r.Success? ==> forall k :: k != AccessKey && k != RefreshKey ==> GetItem(r.value.1, k) == GetItem(local, k)
  {
    if !Truthy(token) then Failure(MissingRefreshToken)
    else match reply
      case ReplyError(status) => Failure(RefreshRejected(status))
      case ReplyData(access) =>
        if !Truthy(access) then Failure(MissingAccess)
        else Success((access.value, SetAuthTokens(local, access, token)))
  }

  /** `processQueue(null, token)`: every waiter's request goes out again with the new token. */
  function ResolveAll(local: Storage, queue: seq<Request>, token: string): (fx: seq<Effect>)
    ensures |fx| == |queue|
    ensures forall i :: 0 <= i < |queue| ==> fx[i] == Send(InterceptRequest(local, WithToken(queue[i], token)))
  {
    seq(|queue|, i requires 0 <= i < |queue| => Send(InterceptRequest(local, WithToken(queue[i], token))))
  }

  /** `processQueue(err)`: every waiter is rejected with the refresh error. */
  function RejectAll(queue: seq<Request>, err: RefreshError): (fx: seq<Effect>)
    ensures |fx| == |queue|
    ensures forall i :: 0 <= i < |queue| ==> fx[i] == Reject(queue[i], RefreshFailed(err))
  {
    seq(|queue|, i requires 0 <= i < |queue| => Reject(queue[i], RefreshFailed(err)))
  }

  /** The first handler resumes after its `await`: the `try`/`catch`/`finally` of the interceptor. */
  function OnRefreshSettled(c: Client, reply: RefreshReply): (r: (Client, seq<Effect>))
    ensures c.inFlight.None? ==> r == (c, [])
    ensures c.inFlight.Some? ==> !r.0.isRefreshing && r.0.queue == [] && r.0.inFlight.None?
  {
    match c.inFlight
    case None => (c, [])
    case Some(Refresh(leader, token)) =>
      match RefreshAccessToken(c.local, token, reply)
      case Success((access, local1)) =>
        (c.(local := local1, isRefreshing := false, queue := [], inFlight := None),
         ResolveAll(local1, c.queue, access) + [Send(InterceptRequest(local1, WithToken(leader, access)))])
      case Failure(err) =>
        var (c1, fx) := ForceLogout(c.(queue := []));
        (c1.(isRefreshing := false, inFlight := None),
         RejectAll(c.queue, err) + fx + [Reject(leader, RefreshFailed(err))])
  }

  /** One event, run to completion. */
  function Step(c: Client, ev: Event): (Client, seq<Effect>) {
    match ev
    case ResponseError(e) => OnResponseError(c, e)
    case RefreshSettled(reply) => OnRefreshSettled(c, reply)
    case StoreTokens(access, refresh) => (c.(local := SetAuthTokens(c.local, access, refresh)), [])
    case ClearTokens => (c.(local := ClearAuthTokens(c.local)), [])
    case SetOnLogout(registered) => (c.(onLogout := registered), [])
  }

  /** A sequence of events, run one after the other; the effects in order. */
  function Run(c: Client, evs: seq<Event>): (Client, seq<Effect>)
    decreases |evs|
  {
    if evs == [] then (c, [])
    else
      var (c1, fx1) := Step(c, evs[0]);
      var (c2, fx2) := Run(c1, evs[1..]);
      (c2, fx1 + fx2)
  }

  // ------------------------------------------------------------------ proofs

  /** Every step keeps the invariant. */
  lemma StepKeepsInv(c: Client, ev: Event)
    requires Inv(c)
    ensures Inv(Step(c, ev).0)
  {
    match ev
    case ResponseError(e) =>
      var c1 := Step(c, ev).0;
      if !PassesThrough(e) && !IsRefreshCall(e) && c.isRefreshing {
        assert c1.queue == c.queue + [e.config.(retry := true)];
        assert forall i :: 0 <= i < |c1.queue| ==> c1.queue[i].retry by {
          forall i | 0 <= i < |c1.queue| ensures c1.queue[i].retry {
            if i < |c.queue| {
              assert c1.queue[i] == c.queue[i];
            }
          }
        }
      }
    case _ =>
  }

  /** Runs keep the invariant. */
  lemma {:induction false} RunKeepsInv(c: Client, evs: seq<Event>)
    requires Inv(c)
    ensures Inv(Run(c, evs).0)
    decreases |evs|
  {
    if evs != [] {
      StepKeepsInv(c, evs[0]);
      RunKeepsInv(Step(c, evs[0]).0, evs[1..]);
    }
  }

  /** The number of refresh POSTs among the effects. */
  function Posts(fx: seq<Effect>): nat {
    if fx == [] then 0 else (if fx[0].PostRefresh? then 1 else 0) + Posts(fx[1..])
  }

  lemma {:induction false} PostsConcat(a: seq<Effect>, b: seq<Effect>)
    ensures Posts(a + b) == Posts(a) + Posts(b)
  {
    if a != [] {
      assert (a + b)[0] == a[0];
      assert (a + b)[1..] == a[1..] + b;
      PostsConcat(a[1..], b);
    } else {
      assert a + b == b;
    }
  }

  lemma {:induction false} NoPosts(fx: seq<Effect>)
    requires forall i :: 0 <= i < |fx| ==> !fx[i].PostRefresh?
    ensures Posts(fx) == 0
  {
    if fx != [] {
      NoPosts(fx[1..]);
    }
  }

  /**
   * The refreshes that complete along a run from `c`: the settle events that
   * find a first handler awaiting, whose `finally` lowers the flag. A settle
   * with nothing in flight changes nothing and is not counted.
   */
  function Completed(c: Client, evs: seq<Event>): nat
    decreases |evs|
  {
    if evs == [] then 0
    else (if evs[0].RefreshSettled? && c.inFlight.Some? then 1 else 0) + Completed(Step(c, evs[0]).0, evs[1..])
  }

  /**
   * One step posts at most one refresh, only when none is in flight, and
   * leaves one in flight when it does.
   */
  lemma StepPosts(c: Client, ev: Event)
    requires Inv(c)
    ensures Posts(Step(c, ev).1) <= (if c.isRefreshing then 0 else 1)
    ensures Posts(Step(c, ev).1) == 1 ==> Step(c, ev).0.isRefreshing
    ensures !ev.RefreshSettled? && c.isRefreshing ==> Step(c, ev).0.isRefreshing
  {
    var (c1, fx) := Step(c, ev);
    match ev
    case ResponseError(e) =>
      if PassesThrough(e) {
        NoPosts(fx);
      } else if IsRefreshCall(e) {
        NoPosts(fx);
      } else if c.isRefreshing {
        NoPosts(fx);
      } else if Truthy(GetRefreshToken(c.local)) {
        assert fx == [PostRefresh(GetRefreshToken(c.local).value)];
        assert fx[1..] == [];
      } else {
        NoPosts(fx);
      }
    case RefreshSettled(reply) =>
      NoPosts(fx);
    case _ =>
      NoPosts(fx);
  }

  /**
   * Single flight: over any run, the refresh endpoint is called at most once
   * more than the refreshes that completed, and not even once more when a
   * refresh was already in flight at the start.
   */
  lemma {:induction false} RunSingleFlight(c: Client, evs: seq<Event>)
    requires Inv(c)
    ensures Posts(Run(c, evs).1) <= Completed(c, evs) + (if c.isRefreshing then 0 else 1)
    decreases |evs|
  {
    if evs != [] {
      var (c1, fx1) := Step(c, evs[0]);
      StepKeepsInv(c, evs[0]);
      StepPosts(c, evs[0]);
      RunSingleFlight(c1, evs[1..]);
      PostsConcat(fx1, Run(c1, evs[1..]).1);
    }
  }

  /** The requests a list of effects settles, in order: each one sent again or rejected. */
  function Settled(fx: seq<Effect>): seq<nat> {
    if fx == [] then []
    else (match fx[0]
          case Send(r) => [r.id]
          case Reject(r, _) => [r.id]
          case _ => []) + Settled(fx[1..])
  }

  lemma {:induction false} SettledConcat(a: seq<Effect>, b: seq<Effect>)
    ensures Settled(a + b) == Settled(a) + Settled(b)
  {
    if a != [] {
      assert (a + b)[0] == a[0];
      assert (a + b)[1..] == a[1..] + b;
      SettledConcat(a[1..], b);
    } else {
      assert a + b == b;
    }
  }

  function Ids(rs: seq<Request>): (ids: seq<nat>)
    ensures |ids| == |rs|
  {
    seq(|rs|, i requires 0 <= i < |rs| => rs[i].id)
  }

  lemma {:induction false} SettledOfResolve(local: Storage, queue: seq<Request>, token: string)
    ensures Settled(ResolveAll(local, queue, token)) == Ids(queue)
  {
    if queue != [] {
      SettledOfResolve(local, queue[1..], token);
      assert ResolveAll(local, queue, token)[1..] == ResolveAll(local, queue[1..], token);
      assert Ids(queue) == [queue[0].id] + Ids(queue[1..]);
    }
  }

  lemma {:induction false} SettledOfReject(queue: seq<Request>, err: RefreshError)
    ensures Settled(RejectAll(queue, err)) == Ids(queue)
  {
    if queue != [] {
      SettledOfReject(queue[1..], err);
      assert RejectAll(queue, err)[1..] == RejectAll(queue[1..], err);
      assert Ids(queue) == [queue[0].id] + Ids(queue[1..]);
    }
  }

  /**
   * When the refresh settles, every waiter and then the first handler's
   * request are settled exactly once, in queue order, and the queue is left
   * empty with the flag down.
   */
  lemma SettleAllOnce(c: Client, reply: RefreshReply)
    requires c.inFlight.Some?
    ensures var (c1, fx) := OnRefreshSettled(c, reply);
            && Settled(fx) == Ids(c.queue) + [c.inFlight.value.leader.id]
            && c1.queue == [] && !c1.isRefreshing
  {
    var Refresh(leader, token) := c.inFlight.value;
    var fx := OnRefreshSettled(c, reply).1;
    match RefreshAccessToken(c.local, token, reply)
    case Success((access, local1)) =>
      var last := [Send(InterceptRequest(local1, WithToken(leader, access)))];
      SettledConcat(ResolveAll(local1, c.queue, access), last);
      SettledOfResolve(local1, c.queue, access);
      assert Settled(last) == [leader.id];
    case Failure(err) =>
      var mid := if c.onLogout then [NotifyLogout] else [];
      var last := [Reject(leader, RefreshFailed(err))];
      assert fx == RejectAll(c.queue, err) + mid + last;
      SettledConcat(RejectAll(c.queue, err), mid);
      SettledConcat(RejectAll(c.queue, err) + mid, last);
      SettledOfReject(c.queue, err);
      assert Settled(mid) == [];
      assert Settled(last) == [leader.id];
  }

  /**
   * A successful refresh: the new access token is stored, the refresh token
   * used is kept, and every request goes out again carrying the new token.
   */
  lemma RefreshSuccess(c: Client, access: string)
    requires c.inFlight.Some? && Truthy(c.inFlight.value.token) && access != ""
    ensures var (c1, fx) := OnRefreshSettled(c, ReplyData(Some(access)));
            && GetAccessToken(c1.local) == Some(access)
            && GetRefreshToken(c1.local) == c.inFlight.value.token
            && |fx| == |c.queue| + 1
            && (forall i :: 0 <= i < |fx| ==> fx[i].Send? && fx[i].request.headers[AuthorizationHeader] == Bearer(access))
            && (forall i :: 0 <= i < |c.queue| ==> fx[i].request.id == c.queue[i].id)
  {
  }

  /**
   * A failed refresh: the tokens are cleared, every waiter and the first
   * request are rejected with the same error, and the logout callback runs
   * once if registered.
   */
  lemma RefreshFailure(c: Client, reply: RefreshReply)
    requires c.inFlight.Some?
    requires RefreshAccessToken(c.local, c.inFlight.value.token, reply).Failure?
    ensures var err := RefreshAccessToken(c.local, c.inFlight.value.token, reply).error;
            var (c1, fx) := OnRefreshSettled(c, reply);
            && GetAccessToken(c1.local).None? && GetRefreshToken(c1.local).None?
            && GetItem(c1.session, AuthErrorKey) == Some(SessionExpiredMessage)
            && fx == RejectAll(c.queue, err) + (if c.onLogout then [NotifyLogout] else [])
                     + [Reject(c.inFlight.value.leader, RefreshFailed(err))]
  {
  }

  /** Every request the client sends again is marked as retried. */
  lemma SentRequestsAreRetried(c: Client, ev: Event)
    requires Inv(c)
    ensures forall i :: 0 <= i < |Step(c, ev).1| && Step(c, ev).1[i].Send? ==> Step(c, ev).1[i].request.retry
  {
    var fx := Step(c, ev).1;
    if ev.RefreshSettled? && c.inFlight.Some? {
      var Refresh(leader, token) := c.inFlight.value;
      match RefreshAccessToken(c.local, token, ev.reply)
      case Success((access, local1)) =>
        assert forall i :: 0 <= i < |c.queue| ==> fx[i] == Send(InterceptRequest(local1, WithToken(c.queue[i], access)));
      case Failure(err) =>
        var mid := if c.onLogout then [NotifyLogout] else [];
        assert fx == RejectAll(c.queue, err) + mid + [Reject(leader, RefreshFailed(err))];
    }
  }

  /** A request that fails again after its replay is rejected as it is: it is retried at most once. */
  lemma RetriedAtMostOnce(c: Client, r: Request, status: Option<int>)
    requires r.retry
    ensures OnResponseError(c, HttpError(r, status)) == (c, [Reject(r, Unchanged(HttpError(r, status)))])
  {
  }

  /** After a successful refresh, the next request intercepted, before any other event, carries the new access token. */
  lemma CredentialDurability(c: Client, access: string, later: Request)
    requires c.inFlight.Some? && Truthy(c.inFlight.value.token) && access != ""
    ensures var c1 := OnRefreshSettled(c, ReplyData(Some(access))).0;
            InterceptRequest(c1.local, later).headers[AuthorizationHeader] == Bearer(access)
  {
  }

  /**
   * Two requests fail with 401 one after the other and the refresh succeeds:
   * the refresh endpoint is called once, and both go out again with the new
   * token, the queued one first.
   */
  lemma ConcurrentScenario(local: Storage, a: Request, b: Request, access: string)
    requires GetRefreshToken(local) == Some("r") && access != ""
    requires !a.retry && !b.retry
    requires !Contains(a.url, RefreshEndpoint) && !Contains(b.url, RefreshEndpoint)
    ensures var (c, fx) := Run(Initial(local), [ResponseError(HttpError(a, Some(401))),
                                                ResponseError(HttpError(b, Some(401))),
                                                RefreshSettled(ReplyData(Some(access)))]);
            && Posts(fx) == 1
            && Settled(fx) == [b.id, a.id]
            && !c.isRefreshing && c.queue == []
            && GetAccessToken(c.local) == Some(access)
  {
    var e1, e2, e3 := ResponseError(HttpError(a, Some(401))), ResponseError(HttpError(b, Some(401))),
                      RefreshSettled(ReplyData(Some(access)));
    var c0 := Initial(local);
    var c1 := c0.(isRefreshing := true, inFlight := Some(Refresh(a.(retry := true), Some("r"))));
    FirstUnauthorized(c0, a);
    var c2 := c1.(queue := [b.(retry := true)]);
    LaterUnauthorized(c1, b);
    var (c3, fx3) := Step(c2, e3);
    assert Run(c2, [e3]) == (c3, fx3) by {
      assert [e3][1..] == [];
      assert fx3 + [] == fx3;
    }
    assert Run(c1, [e2, e3]) == (c3, fx3) by {
      assert [e2, e3][1..] == [e3];
      assert [] + fx3 == fx3;
    }
    assert Run(c0, [e1, e2, e3]) == (c3, [PostRefresh("r")] + fx3) by {
      assert [e1, e2, e3][1..] == [e2, e3];
    }
    SettleAllOnce(c2, ReplyData(Some(access)));
    assert Ids(c2.queue) == [b.id];
    PostsConcat([PostRefresh("r")], fx3);
    NoPosts(fx3);
    SettledConcat([PostRefresh("r")], fx3);
  }

  /** A first 401 with a refresh token stored starts the refresh and posts it. */
  lemma FirstUnauthorized(c: Client, a: Request)
    requires !c.isRefreshing && GetRefreshToken(c.local) == Some("r")
    requires !a.retry && !Contains(a.url, RefreshEndpoint)
    ensures Step(c, ResponseError(HttpError(a, Some(401)))) ==
            (c.(isRefreshing := true, inFlight := Some(Refresh(a.(retry := true), Some("r")))), [PostRefresh("r")])
  {
  }

  /** A 401 during a refresh joins the empty queue and has no effect yet. */
  lemma LaterUnauthorized(c: Client, b: Request)
    requires c.isRefreshing && c.queue == []
    requires !b.retry && !Contains(b.url, RefreshEndpoint)
    ensures Step(c, ResponseError(HttpError(b, Some(401)))) == (c.(queue := [b.(retry := true)]), [])
  {
    assert c.queue + [b.(retry := true)] == [b.(retry := true)];
  }

  /**
   * Clearing the tokens while a refresh is in flight does not stick: a
   * successful refresh writes both tokens back.
   */
  lemma ClearDuringRefreshRestoresTokens(c: Client, access: string)
    requires c.inFlight.Some? && Truthy(c.inFlight.value.token) && access != ""
    ensures var c1 := Step(c, ClearTokens).0;
            var c2 := Step(c1, RefreshSettled(ReplyData(Some(access)))).0;
            && GetAccessToken(c1.local).None?
            && GetAccessToken(c2.local) == Some(access)
            && GetRefreshToken(c2.local) == c.inFlight.value.token
  {
  }
}
