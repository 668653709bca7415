/** HttpClient of httpclient.cc, as far as it decides to connect again: retries after a failure,
    redirects, and proxy authentication (Basic and Digest).  Each of these may call the others, on
    the stack or through later events; the number of connections stays bounded. */
module HttpClients {
  import opened HttpText
  import opened HttpReceive

  const MAX_REDIRECTS := 5

  datatype RedirectAction = RedirectDefault | RedirectNever | RedirectAlways
  datatype Verb = Get | Head | Post | OtherVerb
  datatype AuthResult = HAR_RESPONSE | HAR_IGNORE | HAR_CREDENTIALS

  const HC_SEE_OTHER := 303
  const HC_PROXY_AUTHENTICATION_REQUIRED := 407
  const HC_INTERNAL_SERVER_ERROR := 500

  /** What the client looks at in a response; a challenge is the name of its method. */
  datatype Response = Response(scode: nat, hasLocation: bool, challenges: seq<string>)

  const CLEAR_RESPONSE := Response(HC_INTERNAL_SERVER_ERROR, false, [])

  /** What reaches a client between its start and its completion. */
  datatype Event =
    | Resolved(failed: bool)
    | Received(response: Response)
    | Completed(mode: Mode, error: HttpError)

  /** What a client does, in order. */
  datatype Act =
    | LookUp(attempt: nat)
    | Request(attempt: nat)   // RequestConnectedStream
    | TryAgain
    | SendRequest             // base_.send
    | ReceiveResponse         // base_.recv
    | FollowRedirect
    | AnswerChallenge
    | Finish(error: HttpError)

  predicate IsRedirection(code: nat) { 300 <= code <= 399 }
  predicate IsInformational(code: nat) { 100 <= code <= 199 }

  /** ShouldRedirect. */
  predicate ShouldRedirect(action: RedirectAction, r: Response, verb: Verb, redirects: nat) {
    && action != RedirectNever && IsRedirection(r.scode) && r.hasLocation && redirects < MAX_REDIRECTS
    && (action == RedirectAlways || r.scode == HC_SEE_OTHER || verb == Head || verb == Get)
  }

  /** HttpAuthenticate, without the platform's own methods: an answer is given only when there is no
      context yet, and leaves one. */
  function Authenticate(context: Option<string>, scheme: string, hasUser: bool): (r: (AuthResult, Option<string>))
    ensures r.0 == HAR_RESPONSE ==> context.None? && r.1.Some?
    ensures r.0 != HAR_RESPONSE ==> r.1 == context
  {
    if context.Some? && context.value != scheme then (HAR_IGNORE, context)
    else if !SameText(scheme, "basic") && !SameText(scheme, "digest") then (HAR_IGNORE, context)
    else if context.Some? || !hasUser then (HAR_CREDENTIALS, context)
    else (HAR_RESPONSE, Some(scheme))
  }

  /** Fresh starts still possible. */
  function Stages(redirects: nat, hasContext: bool): nat
    requires redirects <= MAX_REDIRECTS
  {
    2 * (MAX_REDIRECTS - redirects) + if hasContext then 0 else 1
  }

  /** Connections still possible, with the redirects, the context and the attempts left. */
  function Budget(retries: nat, redirects: nat, attempt: nat, hasContext: bool): nat
    requires redirects <= MAX_REDIRECTS && attempt <= retries
  {
    Times(Stages(redirects, hasContext), retries + 1) + (retries - attempt)
  }

  /** `s * n`, by repeated addition. */
  function Times(s: nat, n: nat): nat {
    if s == 0 then 0 else Times(s - 1, n) + n
  }

  lemma {:induction false} TimesIsProduct(s: nat, n: nat)
    ensures Times(s, n) == s * n
  {
    if s > 0 {
      TimesIsProduct(s - 1, n);
      assert (s - 1) * n + n == s * n;
    }
  }

  /** A fresh start after a redirect or an authentication costs at least one connection more than
      it gives back in attempts. */
  lemma {:induction false} StageSpends(retries: nat, s: nat, t: nat)
    requires t < s
    ensures Times(t, retries + 1) + retries < Times(s, retries + 1)
  {
    if t < s - 1 {
      StageSpends(retries, s - 1, t);
    }
  }

  /** From a reset client: the first connection and what is left after it. */
  lemma FullBudget(retries: nat)
    ensures 1 + Budget(retries, 0, 0, false) == 2 * (MAX_REDIRECTS + 1) * (retries + 1)
  {
    TimesIsProduct(11, retries + 1);
  }

  /** No start can do more, whatever redirects and context an earlier run has left behind. */
  lemma BudgetBound(retries: nat, redirects: nat, hasContext: bool)
    requires redirects <= MAX_REDIRECTS
    ensures 1 + Budget(retries, redirects, 0, hasContext) <= 2 * (MAX_REDIRECTS + 1) * (retries + 1)
  {
    FullBudget(retries);
    hide Times;
    if Stages(redirects, hasContext) < Stages(0, false) {
      StageSpends(retries, Stages(0, false), Stages(redirects, hasContext));
    }
  }

  class HttpClient {
    const retries: nat
    const redirectAction: RedirectAction
    const viaProxy: bool       // PROXY_HTTPS == proxy_.type
    const hasUser: bool        // a proxy user name is set
    var verb: Verb
    var hasDocument: bool
    var attempt: nat
    var redirects: nat
    var context: Option<string>
    var response: Response
    var resolving: bool        // resolver_ is set
    var done: bool             // no request is in progress: SignalHttpClientComplete was raised
    ghost var trace: seq<Act>
    ghost var connects: nat    // calls of RequestConnectedStream
    ghost var quota: nat       // the number `connects` may not exceed

    ghost predicate InRange()
      reads this
    {
      redirects <= MAX_REDIRECTS && attempt <= retries
    }

    ghost function Left(): nat
      requires InRange()
      reads this
    {
      Budget(retries, redirects, attempt, context.Some?)
    }

    /** What a fresh start would leave after its first connection. */
    ghost function LeftOnStart(): nat
      requires redirects <= MAX_REDIRECTS
      reads this
    {
      Budget(retries, redirects, 0, context.Some?)
    }

    /** A request in progress can still be paid for, and so can the connection a look-up is for. */
    ghost predicate Valid()
      reads this
    {
      && InRange() && connects <= quota && (resolving ==> !done)
      && (!done ==> connects + Left() + (if resolving then 1 else 0) <= quota)
    }

    /** Waiting for the stream, not for a name. */
    ghost predicate Busy()
      reads this
    {
      Valid() && !done && !resolving
    }

    constructor (retries: nat, action: RedirectAction, viaProxy: bool, hasUser: bool)
      ensures Valid() && done && redirects == 0 && context == None && attempt == 0 && connects == 0
      ensures this.retries == retries
    {
      this.retries, redirectAction, this.viaProxy, this.hasUser := retries, action, viaProxy, hasUser;
      verb, hasDocument, attempt, redirects, context := Get, false, 0, 0, None;
      response, resolving, done := CLEAR_RESPONSE, false, true;
      connects, quota, trace := 0, 0, [];
    }

    /** The next thing that was done is to connect, for the given attempt. */
    ghost predicate Connected(before: seq<Act>, n: nat)
      reads this
    {
      |before| < |trace| && before <= trace &&
      (trace[|before|] == LookUp(n) || trace[|before|] == Request(n))
    }

    /** The next thing that was done. */
    ghost predicate Next(before: seq<Act>, act: Act)
      reads this
    {
      |before| < |trace| && before <= trace && trace[|before|] == act
    }

    /** Whether onHttpComplete may try again. */
    ghost predicate MayRetry(error: HttpError)
      reads this
    {
      && (error == HE_DISCONNECTED || error == HE_CONNECT_FAILED || error == HE_SOCKET_ERROR)
      && response.scode == 500 && attempt < retries
    }

    /** Whether it goes where the response points. */
    ghost predicate MayFollow()
      reads this
    {
      && redirectAction != RedirectNever && 300 <= response.scode <= 399 && response.hasLocation && redirects < 5
      && (redirectAction == RedirectAlways || response.scode == 303 || verb == Head || verb == Get)
    }

    /** Whether it can answer a challenge. */
    ghost predicate MayAnswer()
      reads this
    {
      && response.scode == 407 && viaProxy && context == None && hasUser
      && exists i :: 0 <= i < |response.challenges| && Supported(response.challenges[i])
    }

    predicate Supported(scheme: string) {
      SameText(scheme, "basic") || SameText(scheme, "digest")
    }

    /** reset(): a stream in use is aborted, which completes the request; a look-up goes on. */
    method Reset()
      requires Valid()
      modifies this
      ensures redirects == 0 && context == None && response == CLEAR_RESPONSE
      ensures connects == old(connects) && attempt == old(attempt) && quota == old(quota)
      ensures resolving == old(resolving) && done == !resolving
      ensures !old(resolving) ==> Valid()
      ensures trace == old(trace) + if old(done) || old(resolving) then [] else [Finish(HE_OPERATION_CANCELLED)]
    {
      response, context, redirects := CLEAR_RESPONSE, None, 0;
      if !done && !resolving {
        trace := trace + [Finish(HE_OPERATION_CANCELLED)];
        done := true;
      }
    }

    /** The user's start(): from here on at most `1 + LeftOnStart()` connections. */
    method UserStart()
      requires Valid() && done
      modifies this
      ensures Valid() && quota == old(connects) + 1 + old(LeftOnStart())
      ensures Connected(old(trace), 0)
    {
      quota := connects + 1 + LeftOnStart();
      done := false;
      Start();
    }

    /** start() */
    method Start()
      requires redirects <= MAX_REDIRECTS && connects + 1 + LeftOnStart() <= quota && !done && !resolving
      modifies this
      ensures Valid() && quota == old(quota) && Connected(old(trace), 0)
      decreases LeftOnStart(), 2
    {
      attempt := 0;
      Connect();
    }

    /** connect(): a name look-up first, or one request for a stream, which may fail at once. */
    method Connect()
      requires InRange() && connects + 1 + Left() <= quota && !done && !resolving
      modifies this
      ensures Valid() && quota == old(quota) && Connected(old(trace), old(attempt))
      decreases Left(), 1
    {
      var unresolved: bool, refused: bool := *, *;
      if unresolved {
        resolving := true;
        trace := trace + [LookUp(attempt)];
        return;
      }
      connects := connects + 1;
      trace := trace + [Request(attempt)];
      if refused {
        OnHttpComplete(HM_CONNECT, HE_CONNECT_FAILED);
      }
    }

    /** OnResolveResult: the look-up that `Connect` started has ended. */
    method OnResolveResult(failed: bool)
      requires Valid()
      modifies this
      ensures Valid() && quota == old(quota) && old(trace) <= trace
      ensures if !old(resolving) then trace == old(trace)
              else if !failed then Connected(old(trace), old(attempt))
              else Completes(old(trace), old(MayRetry(HE_CONNECT_FAILED)), old(hasDocument), HE_CONNECT_FAILED)
    {
      if !resolving {
        return;
      }
      resolving := false;
      if failed {
        OnHttpComplete(HM_CONNECT, HE_CONNECT_FAILED);
      } else {
        Connect();
      }
    }

    /** A document, if there is one, may fail to rewind. */
    method Rewind() returns (ok: bool)
      ensures !hasDocument ==> ok
    {
      ok := *;
      if !hasDocument {
        ok := true;
      }
    }

    /** A response has been received. */
    method Receive(r: Response)
      requires Valid()
      modifies this`response
      ensures Valid() && response == r
    {
      response := r;
    }

    /** The way on after an error. */
    ghost predicate Completes(before: seq<Act>, retry: bool, document: bool, error: HttpError)
      reads this
    {
      if retry then Next(before, TryAgain) || (document && Next(before, Finish(HE_STREAM)))
      else Next(before, Finish(error))
    }

    /** onHttpComplete: try again, go on, follow a redirect, answer a challenge, or finish; which one, is
        decided by the state before, except that a document may fail to rewind. */
    method OnHttpComplete(mode: Mode, error: HttpError)
      requires Busy()
      modifies this
      ensures Valid() && quota == old(quota) && old(trace) < trace
      ensures error != HE_NONE ==> Completes(old(trace), old(MayRetry(error)), old(hasDocument), error)
      ensures Next(old(trace), TryAgain) ==> Connected(old(trace) + [TryAgain], old(attempt) + 1)
      ensures error == HE_NONE && mode == HM_CONNECT ==> trace == old(trace) + [SendRequest] && !done
      ensures error == HE_NONE && (mode == HM_SEND || (mode != HM_CONNECT && 100 <= old(response).scode <= 199)) ==>
                trace == old(trace) + [ReceiveResponse] && !done
      ensures error == HE_NONE && mode != HM_CONNECT && mode != HM_SEND && !(100 <= old(response).scode <= 199) ==>
                if old(MayFollow()) then
                  || (Next(old(trace), FollowRedirect) && Connected(old(trace) + [FollowRedirect], 0))
                  || (old(hasDocument) && old(response).scode != 303 && trace == old(trace) + [Finish(HE_STREAM)])
                else if old(MayAnswer()) then
                  || (Next(old(trace), AnswerChallenge) && Connected(old(trace) + [AnswerChallenge], 0))
                  || (old(hasDocument) && trace == old(trace) + [Finish(HE_STREAM)])
                else trace == old(trace) + [Finish(HE_NONE)]
      decreases Left(), 0
    {
      hide Times, SameText;
      var err := error;
      if (error == HE_DISCONNECTED || error == HE_CONNECT_FAILED || error == HE_SOCKET_ERROR)
         && response.scode == HC_INTERNAL_SERVER_ERROR && attempt < retries {
        attempt := attempt + 1;
        var replayed := Rewind();
        if replayed {
          trace := trace + [TryAgain];
          Connect();
          return;
        }
        err := HE_STREAM;
      } else if error != HE_NONE {
      } else if mode == HM_CONNECT {
        trace := trace + [SendRequest];
        return;
      } else if mode == HM_SEND || IsInformational(response.scode) {
        trace := trace + [ReceiveResponse];
        return;
      } else if ShouldRedirect(redirectAction, response, verb, redirects) {
        var again := Redirect();
        if again {
          trace := trace + [FollowRedirect];
          Start();
          return;
        }
        err := HE_STREAM;
      } else if response.scode == HC_PROXY_AUTHENTICATION_REQUIRED && viaProxy {
        var again;
        again, err := Answer();
        if again {
          trace := trace + [AnswerChallenge];
          Start();
          return;
        }
      }
      trace := trace + [Finish(err)];
      done := true;
    }

    /** The redirect branch, up to the fresh start. */
    method Redirect() returns (again: bool)
      requires Busy() && redirects < MAX_REDIRECTS
      modifies this
      ensures Busy() && quota == old(quota) && connects == old(connects) && trace == old(trace)
      ensures !again ==> old(hasDocument) && old(response).scode != 303
      ensures again ==> if old(response).scode == 303 then verb == Get && !hasDocument
                        else verb == old(verb) && hasDocument == old(hasDocument)
      ensures again ==> connects + 1 + LeftOnStart() <= quota && LeftOnStart() < old(Left())
      ensures again ==> redirects == old(redirects) + 1 && context == None && response == CLEAR_RESPONSE
    {
      if response.scode == HC_SEE_OTHER {
        verb, hasDocument := Get, false;
      } else {
        var replayed := Rewind();
        if !replayed {
          return false;
        }
      }
      StageSpends(retries, Stages(redirects, context.Some?), Stages(redirects + 1, false));
      redirects, context, response := redirects + 1, None, CLEAR_RESPONSE;
      return true;
    }

    /** The authentication branch: the challenges in turn. */
    method Answer() returns (again: bool, err: HttpError)
      requires Busy() && response.scode == 407 && viaProxy
      modifies this
      ensures Busy() && quota == old(quota) && connects == old(connects) && redirects == old(redirects)
      ensures trace == old(trace)
      ensures again ==> old(MayAnswer()) && err == HE_NONE
      ensures !again ==> if old(MayAnswer()) then old(hasDocument) && err == HE_STREAM else err == HE_NONE
      ensures again ==> connects + 1 + LeftOnStart() <= quota && LeftOnStart() < old(Left())
      ensures again ==> old(context) == None && context.Some? && response == CLEAR_RESPONSE
    {
      hide Times, SameText;
      var challenges := response.challenges;
      err := HE_NONE;
      for i := 0 to |challenges|
        invariant InRange() && redirects == old(redirects) && attempt == old(attempt) && trace == old(trace)
        invariant connects == old(connects) && quota == old(quota) && hasDocument == old(hasDocument)
        invariant context == old(context) || old(context) == None
        invariant Busy() && Left() <= old(Left())
        invariant err == HE_NONE || (err == HE_STREAM && old(MayAnswer()) && old(hasDocument) && context.Some?)
        invariant err == HE_NONE ==> context == old(context)
        invariant err == HE_NONE && context == None ==> forall j :: 0 <= j < i ==> !Supported(challenges[j])
      {
        StageSpends(retries, Stages(redirects, false), Stages(redirects, true));
        var (result, next) := Authenticate(context, challenges[i], hasUser);
        context := next;
        if result == HAR_RESPONSE {
          var replayed := Rewind();
          if replayed {
            response := CLEAR_RESPONSE;
            return true, HE_NONE;
          }
          err := HE_STREAM;
        } else if result != HAR_IGNORE {
          break;
        }
      }
      again := false;
    }

    /** Everything that happens to a client after one start by its user, reset or not. */
    method Transact(events: seq<Event>)
      requires Valid() && done
      modifies this
      ensures Valid()
      ensures connects <= old(connects) + 12 * (retries + 1)
    {
      BudgetBound(retries, redirects, context.Some?);
      UserStart();
      for i := 0 to |events|
        invariant Valid() && quota <= old(connects) + 2 * (MAX_REDIRECTS + 1) * (retries + 1)
      {
        match events[i]
        case Resolved(failed) => OnResolveResult(failed);
        case Received(r) => Receive(r);
        case Completed(mode, error) =>
          if !done && !resolving {
            OnHttpComplete(mode, error);
          }
      }
    }
  }
}
