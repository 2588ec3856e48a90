/** Sending one HTTP request: redirects are followed within an attempt, and attempts are repeated. */
module Retry {
  import opened Wrappers
  import opened Strings
  import opened Integers
  import opened Utf8
  import opened Json

  // ---- requests and the world ------------------------------------------------------------

  type Url = string

  datatype Verb = GET | POST | Other(name: string)

  datatype Payload = Empty | Content(bytes: Bytes)

  datatype Request = Request(verb: Verb, url: Url, body: Payload)

  datatype Location = Missing | NotText | At(text: string)

  /** The body arrives in chunks; the connection may break before its end. */
  datatype Response = Response(
    status: nat, location: Location, contentType: Option<string>, chunks: seq<Bytes>, broken: bool)

  datatype RawResult = RawResult(status: nat, url: Url, body: Bytes, contentType: Option<string>)

  /** What is done to the outside, in order. */
  datatype Event =
    | Checked(url: Url)
    | Validated(url: Url, ips: seq<string>)
    | Sent(request: Request, reply: Option<Response>)
    | Slept(duration: nat)

  /** The outside may answer each time differently: its answers depend on all that has happened. */
  datatype World = World(
    allowed: Url -> bool,
    validate: (seq<Event>, Url) -> Option<seq<string>>,
    client: (Url, seq<string>) -> bool,
    buildable: Request -> bool,
    send: (seq<Event>, Request) -> Option<Response>,
    join: (Url, string) -> Option<Url>,
    decode: RawResult -> Option<Json>)

  datatype Transport = Transport(
    followRedirects: bool, maxRedirectHops: nat, maxResponseBytes: Usize,
    retryMaxAttempts: nat, retryBackoff: nat, retryOnStatus: set<nat>)

  datatype Error =
    | NotAllowed | ValidatorFailed | NoAddresses | NoClient | NoRequest | SendFailed
    | TooManyHops | NoLocation | LocationNotText | LocationInvalid
    | BodyTooLong | BodyBroken | HopsRanOut | NotDecoded | NoDetails

  datatype Outcome<R> = Outcome(log: seq<Event>, result: Result<R, Error>)

  class Network {
    var log: seq<Event>

    constructor ()
      ensures log == []
    {
      log := [];
    }

    method Validate(w: World, url: Url) returns (ips: Option<seq<string>>)
      modifies this
      ensures ips == w.validate(old(log), url)
      ensures log == if ips.Some? then old(log) + [Validated(url, ips.value)] else old(log)
    {
      ips := w.validate(log, url);
      if ips.Some? {
        log := log + [Validated(url, ips.value)];
      }
    }

    method Send(w: World, request: Request) returns (reply: Option<Response>)
      modifies this
      ensures reply == w.send(old(log), request) && log == old(log) + [Sent(request, reply)]
    {
      reply := w.send(log, request);
      log := log + [Sent(request, reply)];
    }

    method Sleep(duration: nat)
      modifies this
      ensures log == old(log) + [Slept(duration)]
    {
      log := log + [Slept(duration)];
    }
  }

  // ---- the body, within its limit ---------------------------------------------------------

  function Limited(out: Bytes, chunks: seq<Bytes>, broken: bool, limit: Usize): Result<Bytes, Error>
    decreases |chunks|
  {
    if chunks == [] then if broken then Err(BodyBroken) else Ok(out)
    else if Saturated(|out| + |chunks[0]|) > limit then Err(BodyTooLong)
    else Limited(out + chunks[0], chunks[1..], broken, limit)
  }

  method ReadResponseBodyLimited(response: Response, limit: Usize) returns (r: Result<Bytes, Error>)
    ensures r == Limited([], response.chunks, response.broken, limit)
  {
    var out: Bytes := [];
    for i := 0 to |response.chunks|
      invariant Limited(out, response.chunks[i..], response.broken, limit)
                == Limited([], response.chunks, response.broken, limit)
    {
      var chunk := response.chunks[i];
      assert response.chunks[i..][1..] == response.chunks[i + 1..];
      if Saturated(|out| + |chunk|) > limit {
        return Err(BodyTooLong);
      }
      out := out + chunk;
    }
    if response.broken {
      return Err(BodyBroken);
    }
    return Ok(out);
  }

  /** The whole body comes through exactly when it is complete and fits; a maximal limit limits nothing. */
  lemma {:induction false} LimitedIff(out: Bytes, chunks: seq<Bytes>, broken: bool, limit: Usize)
    requires |out| <= limit || limit == USIZE_MAX
    ensures Limited(out, chunks, broken, limit).Ok? ==>
              Limited(out, chunks, broken, limit).value == out + Flatten(chunks)
    ensures Limited(out, chunks, broken, limit).Ok?
            <==> !broken && (|out| + |Flatten(chunks)| <= limit || limit == USIZE_MAX)
    decreases |chunks|
  {
    if chunks == [] {
      assert out + [] == out;
    } else {
      var first, rest := chunks[0], Flatten(chunks[1..]);
      assert out + (first + rest) == out + first + rest;
      if Saturated(|out| + |first|) <= limit {
        LimitedIff(out + first, chunks[1..], broken, limit);
      }
    }
  }

  // ---- one attempt: following redirects ---------------------------------------------------------

  /** Checking, validating and sending one request. */
  function TrySend(w: World, log: seq<Event>, request: Request): Outcome<Response> {
    if !w.allowed(request.url) then Outcome(log, Err(NotAllowed))
    else
      var checked := log + [Checked(request.url)];
      match w.validate(checked, request.url)
      case None => Outcome(checked, Err(ValidatorFailed))
      case Some(ips) =>
        var validated := checked + [Validated(request.url, ips)];
        if ips == [] then Outcome(validated, Err(NoAddresses))
        else if !w.client(request.url, ips) then Outcome(validated, Err(NoClient))
        else if !w.buildable(request) then Outcome(validated, Err(NoRequest))
        else
          var reply := w.send(validated, request);
          Outcome(validated + [Sent(request, reply)], if reply.Some? then Ok(reply.value) else Err(SendFailed))
  }

  predicate IsRedirection(status: nat) { 300 <= status < 400 }

  /** The request that a redirect leads to. */
  function Redirected(w: World, request: Request, response: Response): Result<Request, Error> {
    match response.location
    case Missing => Err(NoLocation)
    case NotText => Err(LocationNotText)
    case At(text) =>
      match w.join(request.url, text)
      case None => Err(LocationInvalid)
      case Some(url) =>
        var status := response.status;
        if status == 303 || ((status == 301 || status == 302) && request.verb == POST)
        then Ok(Request(GET, url, Empty))
        else Ok(request.(url := url))
  }

  function Hops(w: World, t: Transport, log: seq<Event>, request: Request, hop: nat): Outcome<RawResult>
    decreases t.maxRedirectHops + 1 - hop
  {
    if hop > t.maxRedirectHops then Outcome(log, Err(HopsRanOut))
    else
      var sent := TrySend(w, log, request);
      match sent.result
      case Err(e) => Outcome(sent.log, Err(e))
      case Ok(response) =>
        if IsRedirection(response.status) && t.followRedirects then
          if hop >= t.maxRedirectHops then Outcome(sent.log, Err(TooManyHops))
          else
            match Redirected(w, request, response)
            case Err(e) => Outcome(sent.log, Err(e))
            case Ok(next) => Hops(w, t, sent.log, next, hop + 1)
        else
          match Limited([], response.chunks, response.broken, t.maxResponseBytes)
          case Err(e) => Outcome(sent.log, Err(e))
          case Ok(body) =>
            Outcome(sent.log, Ok(RawResult(response.status, request.url, body, response.contentType)))
  }

  method ExecuteHttpOnce(w: World, network: Network, t: Transport, original: Request)
    returns (r: Result<RawResult, Error>)
    modifies network
    ensures Outcome(network.log, r) == Hops(w, t, old(network.log), original, 0)
  {
    var verb, body, url := original.verb, original.body, original.url;
    for hop := 0 to t.maxRedirectHops + 1
      invariant Hops(w, t, network.log, Request(verb, url, body), hop)
                == Hops(w, t, old(network.log), original, 0)
    {
      var request := Request(verb, url, body);
      var sent := SendChecked(w, network, request);
      if sent.Err? {
        return Err(sent.error);
      }
      var response := sent.value;
      if IsRedirection(response.status) && t.followRedirects {
        if hop >= t.maxRedirectHops {
          return Err(TooManyHops);
        }
        if response.location == Missing {
          return Err(NoLocation);
        }
        if response.location == NotText {
          return Err(LocationNotText);
        }
        var newUrl := w.join(url, response.location.text);
        if newUrl == None {
          return Err(LocationInvalid);
        }
        var status := response.status;
        if status == 303 || ((status == 301 || status == 302) && verb == POST) {
          verb := GET;
          body := Empty;
        }
        url := newUrl.value;
        continue;
      }
      var bytes := ReadResponseBodyLimited(response, t.maxResponseBytes);
      if bytes.Err? {
        return Err(bytes.error);
      }
      return Ok(RawResult(response.status, url, bytes.value, response.contentType));
    }
    return Err(HopsRanOut);
  }

  method SendChecked(w: World, network: Network, request: Request) returns (r: Result<Response, Error>)
    modifies network
    ensures Outcome(network.log, r) == TrySend(w, old(network.log), request)
  {
    if !w.allowed(request.url) {
      return Err(NotAllowed);
    }
    network.log := network.log + [Checked(request.url)];
    var ips := network.Validate(w, request.url);
    if ips == None {
      return Err(ValidatorFailed);
    }
    if |ips.value| == 0 {
      return Err(NoAddresses);
    }
    if !w.client(request.url, ips.value) {
      return Err(NoClient);
    }
    if !w.buildable(request) {
      return Err(NoRequest);
    }
    var reply := network.Send(w, request);
    if reply == None {
      return Err(SendFailed);
    }
    return Ok(reply.value);
  }

  // ---- repeating attempts ---------------------------------------------------------------------------

  /** `Duration::MAX`, in nanoseconds. */
  const DURATION_MAX := 0xFFFF_FFFF_FFFF_FFFF * 1_000_000_000 + 999_999_999

  /** The cast to 32 bits drops the higher ones; the product saturates. */
  function Backoff(base: nat, attempt: nat): nat {
    var factor := (if attempt < 1 then 1 else attempt) % 0x1_0000_0000;
    if base * factor > DURATION_MAX then DURATION_MAX else base * factor
  }

  function MaxAttempts(t: Transport): (n: nat)
    ensures n >= 1 && (n == t.retryMaxAttempts || (n == 1 && t.retryMaxAttempts == 0))
  {
    if t.retryMaxAttempts < 1 then 1 else t.retryMaxAttempts
  }

  function Attempts(
      w: World, t: Transport, log: seq<Event>, original: Request, attempt: nat, lastErr: Option<Error>): Outcome<Json>
    decreases MaxAttempts(t) + 1 - attempt
  {
    if attempt > MaxAttempts(t) then Outcome(log, Err(if lastErr.Some? then lastErr.value else NoDetails))
    else
      var o := Hops(w, t, log, original, 0);
      var slept := o.log + [Slept(Backoff(t.retryBackoff, attempt))];
      match o.result
      case Ok(raw) =>
        if raw.status in t.retryOnStatus && attempt < MaxAttempts(t)
        then Attempts(w, t, slept, original, attempt + 1, lastErr)
        else Outcome(o.log, match w.decode(raw) case Some(value) => Ok(value) case None => Err(NotDecoded))
      case Err(e) =>
        if attempt >= MaxAttempts(t) then Outcome(o.log, Err(e))
        else Attempts(w, t, slept, original, attempt + 1, Some(e))
  }

  method ExecutePreparedRequest(w: World, network: Network, t: Transport, original: Request)
    returns (r: Result<Json, Error>)
    modifies network
    ensures Outcome(network.log, r) == Attempts(w, t, old(network.log), original, 1, None)
  {
    hide Hops, Backoff;
    var attempts := MaxAttempts(t);
    var lastErr: Option<Error> := None;
    for attempt := 1 to attempts + 1
      invariant Attempts(w, t, network.log, original, attempt, lastErr)
                == Attempts(w, t, old(network.log), original, 1, None)
    {
      var outcome := ExecuteHttpOnce(w, network, t, original);
      match outcome
      case Ok(raw) =>
        if raw.status in t.retryOnStatus && attempt < attempts {
          network.Sleep(Backoff(t.retryBackoff, attempt));
          continue;
        }
        var decoded := w.decode(raw);
        if decoded == None {
          return Err(NotDecoded);
        }
        return Ok(decoded.value);
      case Err(err) =>
        if attempt >= attempts {
          return Err(err);
        }
        lastErr := Some(err);
        network.Sleep(Backoff(t.retryBackoff, attempt));
    }
    return Err(if lastErr.Some? then lastErr.value else NoDetails);
  }

  // ---- what holds of every trace -----------------------------------------------------------------------

  /** Every request went to a URL that was checked and validated directly before, in its own hop. */
  ghost predicate Safe(w: World, log: seq<Event>) {
    forall i :: 0 <= i < |log| && log[i].Sent? ==> SafeAt(w, log, i)
  }

  predicate SafeAt(w: World, log: seq<Event>, i: nat)
    requires i < |log| && log[i].Sent?
  {
    var url := log[i].request.url;
    && i >= 2 && w.allowed(url) && log[i - 2] == Checked(url)
    && log[i - 1].Validated? && log[i - 1].url == url && log[i - 1].ips != []
    && w.client(url, log[i - 1].ips) && w.buildable(log[i].request)
  }

  function Requests(log: seq<Event>): nat {
    if log == [] then 0
    else Requests(log[..|log| - 1]) + if log[|log| - 1].Sent? then 1 else 0
  }

  function SleepTotal(log: seq<Event>): nat {
    if log == [] then 0
    else SleepTotal(log[..|log| - 1]) + if log[|log| - 1].Slept? then log[|log| - 1].duration else 0
  }

  function Pauses(log: seq<Event>): nat {
    if log == [] then 0
    else Pauses(log[..|log| - 1]) + if log[|log| - 1].Slept? then 1 else 0
  }

  /** The request that a reply calls for, if any. */
  function AfterReply(w: World, t: Transport, request: Request, reply: Option<Response>): Option<Request> {
    if reply.Some? && t.followRedirects && IsRedirection(reply.value.status) && Redirected(w, request, reply.value).Ok?
    then Some(Redirected(w, request, reply.value).value)
    else None
  }

  /** The request that may be sent next: the original at the start of an attempt, else where a redirect leads. */
  function NextRequest(w: World, t: Transport, original: Request, log: seq<Event>): Option<Request> {
    if log == [] then Some(original)
    else
      match log[|log| - 1]
      case Slept(_) => Some(original)
      case Sent(request, reply) => AfterReply(w, t, request, reply)
      case _ => NextRequest(w, t, original, log[..|log| - 1])
  }

  /** Every request is the one that may be sent at its place. */
  ghost predicate Follows(w: World, t: Transport, original: Request, log: seq<Event>) {
    forall i :: 0 <= i < |log| && log[i].Sent? ==> NextRequest(w, t, original, log[..i]) == Some(log[i].request)
  }

  /** All of it. */
  ghost predicate Proper(w: World, t: Transport, original: Request, log: seq<Event>) {
    Safe(w, log) && Follows(w, t, original, log)
  }

  lemma {:induction false} OneMore(w: World, t: Transport, original: Request, log: seq<Event>, e: Event)
    requires Proper(w, t, original, log)
    requires e.Sent? ==> SafeAt(w, log + [e], |log|) && NextRequest(w, t, original, log) == Some(e.request)
    ensures Proper(w, t, original, log + [e])
    ensures Requests(log + [e]) == Requests(log) + if e.Sent? then 1 else 0
    ensures SleepTotal(log + [e]) == SleepTotal(log) + if e.Slept? then e.duration else 0
    ensures Pauses(log + [e]) == Pauses(log) + if e.Slept? then 1 else 0
  {
    hide NextRequest;
    var more := log + [e];
    assert more[..|more| - 1] == log;
    forall i | 0 <= i < |more| && more[i].Sent?
      ensures SafeAt(w, more, i) && NextRequest(w, t, original, more[..i]) == Some(more[i].request)
    {
      assert i <= |log| ==> more[..i] == log[..i];
      if i < |log| {
        assert SafeAt(w, log, i);
      } else {
        assert log[..i] == log;
      }
    }
  }

  lemma NextStays(w: World, t: Transport, original: Request, log: seq<Event>, e: Event)
    ensures NextRequest(w, t, original, log + [e])
            == if e.Slept? then Some(original)
               else if e.Sent? then AfterReply(w, t, e.request, e.reply)
               else NextRequest(w, t, original, log)
  {
    assert (log + [e])[..|log|] == log;
  }

  /** One hop adds at most one request, and that a proper one. */
  lemma HopTrace(w: World, t: Transport, original: Request, log: seq<Event>, request: Request)
    requires Proper(w, t, original, log) && NextRequest(w, t, original, log) == Some(request)
    ensures var o := TrySend(w, log, request);
            && Proper(w, t, original, o.log)
            && Requests(log) <= Requests(o.log) <= Requests(log) + 1
            && SleepTotal(o.log) == SleepTotal(log) && Pauses(o.log) == Pauses(log)
            && (o.result.Ok? ==> o.log != [] && o.log[|o.log| - 1] == Sent(request, Some(o.result.value)))
  {
    hide NextRequest, Proper, Requests, SleepTotal, Pauses;
    if w.allowed(request.url) {
      var checked := log + [Checked(request.url)];
      OneMore(w, t, original, log, Checked(request.url));
      NextStays(w, t, original, log, Checked(request.url));
      match w.validate(checked, request.url)
      case None =>
      case Some(ips) =>
        var validated := checked + [Validated(request.url, ips)];
        OneMore(w, t, original, checked, Validated(request.url, ips));
        NextStays(w, t, original, checked, Validated(request.url, ips));
        if ips != [] && w.client(request.url, ips) && w.buildable(request) {
          OneMore(w, t, original, validated, Sent(request, w.send(validated, request)));
        }
    }
  }

  lemma NextAfterRedirect(
      w: World, t: Transport, original: Request, log: seq<Event>, request: Request, response: Response)
    requires log != [] && log[|log| - 1] == Sent(request, Some(response))
    requires t.followRedirects && IsRedirection(response.status) && Redirected(w, request, response).Ok?
    ensures NextRequest(w, t, original, log) == Some(Redirected(w, request, response).value)
  {
  }

  /** One attempt stays proper, sends at most one request a hop, and does not sleep. */
  lemma {:induction false} HopsTrace(
      w: World, t: Transport, original: Request, log: seq<Event>, request: Request, hop: nat)
    requires Proper(w, t, original, log) && NextRequest(w, t, original, log) == Some(request)
    requires hop <= t.maxRedirectHops + 1
    ensures var o := Hops(w, t, log, request, hop);
            && Proper(w, t, original, o.log)
            && Requests(o.log) <= Requests(log) + (t.maxRedirectHops + 1 - hop)
            && SleepTotal(o.log) == SleepTotal(log) && Pauses(o.log) == Pauses(log)
    decreases t.maxRedirectHops + 1 - hop
  {
    hide NextRequest, Proper, Requests, SleepTotal, Pauses, TrySend, Redirected, Limited;
    if hop <= t.maxRedirectHops {
      HopTrace(w, t, original, log, request);
      var sent := TrySend(w, log, request);
      match sent.result
      case Err(_) =>
      case Ok(response) =>
        if IsRedirection(response.status) && t.followRedirects && hop < t.maxRedirectHops
           && Redirected(w, request, response).Ok? {
          NextAfterRedirect(w, t, original, sent.log, request, response);
          HopsTrace(w, t, original, sent.log, Redirected(w, request, response).value, hop + 1);
        }
    }
  }

  /** Following redirects never runs out of hops without saying so. */
  lemma {:induction false} HopsNeverRunOut(w: World, t: Transport, log: seq<Event>, request: Request, hop: nat)
    requires hop <= t.maxRedirectHops
    ensures Hops(w, t, log, request, hop).result != Err(HopsRanOut)
    decreases t.maxRedirectHops + 1 - hop
  {
    hide TrySend, Limited;
    var sent := TrySend(w, log, request);
    TrySendError(w, log, request);
    match sent.result
    case Err(_) =>
    case Ok(response) =>
      LimitedError([], response.chunks, response.broken, t.maxResponseBytes);
      if hop < t.maxRedirectHops && Redirected(w, request, response).Ok? {
        HopsNeverRunOut(w, t, sent.log, Redirected(w, request, response).value, hop + 1);
      }
  }

  lemma TrySendError(w: World, log: seq<Event>, request: Request)
    ensures TrySend(w, log, request).result != Err(HopsRanOut) && TrySend(w, log, request).result != Err(NoDetails)
  {
  }

  lemma {:induction false} LimitedError(out: Bytes, chunks: seq<Bytes>, broken: bool, limit: Usize)
    ensures Limited(out, chunks, broken, limit) != Err(HopsRanOut)
    ensures Limited(out, chunks, broken, limit) != Err(NoDetails)
    decreases |chunks|
  {
    if chunks == [] {
    } else {
      LimitedError(out + chunks[0], chunks[1..], broken, limit);
    }
  }

  /** After the last hop an attempt has ended: neither loop is ever left at its end. */
  lemma {:induction false} AttemptsNeverRunOut(
      w: World, t: Transport, log: seq<Event>, original: Request, attempt: nat, lastErr: Option<Error>)
    requires 1 <= attempt <= MaxAttempts(t)
    ensures Attempts(w, t, log, original, attempt, lastErr).result != Err(HopsRanOut)
    ensures Attempts(w, t, log, original, attempt, lastErr).result != Err(NoDetails)
    ensures Attempts(w, t, log, original, attempt, lastErr) == Attempts(w, t, log, original, attempt, None)
    decreases MaxAttempts(t) + 1 - attempt
  {
    hide Hops, Backoff, MaxAttempts;
    var o := Hops(w, t, log, original, 0);
    var slept := o.log + [Slept(Backoff(t.retryBackoff, attempt))];
    HopsNeverRunOut(w, t, log, original, 0);
    HopsHaveDetails(w, t, log, original, 0);
    if attempt < MaxAttempts(t) {
      match o.result
      case Ok(_) => AttemptsNeverRunOut(w, t, slept, original, attempt + 1, lastErr);
      case Err(e) => AttemptsNeverRunOut(w, t, slept, original, attempt + 1, Some(e));
    }
  }

  lemma {:induction false} HopsHaveDetails(w: World, t: Transport, log: seq<Event>, request: Request, hop: nat)
    ensures Hops(w, t, log, request, hop).result != Err(NoDetails)
    decreases t.maxRedirectHops + 1 - hop
  {
    hide TrySend, Limited;
    if hop <= t.maxRedirectHops {
      var sent := TrySend(w, log, request);
      TrySendError(w, log, request);
      match sent.result
      case Err(_) =>
      case Ok(response) =>
        LimitedError([], response.chunks, response.broken, t.maxResponseBytes);
        if Redirected(w, request, response).Ok? {
          HopsHaveDetails(w, t, sent.log, Redirected(w, request, response).value, hop + 1);
        }
    }
  }

  lemma BackoffBound(base: nat, attempt: nat)
    requires attempt >= 1
    ensures Backoff(base, attempt) <= base * attempt
  {
    var factor := attempt % 0x1_0000_0000;
    MulMono(base, factor, attempt);
  }

  lemma MulMono(base: nat, a: nat, b: nat)
    requires a <= b
    ensures base * a <= base * b
  {
    assert base * b == base * a + base * (b - a);
  }

  /** Twice the sleep that attempts `a` to `n - 1` may add. */
  function SleepBudget(base: nat, a: nat, n: nat): nat
    requires 1 <= a <= n
  {
    base * ((n - a) * (n + a - 1))
  }

  lemma BudgetStep(base: nat, a: nat, n: nat)
    requires 1 <= a < n
    ensures SleepBudget(base, a, n) == 2 * (base * a) + SleepBudget(base, a + 1, n)
  {
    var rest := (n - (a + 1)) * (n + (a + 1) - 1);
    assert (n - a) * (n + a - 1) == 2 * a + rest;
    assert base * (2 * a + rest) == base * (2 * a) + base * rest;
    assert base * (2 * a) == 2 * (base * a);
  }

  /** The number of requests that attempts from `a` on may send. */
  function RequestBudget(t: Transport, a: nat): nat
    requires a <= MaxAttempts(t) + 1
  {
    (MaxAttempts(t) + 1 - a) * (t.maxRedirectHops + 1)
  }

  lemma RequestStep(t: Transport, a: nat)
    requires 1 <= a <= MaxAttempts(t)
    ensures RequestBudget(t, a) == (t.maxRedirectHops + 1) + RequestBudget(t, a + 1)
  {
    var k, m := MaxAttempts(t) - a, t.maxRedirectHops + 1;
    assert (k + 1) * m == m + k * m;
  }

  lemma {:induction false} AttemptsTrace(
      w: World, t: Transport, log: seq<Event>, original: Request, attempt: nat, lastErr: Option<Error>)
    requires 1 <= attempt <= MaxAttempts(t)
    requires Proper(w, t, original, log) && NextRequest(w, t, original, log) == Some(original)
    ensures var after := Attempts(w, t, log, original, attempt, lastErr).log;
            && Proper(w, t, original, after)
            && Requests(after) <= Requests(log) + RequestBudget(t, attempt)
            && 2 * SleepTotal(after) <= 2 * SleepTotal(log) + SleepBudget(t.retryBackoff, attempt, MaxAttempts(t))
    decreases MaxAttempts(t) + 1 - attempt
  {
    hide Hops, Backoff, NextRequest, Proper, Requests, SleepTotal, Pauses, MaxAttempts, RequestBudget, SleepBudget;
    var o := Hops(w, t, log, original, 0);
    var pause := Slept(Backoff(t.retryBackoff, attempt));
    HopsTrace(w, t, original, log, original, 0);
    RequestStep(t, attempt);
    if attempt < MaxAttempts(t) {
      OneMore(w, t, original, o.log, pause);
      NextStays(w, t, original, o.log, pause);
      BackoffBound(t.retryBackoff, attempt);
      BudgetStep(t.retryBackoff, attempt, MaxAttempts(t));
      match o.result
      case Ok(_) => AttemptsTrace(w, t, o.log + [pause], original, attempt + 1, lastErr);
      case Err(e) => AttemptsTrace(w, t, o.log + [pause], original, attempt + 1, Some(e));
    }
  }

  /** What a run returns for what its last attempt got. */
  function Answer(w: World, got: Result<RawResult, Error>): Result<Json, Error> {
    match got
    case Err(e) => Err(e)
    case Ok(raw) =>
      match w.decode(raw)
      case Some(value) => Ok(value)
      case None => Err(NotDecoded)
  }

  /** The last attempt started behind `start`: it gave the rest of the trace, and its answer is the run's. */
  ghost predicate EndsWithAttempt(w: World, t: Transport, original: Request, start: seq<Event>, o: Outcome<Json>) {
    && start <= o.log && Pauses(start) == Pauses(o.log)
    && (start != [] ==> start[|start| - 1].Slept?)
    && var last := Hops(w, t, start, original, 0);
       o.log == last.log && o.result == Answer(w, last.result)
  }

  /** The attempt behind `start` got a response whose status is not to be retried. */
  predicate Settled(w: World, t: Transport, original: Request, start: seq<Event>) {
    var got := Hops(w, t, start, original, 0).result;
    got.Ok? && got.value.status !in t.retryOnStatus
  }

  lemma TraceGrows(w: World, log: seq<Event>, request: Request)
    ensures log <= TrySend(w, log, request).log
  {
  }

  lemma {:induction false} HopsGrow(w: World, t: Transport, log: seq<Event>, request: Request, hop: nat)
    ensures log <= Hops(w, t, log, request, hop).log
    decreases t.maxRedirectHops + 1 - hop
  {
    hide TrySend, Limited;
    if hop <= t.maxRedirectHops {
      var sent := TrySend(w, log, request);
      TraceGrows(w, log, request);
      match sent.result
      case Err(_) =>
      case Ok(response) =>
        if Redirected(w, request, response).Ok? {
          HopsGrow(w, t, sent.log, Redirected(w, request, response).value, hop + 1);
        }
    }
  }

  /**
   A run returns the answer of its last attempt, and pauses fewer times than it may only when that attempt
   got a response whose status is not to be retried.
   */
  lemma {:induction false} GivesUpLast(
      w: World, t: Transport, log: seq<Event>, original: Request, attempt: nat, lastErr: Option<Error>)
    returns (start: seq<Event>)
    requires 1 <= attempt <= MaxAttempts(t)
    requires Proper(w, t, original, log) && NextRequest(w, t, original, log) == Some(original)
    requires log != [] ==> log[|log| - 1].Slept?
    ensures var o := Attempts(w, t, log, original, attempt, lastErr);
            var pauses := Pauses(o.log) - Pauses(log);
            && 0 <= pauses <= MaxAttempts(t) - attempt
            && EndsWithAttempt(w, t, original, start, o)
            && (pauses < MaxAttempts(t) - attempt ==> Settled(w, t, original, start))
    decreases MaxAttempts(t) + 1 - attempt
  {
    hide Hops, Backoff, NextRequest, Proper, Requests, SleepTotal, Pauses, MaxAttempts;
    var o := Hops(w, t, log, original, 0);
    var pause := Slept(Backoff(t.retryBackoff, attempt));
    HopsTrace(w, t, original, log, original, 0);
    HopsGrow(w, t, log, original, 0);
    OneMore(w, t, original, o.log, pause);
    NextStays(w, t, original, o.log, pause);
    if attempt < MaxAttempts(t) && (o.result.Ok? ==> o.result.value.status in t.retryOnStatus) {
      var err := if o.result.Ok? then lastErr else Some(o.result.error);
      start := GivesUpLast(w, t, o.log + [pause], original, attempt + 1, err);
    } else {
      start := log;
    }
  }

  /**
   * Whatever the outside answers: every request is checked and validated in its own hop and is the one
   * called for; there are at most `attempts * (hops + 1)` of them; and all sleeping together takes at
   * most `base * n * (n - 1) / 2` for `n` attempts.
   */
  lemma EveryRun(w: World, t: Transport, original: Request)
    ensures var log, n := Attempts(w, t, [], original, 1, None).log, MaxAttempts(t);
            && Safe(w, log) && Follows(w, t, original, log)
            && Requests(log) <= n * (t.maxRedirectHops + 1)
            && 2 * SleepTotal(log) <= t.retryBackoff * ((n - 1) * n)
            && Pauses(log) <= n - 1
  {
    hide Attempts;
    AttemptsTrace(w, t, [], original, 1, None);
    var _ := GivesUpLast(w, t, [], original, 1, None);
  }

  /** Once a request of an attempt is downgraded to an empty GET, so are the ones after it. */
  lemma DowngradeStays(w: World, request: Request, response: Response)
    requires Redirected(w, request, response).Ok?
    ensures var next := Redirected(w, request, response).value;
            && ((next.verb, next.body) == (request.verb, request.body) || (next.verb, next.body) == (GET, Empty))
            && ((request.verb, request.body) == (GET, Empty) ==> (next.verb, next.body) == (GET, Empty))
  {
  }

  /** No pause lies between two places of the trace: they are in one attempt. */
  ghost predicate SameAttempt(log: seq<Event>, i: nat, j: nat)
    requires j <= |log|
  {
    forall k :: i <= k < j ==> !log[k].Slept?
  }

  predicate EmptyGet(request: Request) { request.verb == GET && request.body == Empty }

  /** Behind an empty GET, only an empty GET is called for within the attempt. */
  lemma {:induction false} EmptyGetNext(w: World, t: Transport, original: Request, log: seq<Event>, i: nat, j: nat)
    requires Follows(w, t, original, log) && i < j <= |log| && SameAttempt(log, i, j)
    requires log[i].Sent? && EmptyGet(log[i].request)
    requires NextRequest(w, t, original, log[..j]).Some?
    ensures EmptyGet(NextRequest(w, t, original, log[..j]).value)
    decreases j
  {
    assert log[..j][..j - 1] == log[..j - 1];
    match log[j - 1]
    case Slept(_) =>
    case Sent(request, reply) =>
      if i < j - 1 {
        EmptyGetNext(w, t, original, log, i, j - 1);
      }
      DowngradeStays(w, request, reply.value);
    case _ => EmptyGetNext(w, t, original, log, i, j - 1);
  }

  /** Within one attempt, every request behind an empty GET is an empty GET. */
  lemma EmptyGetStays(w: World, t: Transport, original: Request, log: seq<Event>, i: nat, j: nat)
    requires Follows(w, t, original, log) && i < j < |log| && SameAttempt(log, i, j)
    requires log[i].Sent? && log[j].Sent? && EmptyGet(log[i].request)
    ensures EmptyGet(log[j].request)
  {
    EmptyGetNext(w, t, original, log, i, j);
  }

  /** Method and body of every request are the original ones, or those of an empty GET. */
  lemma {:induction false} OnlyOriginalOrGet(w: World, t: Transport, original: Request, log: seq<Event>, i: nat)
    requires Follows(w, t, original, log) && i < |log| && log[i].Sent?
    ensures var r := log[i].request;
            (r.verb, r.body) == (original.verb, original.body) || (r.verb, r.body) == (GET, Empty)
    decreases i, 1
  {
    NextIsOriginalOrGet(w, t, original, log, i);
  }

  lemma {:induction false} NextIsOriginalOrGet(w: World, t: Transport, original: Request, log: seq<Event>, i: nat)
    requires Follows(w, t, original, log) && i <= |log| && NextRequest(w, t, original, log[..i]).Some?
    ensures var r := NextRequest(w, t, original, log[..i]).value;
            (r.verb, r.body) == (original.verb, original.body) || (r.verb, r.body) == (GET, Empty)
    decreases i, 0
  {
    if i > 0 {
      assert log[..i][..i - 1] == log[..i - 1];
      match log[i - 1]
      case Slept(_) =>
      case Sent(request, reply) =>
        OnlyOriginalOrGet(w, t, original, log, i - 1);
        DowngradeStays(w, request, reply.value);
      case _ => NextIsOriginalOrGet(w, t, original, log, i - 1);
    }
  }
}
