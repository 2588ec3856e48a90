/** The traces of the retry loop, read event by event: redirects, pauses, and what an attempt answers. */
module RetryTraces {
  import opened Wrappers
  import opened Strings
  import opened Integers
  import opened Utf8
  import opened Json
  import opened Retry

  // ---- redirects ---------------------------------------------------------------------------

  /** Nothing is sent, and no pause is made, from place `i` up to place `j`. */
  ghost predicate Quiet(log: seq<Event>, i: nat, j: nat)
    requires j <= |log|
  {
    forall k :: i <= k < j ==> !log[k].Sent? && !log[k].Slept?
  }

  lemma {:induction false} NextWaits(w: World, t: Transport, original: Request, log: seq<Event>, i: nat, j: nat)
    requires i <= j <= |log| && Quiet(log, i, j)
    ensures NextRequest(w, t, original, log[..j]) == NextRequest(w, t, original, log[..i])
    decreases j
  {
    if i < j {
      assert log[..j][..j - 1] == log[..j - 1];
      NextWaits(w, t, original, log, i, j - 1);
    }
  }

  /** The first request of an attempt is the original one. */
  lemma AttemptStartsOver(w: World, t: Transport, original: Request, log: seq<Event>, i: nat, j: nat)
    requires Follows(w, t, original, log) && i <= j < |log| && Quiet(log, i, j)
    requires (i == 0 || log[i - 1].Slept?) && log[j].Sent?
    ensures log[j].request == original
  {
    hide Redirected;
    NextWaits(w, t, original, log, i, j);
  }

  /**
   Two requests in a row within an attempt: the first was answered with a redirection, redirects are
   followed, and the second goes where the `Location` leads, as an empty GET after 303, and after 301
   or 302 to a POST, and unchanged otherwise.
   */
  lemma {:induction false} RedirectIsFollowed(
      w: World, t: Transport, original: Request, log: seq<Event>, i: nat, j: nat)
    requires Follows(w, t, original, log) && i < j < |log| && Quiet(log, i + 1, j)
    requires log[i].Sent? && log[j].Sent?
    ensures t.followRedirects && log[i].reply.Some?
    ensures var r, reply, next := log[i].request, log[i].reply.value, log[j].request;
            && 300 <= reply.status <= 399
            && reply.location.At? && w.join(r.url, reply.location.text) == Some(next.url)
            && (if reply.status == 303 || (reply.status in {301, 302} && r.verb == POST)
                then next.verb == GET && next.body == Empty
                else next.verb == r.verb && next.body == r.body)
  {
    NextWaits(w, t, original, log, i + 1, j);
  }

  // ---- what one attempt answers --------------------------------------------------------------

  /** What the last event of an attempt has to do with its result. */
  ghost predicate Answers(w: World, t: Transport, o: Outcome<RawResult>) {
    var n := |o.log| - 1;
    && (o.result.Ok? ==>
          && n >= 0 && o.log[n].Sent? && o.log[n].reply.Some?
          && var got, reply, raw := o.log[n].request, o.log[n].reply.value, o.result.value;
             && raw == RawResult(reply.status, got.url, Flatten(reply.chunks), reply.contentType)
             && !(t.followRedirects && 300 <= reply.status <= 399)
             && !reply.broken && (|raw.body| <= t.maxResponseBytes || t.maxResponseBytes == USIZE_MAX))
    && (o.result.Err? ==>
          match o.result.error
          case ValidatorFailed => n >= 0 && o.log[n].Checked?
          case NoAddresses => n >= 0 && o.log[n].Validated? && o.log[n].ips == []
          case NoClient => n >= 0 && o.log[n].Validated? && !w.client(o.log[n].url, o.log[n].ips)
          case NoRequest => n >= 0 && o.log[n].Validated? && o.log[n].ips != []
          case SendFailed => n >= 0 && o.log[n].Sent? && o.log[n].reply == None
          case TooManyHops => Redirection(t, o.log)
          case NoLocation => Redirection(t, o.log) && o.log[n].reply.value.location == Missing
          case LocationNotText => Redirection(t, o.log) && o.log[n].reply.value.location == NotText
          case LocationInvalid =>
            && Redirection(t, o.log) && o.log[n].reply.value.location.At?
            && w.join(o.log[n].request.url, o.log[n].reply.value.location.text) == None
          case BodyTooLong =>
            && n >= 0 && o.log[n].Sent? && o.log[n].reply.Some? && t.maxResponseBytes < USIZE_MAX
            && |Flatten(o.log[n].reply.value.chunks)| > t.maxResponseBytes
          case BodyBroken => n >= 0 && o.log[n].Sent? && o.log[n].reply.Some? && o.log[n].reply.value.broken
          case _ => true)
  }

  /** The trace ends with a redirection that is to be followed. */
  predicate Redirection(t: Transport, log: seq<Event>) {
    && log != [] && log[|log| - 1].Sent? && log[|log| - 1].reply.Some?
    && t.followRedirects && 300 <= log[|log| - 1].reply.value.status <= 399
  }

  lemma SendAnswers(w: World, t: Transport, log: seq<Event>, request: Request)
    ensures var o := TrySend(w, log, request);
            && (o.result.Err? ==> Answers(w, t, Outcome(o.log, Err(o.result.error))))
            && (o.result.Ok? ==> o.log != [] && o.log[|o.log| - 1] == Sent(request, Some(o.result.value)))
  {
    hide Limited;
  }

  lemma {:induction false} LimitedErrors(out: Bytes, chunks: seq<Bytes>, broken: bool, limit: Usize)
    requires |out| <= limit || limit == USIZE_MAX
    ensures var r := Limited(out, chunks, broken, limit);
            r.Err? ==> && (r.error == BodyTooLong || (r.error == BodyBroken && broken))
                       && (r.error == BodyTooLong ==> limit < USIZE_MAX && |out| + |Flatten(chunks)| > limit)
    decreases |chunks|
  {
    if chunks == [] {
    } else if Saturated(|out| + |chunks[0]|) <= limit {
      LimitedErrors(out + chunks[0], chunks[1..], broken, limit);
    }
  }

  lemma BodyAnswers(w: World, t: Transport, log: seq<Event>, request: Request, response: Response)
    requires log != [] && log[|log| - 1] == Sent(request, Some(response))
    requires !(t.followRedirects && IsRedirection(response.status))
    ensures var body := Limited([], response.chunks, response.broken, t.maxResponseBytes);
            && (body.Err? ==> Answers(w, t, Outcome(log, Err(body.error))))
            && (body.Ok? ==> Answers(w, t, Outcome(log, Ok(
                  RawResult(response.status, request.url, body.value, response.contentType)))))
  {
    hide Limited;
    LimitedErrors([], response.chunks, response.broken, t.maxResponseBytes);
    LimitedIff([], response.chunks, response.broken, t.maxResponseBytes);
    assert [] + Flatten(response.chunks) == Flatten(response.chunks);
  }

  /**
   The result of an attempt is what its last event says: the whole body, status and type of the last
   response, under the last URL, when that is no redirection to follow; otherwise the error of that event.
   */
  lemma {:induction false} AttemptAnswers(w: World, t: Transport, log: seq<Event>, request: Request, hop: nat)
    requires hop <= t.maxRedirectHops
    ensures Answers(w, t, Hops(w, t, log, request, hop))
    decreases t.maxRedirectHops + 1 - hop
  {
    hide TrySend, Limited, Answers;
    var sent := TrySend(w, log, request);
    SendAnswers(w, t, log, request);
    match sent.result
    case Err(_) =>
    case Ok(response) =>
      if !(IsRedirection(response.status) && t.followRedirects) {
        BodyAnswers(w, t, sent.log, request, response);
      } else if hop < t.maxRedirectHops && Redirected(w, request, response).Ok? {
        AttemptAnswers(w, t, sent.log, Redirected(w, request, response).value, hop + 1);
      } else {
        RedirectionAnswers(w, t, sent.log, request, response);
      }
  }

  lemma RedirectionAnswers(w: World, t: Transport, log: seq<Event>, request: Request, response: Response)
    requires log != [] && log[|log| - 1] == Sent(request, Some(response))
    requires t.followRedirects && IsRedirection(response.status)
    ensures Answers(w, t, Outcome(log, Err(TooManyHops)))
    ensures var next := Redirected(w, request, response);
            next.Err? ==> Answers(w, t, Outcome(log, Err(next.error)))
  {
  }

  /** An attempt gives up on redirects exactly behind as many as are allowed. */
  lemma {:induction false} HopsAreCounted(
      w: World, t: Transport, original: Request, log: seq<Event>, request: Request, hop: nat)
    requires hop <= t.maxRedirectHops
    requires Proper(w, t, original, log) && NextRequest(w, t, original, log) == Some(request)
    ensures var o := Hops(w, t, log, request, hop);
            o.result == Err(TooManyHops) ==> Requests(o.log) == Requests(log) + (t.maxRedirectHops + 1 - hop)
    decreases t.maxRedirectHops + 1 - hop
  {
    hide NextRequest, Proper, Requests, SleepTotal, Pauses, Limited, TrySend, Redirected;
    SendIsNoHop(w, log, request);
    RedirectIsNoHop(w, request);
    HopTrace(w, t, original, log, request);
    var sent := TrySend(w, log, request);
    match sent.result
    case Err(_) =>
    case Ok(response) =>
      SentOnce(w, log, request);
      LimitedErrors([], response.chunks, response.broken, t.maxResponseBytes);
      if IsRedirection(response.status) && t.followRedirects && hop < t.maxRedirectHops
         && Redirected(w, request, response).Ok? {
        NextAfterRedirect(w, t, original, sent.log, request, response);
        HopsAreCounted(w, t, original, sent.log, Redirected(w, request, response).value, hop + 1);
      }
  }

  lemma SendIsNoHop(w: World, log: seq<Event>, request: Request)
    ensures TrySend(w, log, request).result != Err(TooManyHops)
  {
  }

  lemma RedirectIsNoHop(w: World, request: Request)
    ensures forall response :: Redirected(w, request, response) != Err(TooManyHops)
  {
  }

  lemma SentOnce(w: World, log: seq<Event>, request: Request)
    requires TrySend(w, log, request).result.Ok?
    ensures Requests(TrySend(w, log, request).log) == Requests(log) + 1
  {
    var checked := log + [Checked(request.url)];
    var validated := checked + [Validated(request.url, w.validate(checked, request.url).value)];
    var all := TrySend(w, log, request).log;
    assert checked[..|log|] == log && Requests(checked) == Requests(log);
    assert validated[..|checked|] == checked && Requests(validated) == Requests(log);
    assert all[..|validated|] == validated;
  }

  // ---- pauses ----------------------------------------------------------------------------------

  /**
   * The pause at place `i` follows an attempt that began behind the pause before it, or at the start, and
   * failed or got a status to retry; it is not the last attempt; and after `n` attempts the pause takes `n`
   * times the base, as a 32-bit factor and at most the longest duration.
   */
  ghost predicate PauseOk(w: World, t: Transport, original: Request, log: seq<Event>, i: nat)
    requires i < |log| && log[i].Slept?
  {
    var n := Pauses(log[..i]) + 1;
    && (n < t.retryMaxAttempts)
    && (exists start ::
          && 0 <= start <= i && (start == 0 || log[start - 1].Slept?)
          && var o := Hops(w, t, log[..start], original, 0);
             o.log == log[..i] && (o.result.Ok? ==> o.result.value.status in t.retryOnStatus))
    && var long := t.retryBackoff * (n % 0x1_0000_0000);
       log[i].duration == if long > 0xFFFF_FFFF_FFFF_FFFF * 1_000_000_000 + 999_999_999
                          then 0xFFFF_FFFF_FFFF_FFFF * 1_000_000_000 + 999_999_999 else long
  }

  ghost predicate PausesOk(w: World, t: Transport, original: Request, log: seq<Event>) {
    forall i :: 0 <= i < |log| && log[i].Slept? ==> PauseOk(w, t, original, log, i)
  }

  lemma PauseKept(w: World, t: Transport, original: Request, log: seq<Event>, more: seq<Event>, i: nat)
    requires i < |log| && log <= more && log[i].Slept? && PauseOk(w, t, original, log, i)
    ensures PauseOk(w, t, original, more, i)
  {
    hide Hops, Pauses;
    var start: nat :| 0 <= start <= i && (start == 0 || log[start - 1].Slept?)
                 && var o := Hops(w, t, log[..start], original, 0);
                    o.log == log[..i] && (o.result.Ok? ==> o.result.value.status in t.retryOnStatus);
    assert more[..i] == log[..i] && more[..start] == log[..start];
  }

  lemma {:induction false} SameCountQuiet(log: seq<Event>, more: seq<Event>, i: nat)
    requires log <= more && Pauses(log) == Pauses(more) && |log| <= i < |more|
    ensures !more[i].Slept?
    decreases |more|
  {
    var init := more[..|more| - 1];
    PausesGrow(log, init);
    if i < |more| - 1 {
      SameCountQuiet(log, init, i);
    }
  }

  lemma {:induction false} PausesGrow(log: seq<Event>, more: seq<Event>)
    requires log <= more
    ensures Pauses(log) <= Pauses(more)
    decreases |more|
  {
    if |log| < |more| {
      PausesGrow(log, more[..|more| - 1]);
    } else {
      assert log == more;
    }
  }

  lemma AttemptKeepsPauses(w: World, t: Transport, original: Request, log: seq<Event>, o: Outcome<RawResult>)
    requires PausesOk(w, t, original, log) && log <= o.log && Pauses(log) == Pauses(o.log)
    ensures PausesOk(w, t, original, o.log)
  {
    hide PauseOk, Pauses;
    forall i | 0 <= i < |o.log| && o.log[i].Slept? ensures PauseOk(w, t, original, o.log, i) {
      if i >= |log| {
        SameCountQuiet(log, o.log, i);
      } else {
        PauseKept(w, t, original, log, o.log, i);
      }
    }
  }

  /** One more pause behind an attempt. */
  lemma PauseAdded(w: World, t: Transport, original: Request, log: seq<Event>, attempt: nat)
    requires PausesOk(w, t, original, log) && Pauses(log) + 1 == attempt < t.retryMaxAttempts
    requires log != [] ==> log[|log| - 1].Slept?
    requires var o := Hops(w, t, log, original, 0);
             && log <= o.log && Pauses(o.log) == Pauses(log)
             && (o.result.Ok? ==> o.result.value.status in t.retryOnStatus)
    ensures var slept := Hops(w, t, log, original, 0).log + [Slept(Backoff(t.retryBackoff, attempt))];
            PausesOk(w, t, original, slept) && Pauses(slept) == attempt
  {
    hide Hops, PauseOk;
    var o := Hops(w, t, log, original, 0);
    var slept := o.log + [Slept(Backoff(t.retryBackoff, attempt))];
    AttemptKeepsPauses(w, t, original, log, o);
    assert slept[..|o.log|] == o.log;
    forall i | 0 <= i < |slept| && slept[i].Slept? ensures PauseOk(w, t, original, slept, i) {
      if i < |o.log| {
        PauseKept(w, t, original, o.log, slept, i);
      } else {
        NewPause(w, t, original, log, attempt, slept);
      }
    }
  }

  lemma NewPause(w: World, t: Transport, original: Request, log: seq<Event>, attempt: nat, slept: seq<Event>)
    requires Pauses(log) + 1 == attempt < t.retryMaxAttempts && (log != [] ==> log[|log| - 1].Slept?)
    requires var o := Hops(w, t, log, original, 0);
             && log <= o.log && Pauses(o.log) == Pauses(log)
             && (o.result.Ok? ==> o.result.value.status in t.retryOnStatus)
             && slept == o.log + [Slept(Backoff(t.retryBackoff, attempt))]
    ensures PauseOk(w, t, original, slept, |slept| - 1)
  {
    hide Hops, Pauses;
    var n := |slept| - 1;
    assert slept[..n] == Hops(w, t, log, original, 0).log && slept[..|log|] == log;
    assert log != [] ==> slept[|log| - 1] == log[|log| - 1];
  }

  lemma {:induction false} AttemptsPause(
      w: World, t: Transport, log: seq<Event>, original: Request, attempt: nat, lastErr: Option<Error>)
    requires 1 <= attempt <= MaxAttempts(t) && Pauses(log) + 1 == attempt
    requires Proper(w, t, original, log) && NextRequest(w, t, original, log) == Some(original)
    requires PausesOk(w, t, original, log) && (log != [] ==> log[|log| - 1].Slept?)
    ensures PausesOk(w, t, original, Attempts(w, t, log, original, attempt, lastErr).log)
    decreases MaxAttempts(t) + 1 - attempt
  {
    hide Hops, Backoff, NextRequest, Proper, Requests, SleepTotal, Pauses, MaxAttempts, PausesOk;
    var o := Hops(w, t, log, original, 0);
    var pause := Slept(Backoff(t.retryBackoff, attempt));
    HopsTrace(w, t, original, log, original, 0);
    HopsGrow(w, t, log, original, 0);
    if attempt < MaxAttempts(t) && (o.result.Ok? ==> o.result.value.status in t.retryOnStatus) {
      AttemptsLeft(t, attempt);
      OneMore(w, t, original, o.log, pause);
      NextStays(w, t, original, o.log, pause);
      PauseAdded(w, t, original, log, attempt);
      var err := if o.result.Ok? then lastErr else Some(o.result.error);
      AttemptsPause(w, t, o.log + [pause], original, attempt + 1, err);
    } else {
      AttemptKeepsPauses(w, t, original, log, o);
    }
  }

  lemma AttemptsLeft(t: Transport, attempt: nat)
    requires 1 <= attempt < MaxAttempts(t)
    ensures attempt < t.retryMaxAttempts
  {
  }

  /**
   Whatever the outside answers, every pause of a run has its cause and its length: it follows an attempt
   that failed or got a status to retry, while attempts are left.
   */
  lemma {:induction false} EveryPause(w: World, t: Transport, original: Request, i: nat)
    requires var log := Attempts(w, t, [], original, 1, None).log; i < |log| && log[i].Slept?
    ensures PauseOk(w, t, original, Attempts(w, t, [], original, 1, None).log, i)
  {
    hide Attempts, PauseOk;
    AttemptsPause(w, t, [], original, 1, None);
  }
}
