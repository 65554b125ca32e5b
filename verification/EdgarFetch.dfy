/** Requests to SEC EDGAR: three attempts each, every one behind the shared rate limiter. */
module EdgarFetch {
  import opened TokenBucket

  const MAX_ATTEMPTS: nat := 3

  datatype Response = TransportError | Status(code: nat, body: string)
  datatype Outcome = Content(body: string) | StatusError(code: nat) | GaveUp(last: Response)

  predicate Retryable(r: Response) {
    r.TransportError? || r.code == 429 || r.code == 503
  }

  // `raise_for_status` lets only 2xx through.
  function Decided(r: Response): Outcome
    requires !Retryable(r)
  {
    if 200 <= r.code < 300 then Content(r.body) else StatusError(r.code)
  }

  // ---------------------------------------------------------------- one fetch

  // No answer at all, too many requests, or service unavailable.
  predicate AsksAgain(r: Response) {
    match r
    case TransportError => true
    case Status(code, _) => code == 429 || code == 503
  }

  /** The first answer that is not retryable decides, within three attempts; otherwise the last error is kept. */
  ghost predicate FetchResult(responses: seq<Response>, requests: nat, o: Outcome) {
    && 1 <= requests <= 3 && requests <= |responses|
    && (forall i :: 0 <= i < requests - 1 ==> AsksAgain(responses[i]))
    && match responses[requests - 1]
       case TransportError => requests == 3 && o == GaveUp(TransportError)
       case Status(code, body) =>
         if code == 429 || code == 503 then requests == 3 && o == GaveUp(Status(code, body))
         else if code / 100 == 2 then o == Content(body)
         else o == StatusError(code)
  }

  lemma FetchResultUnique(responses: seq<Response>, n: nat, o: Outcome, n': nat, o': Outcome)
    requires FetchResult(responses, n, o) && FetchResult(responses, n', o')
    ensures n == n' && o == o'
  {
  }

  method Fetch(responses: seq<Response>) returns (requests: nat, o: Outcome)
    requires |responses| >= MAX_ATTEMPTS
    ensures FetchResult(responses, requests, o)
  {
    var lastError := TransportError;
    requests := 0;
    for attempt := 0 to MAX_ATTEMPTS
      invariant requests == attempt
      invariant forall i :: 0 <= i < attempt ==> Retryable(responses[i])
      invariant attempt > 0 ==> lastError == responses[attempt - 1]
    {
      requests := requests + 1;
      if Retryable(responses[attempt]) {
        lastError := responses[attempt];
      } else {
        return requests, Decided(responses[attempt]);
      }
    }
    o := GaveUp(lastError);
  }

  // ---------------------------------------------------------------- many fetches at once

  // A caller asks the limiter for its next attempt, may hold a grant it has not used, or is done.
  datatype Phase = Waiting(attempt: nat) | Holding(attempt: nat) | Finished(requests: nat, outcome: Outcome)
  datatype Fleet = Fleet(bucket: State, callers: seq<Phase>, grants: seq<real>, requests: nat)
  datatype Action = TryPass(caller: nat, now: real) | Send(caller: nat, response: Response)

  function AfterResponse(attempt: nat, r: Response): Phase {
    if !Retryable(r) then Finished(attempt + 1, Decided(r))
    else if attempt + 1 < MAX_ATTEMPTS then Waiting(attempt + 1)
    else Finished(attempt + 1, GaveUp(r))
  }

  /** One step; an action that is not enabled changes nothing. */
  function Step(rate: real, f: Fleet, a: Action): Fleet {
    match a
    case TryPass(c, now) =>
      if c >= |f.callers| || !f.callers[c].Waiting? then f
      else if Grants(rate, f.bucket, now) then
        Fleet(Next(rate, f.bucket, now), f.callers[c := Holding(f.callers[c].attempt)], f.grants + [now], f.requests)
      else f.(bucket := Next(rate, f.bucket, now))
    case Send(c, r) =>
      if c >= |f.callers| || !f.callers[c].Holding? then f
      else f.(callers := f.callers[c := AfterResponse(f.callers[c].attempt, r)], requests := f.requests + 1)
  }

  function Start(n: nat, now: real): Fleet {
    Fleet(State(1.0, now), seq(n, _ => Waiting(0)), [], 0)
  }

  function Run(rate: real, f: Fleet, actions: seq<Action>): Fleet {
    if actions == [] then f
    else Step(rate, Run(rate, f, actions[..|actions| - 1]), actions[|actions| - 1])
  }

  // The passes a run really makes, in order.
  function Passes(rate: real, f: Fleet, actions: seq<Action>): seq<real> {
    if actions == [] then [] else
    var n := |actions| - 1;
    var g, a := Run(rate, f, actions[..n]), actions[n];
    Passes(rate, f, actions[..n])
      + if a.TryPass? && a.caller < |g.callers| && g.callers[a.caller].Waiting? then [a.now] else []
  }

  function Holders(callers: seq<Phase>): nat {
    if callers == [] then 0 else (if callers[0].Holding? then 1 else 0) + Holders(callers[1..])
  }

  // The requests a caller has sent so far.
  function Sent(p: Phase): nat {
    match p
    case Waiting(a) => a
    case Holding(a) => a
    case Finished(n, _) => n
  }

  function TotalSent(callers: seq<Phase>): nat {
    if callers == [] then 0 else Sent(callers[0]) + TotalSent(callers[1..])
  }

  lemma {:induction false} ReplaceCaller(callers: seq<Phase>, c: nat, p: Phase)
    requires c < |callers|
    ensures Holders(callers[c := p]) == Holders(callers)
        + (if p.Holding? then 1 else 0) - (if callers[c].Holding? then 1 else 0)
    ensures TotalSent(callers[c := p]) == TotalSent(callers) + Sent(p) - Sent(callers[c])
  {
    hide Sent;
    if c > 0 {
      ReplaceCaller(callers[1..], c - 1, p);
      assert callers[c := p][1..] == callers[1..][c - 1 := p];
    } else {
      assert callers[c := p][1..] == callers[1..];
    }
  }

  lemma {:induction false} FreshCallers(callers: seq<Phase>)
    requires forall i :: 0 <= i < |callers| ==> callers[i] == Waiting(0)
    ensures Holders(callers) == 0 && TotalSent(callers) == 0
  {
    if callers != [] {
      FreshCallers(callers[1..]);
    }
  }

  predicate AttemptsLeft(p: Phase) {
    match p
    case Waiting(a) => a < MAX_ATTEMPTS
    case Holding(a) => a < MAX_ATTEMPTS
    case Finished(n, _) => n <= MAX_ATTEMPTS
  }

  ghost predicate Accounted(f: Fleet) {
    && |f.grants| == f.requests + Holders(f.callers)
    && f.requests == TotalSent(f.callers)
    && forall i :: 0 <= i < |f.callers| ==> AttemptsLeft(f.callers[i])
  }

  lemma StepAccounted(rate: real, f: Fleet, a: Action)
    requires Accounted(f)
    ensures Accounted(Step(rate, f, a))
  {
    hide Grants, Next;
    if a.caller < |f.callers| {
      var p := f.callers[a.caller];
      if a.TryPass? && p.Waiting? {
        ReplaceCaller(f.callers, a.caller, Holding(p.attempt));
      } else if a.Send? && p.Holding? {
        ReplaceCaller(f.callers, a.caller, AfterResponse(p.attempt, a.response));
      }
    }
  }

  /** In every run each request has used up one grant of its own, and no caller sends more than three. */
  lemma {:induction false} RequestsHaveGrants(rate: real, n: nat, start: real, actions: seq<Action>)
    ensures Accounted(Run(rate, Start(n, start), actions))
    ensures |Run(rate, Start(n, start), actions).callers| == n
  {
    hide Accounted;
    if actions == [] {
      assert Accounted(Start(n, start)) by { StartAccounted(n, start); }
    } else {
      RequestsHaveGrants(rate, n, start, actions[..|actions| - 1]);
      StepAccounted(rate, Run(rate, Start(n, start), actions[..|actions| - 1]), actions[|actions| - 1]);
    }
  }

  lemma StartAccounted(n: nat, start: real)
    ensures Accounted(Start(n, start))
  {
    FreshCallers(Start(n, start).callers);
  }

  lemma {:induction false} RunIsBucketRun(rate: real, n: nat, start: real, actions: seq<Action>)
    ensures var f := Run(rate, Start(n, start), actions); var times := Passes(rate, Start(n, start), actions);
      f.bucket == After(rate, State(1.0, start), times) && f.grants == GrantTimes(rate, State(1.0, start), times)
  {
    hide Grants, Next;
    if actions != [] {
      var m := |actions| - 1;
      RunIsBucketRun(rate, n, start, actions[..m]);
      var times, a := Passes(rate, Start(n, start), actions[..m]), actions[m];
      assert a.TryPass? ==> (times + [a.now])[..|times|] == times;
      assert times + [] == times;
    }
  }

  /**
   * Whatever the interleaving of callers, passes, answers and retries: the requests sent by the time of the
   * last grant number at most one plus the rate times the time since the first.
   */
  lemma RequestRate(rate: real, n: nat, start: real, actions: seq<Action>)
    requires rate > 0.0 && Monotone(start, Passes(rate, Start(n, start), actions))
    ensures var f := Run(rate, Start(n, start), actions);
      && f.requests <= |f.grants|
      && (f.grants != [] ==> f.requests as real <= 1.0 + rate * (f.grants[|f.grants| - 1] - f.grants[0]))
  {
    hide Run, Passes, Start, GrantTimes, After, Monotone;
    RequestsHaveGrants(rate, n, start, actions);
    RunIsBucketRun(rate, n, start, actions);
    var g := Run(rate, Start(n, start), actions).grants;
    if g != [] {
      WindowBound(rate, start, Passes(rate, Start(n, start), actions), 0, |g|, g[|g| - 1] - g[0]);
    }
  }

  lemma {:induction false} GrantsGrow(rate: real, f: Fleet, actions: seq<Action>, n: nat)
    requires n <= |actions|
    ensures |Run(rate, f, actions[..n]).grants| <= |Run(rate, f, actions).grants|
    decreases |actions|
  {
    hide Grants, Next;
    var m := |actions| - 1;
    if n == |actions| {
      assert actions[..n] == actions;
    } else {
      assert actions[..m][..n] == actions[..n];
      GrantsGrow(rate, f, actions[..m], n);
    }
  }

  /**
   * From any moment of a run to its end: the requests sent are at most the grants given meanwhile and those
   * held unused at that moment, and the grants given are at most one plus the rate times their span.
   */
  lemma RequestsSince(rate: real, n: nat, start: real, actions: seq<Action>, k: nat)
    requires rate > 0.0 && k <= |actions| && Monotone(start, Passes(rate, Start(n, start), actions))
    ensures var f1, f2 := Run(rate, Start(n, start), actions[..k]), Run(rate, Start(n, start), actions);
      var i, j := |f1.grants|, |f2.grants|;
      && i <= j
      && f2.requests - f1.requests <= Holders(f1.callers) + (j - i)
      && (i < j ==> (j - i) as real <= 1.0 + rate * (f2.grants[j - 1] - f2.grants[i]))
  {
    hide Run, Passes, Start, GrantTimes, After, Monotone;
    RequestsHaveGrants(rate, n, start, actions[..k]);
    RequestsHaveGrants(rate, n, start, actions);
    GrantsGrow(rate, Start(n, start), actions, k);
    RunIsBucketRun(rate, n, start, actions);
    var i, g := |Run(rate, Start(n, start), actions[..k]).grants|, Run(rate, Start(n, start), actions).grants;
    if i < |g| {
      WindowBound(rate, start, Passes(rate, Start(n, start), actions), i, |g|, g[|g| - 1] - g[i]);
    }
  }

  // ---------------------------------------------------------------- what each caller of a fleet gets

  /** The answers a run gives to one caller, in order. */
  function Answers(rate: real, f: Fleet, actions: seq<Action>, c: nat): seq<Response> {
    if actions == [] then [] else
    var m := |actions| - 1;
    var g, a := Run(rate, f, actions[..m]), actions[m];
    Answers(rate, f, actions[..m], c)
      + if a.Send? && a.caller == c && c < |g.callers| && g.callers[c].Holding? then [a.response] else []
  }

  /** Where a caller stands follows from its own answers alone. */
  ghost predicate Follows(p: Phase, answers: seq<Response>) {
    match p
    case Finished(n, o) => n == |answers| && FetchResult(answers, n, o)
    case Waiting(a) => a == |answers| < 3 && forall i :: 0 <= i < a ==> AsksAgain(answers[i])
    case Holding(a) => a == |answers| < 3 && forall i :: 0 <= i < a ==> AsksAgain(answers[i])
  }

  lemma NextAnswer(p: Phase, answers: seq<Response>, r: Response)
    requires p.Holding? && Follows(p, answers)
    ensures Follows(AfterResponse(p.attempt, r), answers + [r])
  {
    assert (answers + [r])[|answers|] == r;
  }

  /** In every run each caller's fetch ends as a fetch alone would on the answers that caller got. */
  lemma {:induction false} CallersFollow(rate: real, n: nat, start: real, actions: seq<Action>, c: nat)
    requires c < n
    ensures |Run(rate, Start(n, start), actions).callers| == n
    ensures Follows(Run(rate, Start(n, start), actions).callers[c], Answers(rate, Start(n, start), actions, c))
  {
    hide Grants, Next, Follows, AfterResponse;
    if actions == [] {
      assert Follows(Waiting(0), []) by { NoAnswers(); }
    } else {
      var m := |actions| - 1;
      CallersFollow(rate, n, start, actions[..m], c);
      var g, a := Run(rate, Start(n, start), actions[..m]), actions[m];
      var answers := Answers(rate, Start(n, start), actions[..m], c);
      if a.Send? && a.caller == c && g.callers[c].Holding? {
        NextAnswer(g.callers[c], answers, a.response);
      } else {
        assert answers + [] == answers;
        GrantKeepsFollowing(g.callers[c], answers);
      }
    }
  }

  lemma NoAnswers()
    ensures Follows(Waiting(0), [])
  {
  }

  lemma GrantKeepsFollowing(p: Phase, answers: seq<Response>)
    ensures p.Waiting? && Follows(p, answers) ==> Follows(Holding(p.attempt), answers)
  {
  }
}
