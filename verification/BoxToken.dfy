/**
 A token provider that asks once for everyone who waits, as
 `packages/connectors/src/box-token-provider.ts` keeps it: two fields, and
 callbacks that run one at a time with any other call between them.
 */
module BoxToken {
  import opened Common

  datatype Token = Token(accessToken: string, expiresAt: int, tokenType: string)

  const REFRESH_BUFFER_MS := 300_000

  /** What Box's endpoint answers; times are in milliseconds. */
  datatype Response =
    | Unreachable(message: string)
    | Refused(status: int, text: string)
    | NotJson(text: string)
    | Json(accessToken: Option<string>, expiresIn: Option<int>, tokenType: Option<string>)

  datatype Failure = Thrown(message: string) | RefusedWith(status: int, shown: string) | NoJson(text: string) | NoToken

  type Outcome = Result<Token, Failure>

  /** `requestToken`, given the answer and the time it was read. */
  function TokenOf(response: Response, now: int): Outcome {
    match response
    case Unreachable(message) => Err(Thrown(message))
    case Refused(status, text) => Err(RefusedWith(status, if |text| <= 500 then text else text[..500]))
    case NotJson(text) => Err(NoJson(text))
    case Json(token, expiresIn, tokenType) =>
      if token.None? || token.value == "" then Err(NoToken)
      else Ok(Token(token.value, now + (if expiresIn.Some? then expiresIn.value else 3600) * 1000,
                    if tokenType.Some? then tokenType.value else "Bearer"))
  }

  /**
   What a request brings: a token exactly when Box answers with one that is not
   empty, good for as long as Box says or else an hour, and of the type it says
   or else `Bearer`; and otherwise the reason, with 500 characters of a refusal.
   */
  lemma TokenIsTheReplys(response: Response, now: int, token: Token)
    ensures TokenOf(response, now) == Ok(token) <==>
            && response.Json?
            && token.accessToken != ""
            && response.accessToken == Some(token.accessToken)
            && (if response.expiresIn.Some? then token.expiresAt == now + response.expiresIn.value * 1000
                else token.expiresAt == now + 3_600_000)
            && token.tokenType == (if response.tokenType.Some? then response.tokenType.value else "Bearer")
    ensures TokenOf(response, now) == Err(NoToken) <==>
            response.Json? && (response.accessToken == None || response.accessToken == Some(""))
    ensures response.Unreachable? ==> TokenOf(response, now) == Err(Thrown(response.message))
    ensures response.NotJson? ==> TokenOf(response, now) == Err(NoJson(response.text))
    ensures response.Refused? ==>
              exists shown, rest :: && shown + rest == response.text
                                    && (if rest == "" then |shown| <= 500 else |shown| == 500)
                                    && TokenOf(response, now) == Err(RefusedWith(response.status, shown))
  {
    if response.Refused? {
      var n := if |response.text| <= 500 then |response.text| else 500;
      assert response.text[..n] + response.text[n..] == response.text;
      assert n == |response.text| ==> response.text[..n] == response.text;
    }
  }

  /**
   Where a request is: asked, its answer read, its `then` run, its `finally`
   run and with it everyone told. Any other call may come between two of these.
   */
  datatype Stage = Asked | Answered(outcome: Outcome) | Passed(outcome: Outcome) | Settled(outcome: Outcome)

  /** The two fields, and every request made so far. */
  datatype State = State(cached: Option<Token>, inFlight: Option<nat>, requests: seq<Stage>)

  const START := State(None, None, [])

  predicate StillValid(token: Token, now: int) { token.expiresAt - now > REFRESH_BUFFER_MS }

  /** What a call is answered with: a token at once, or a request to wait for. */
  datatype Answer = Now(token: Token) | Wait(request: nat)

  datatype Event =
    | Get(now: int)
    | Refresh
    | Reply(request: nat, response: Response, now: int)
    | Then(request: nat)
    | Finally(request: nat)

  predicate IsCall(e: Event) { e.Get? || e.Refresh? }

  function Mint(s: State): State { s.(inFlight := Some(|s.requests|), requests := s.requests + [Asked]) }

  function Join(s: State): State { if s.inFlight.Some? then s else Mint(s) }

  predicate IsServed(s: State, e: Event) { e.Get? && s.cached.Some? && StillValid(s.cached.value, e.now) }

  function AnswerTo(s: State, e: Event): Answer
    requires IsCall(e)
  {
    if IsServed(s, e) then Now(s.cached.value)
    else Wait(if s.inFlight.Some? then s.inFlight.value else |s.requests|)
  }

  function Step(s: State, e: Event): State {
    match e
    case Get(_) => if IsServed(s, e) then s else Join(s)
    case Refresh => Join(s.(cached := None))
    case Reply(i, response, now) =>
      if i < |s.requests| && s.requests[i].Asked? then
        s.(requests := s.requests[i := Answered(TokenOf(response, now))])
      else s
    case Then(i) =>
      if i < |s.requests| && s.requests[i].Answered? then
        var outcome := s.requests[i].outcome;
        State(if outcome.Ok? then Some(outcome.value) else s.cached, s.inFlight, s.requests[i := Passed(outcome)])
      else s
    case Finally(i) =>
      if i < |s.requests| && s.requests[i].Passed? then
        State(s.cached, None, s.requests[i := Settled(s.requests[i].outcome)])
      else s
  }

  function Run(s: State, events: seq<Event>): State
    decreases |events|
  {
    if events == [] then s else Run(Step(s, events[0]), events[1..])
  }

  // ---------------------------------------------------------------------
  // The provider
  // ---------------------------------------------------------------------

  class BoxTokenProvider {
    var cached: Option<Token>
    var inFlight: Option<nat>
    /** The promises made so far, by request. */
    var requests: seq<Stage>

    function Model(): State
      reads this
    {
      State(cached, inFlight, requests)
    }

    constructor ()
      ensures Model() == START
    {
      cached, inFlight, requests := None, None, [];
    }

    method GetToken(now: int) returns (r: Answer)
      modifies this
      ensures Model() == Step(old(Model()), Get(now)) && r == AnswerTo(old(Model()), Get(now))
    {
      if cached.Some? && StillValid(cached.value, now) { return Now(cached.value); }
      if inFlight.Some? { return Wait(inFlight.value); }
      r := MintToken();
    }

    method RefreshToken() returns (r: Answer)
      modifies this
      ensures Model() == Step(old(Model()), Refresh) && r == AnswerTo(old(Model()), Refresh)
    {
      cached := None;
      if inFlight.Some? { return Wait(inFlight.value); }
      r := MintToken();
    }

    method MintToken() returns (r: Answer)
      modifies this
      ensures Model() == Mint(old(Model())) && r == Wait(|old(requests)|)
    {
      r := Wait(|requests|);
      inFlight := Some(|requests|);
      requests := requests + [Asked];
    }

    method OnReply(i: nat, response: Response, now: int)
      requires i < |requests| && requests[i].Asked?
      modifies this
      ensures Model() == Step(old(Model()), Reply(i, response, now))
    {
      requests := requests[i := Answered(TokenOf(response, now))];
    }

    /** The `then` of a request, which a failure passes by. */
    method OnThen(i: nat)
      requires i < |requests| && requests[i].Answered?
      modifies this
      ensures Model() == Step(old(Model()), Then(i))
    {
      if requests[i].outcome.Ok? { cached := Some(requests[i].outcome.value); }
      requests := requests[i := Passed(requests[i].outcome)];
    }

    /** The `finally` of a request: it clears the field without looking whose it is. */
    method OnFinally(i: nat)
      requires i < |requests| && requests[i].Passed?
      modifies this
      ensures Model() == Step(old(Model()), Finally(i))
    {
      inFlight := None;
      requests := requests[i := Settled(requests[i].outcome)];
    }

    method IsTokenValid(now: int) returns (r: bool)
      ensures r <==> IsServed(Model(), Get(now))
    {
      return cached.Some? && StillValid(cached.value, now);
    }

    method GetTokenStatus(now: int) returns (r: TokenStatus)
      ensures r == StatusOf(Model(), now)
    {
      if cached.None? { return TokenStatus(false, 0, None); }
      var timeUntilExpiry := cached.value.expiresAt - now;
      return TokenStatus(timeUntilExpiry > REFRESH_BUFFER_MS, timeUntilExpiry / 1000, Some(cached.value.tokenType));
    }
  }

  /** `timeUntilExpiry` is in whole seconds, rounded down. */
  datatype TokenStatus = TokenStatus(isValid: bool, timeUntilExpiry: int, tokenType: Option<string>)

  function StatusOf(s: State, now: int): TokenStatus {
    if s.cached.None? then TokenStatus(false, 0, None)
    else
      var left := s.cached.value.expiresAt - now;
      TokenStatus(left > REFRESH_BUFFER_MS, left / 1000, Some(s.cached.value.tokenType))
  }

  // ---------------------------------------------------------------------
  // Single flight
  // ---------------------------------------------------------------------

  /** The request in flight is the last, and it alone is unsettled. */
  ghost predicate OneInFlight(s: State) {
    && (forall i :: 0 <= i < |s.requests| && !s.requests[i].Settled? ==> s.inFlight == Some(i))
    && (s.inFlight.Some? ==>
          && s.inFlight.value == |s.requests| - 1
          && s.inFlight.value < |s.requests|
          && !s.requests[s.inFlight.value].Settled?)
  }

  /** The cached token is one that a request brought. */
  ghost predicate CacheIsBrought(s: State) {
    s.cached.Some? ==> exists i :: 0 <= i < |s.requests| && Brought(s.requests[i], s.cached.value)
  }

  predicate Brought(stage: Stage, token: Token) { (stage.Passed? || stage.Settled?) && stage.outcome == Ok(token) }

  lemma StepKeepsTheCacheBrought(s: State, e: Event)
    requires CacheIsBrought(s)
    ensures CacheIsBrought(Step(s, e))
  {
    var t := Step(s, e);
    if t.cached.Some? {
      if s.cached.Some? && t.cached == s.cached {
        var i :| 0 <= i < |s.requests| && Brought(s.requests[i], s.cached.value);
        assert Brought(t.requests[i], t.cached.value);
      } else {
        assert Brought(t.requests[e.request], t.cached.value);
      }
    }
  }

  lemma {:induction false} RunKeeps(s: State, events: seq<Event>)
    requires OneInFlight(s) && CacheIsBrought(s)
    ensures OneInFlight(Run(s, events)) && CacheIsBrought(Run(s, events))
    decreases |events|
  {
    if events == [] {
    } else {
      StepKeepsTheCacheBrought(s, events[0]);
      RunKeeps(Step(s, events[0]), events[1..]);
    }
  }

  /** Whatever the calls and the callbacks do between one another, at most one request is outstanding. */
  lemma SingleFlight(events: seq<Event>, i: nat, j: nat)
    ensures var s := Run(START, events);
            i < |s.requests| && j < |s.requests| && !s.requests[i].Settled? && !s.requests[j].Settled? ==> i == j
  {
    RunKeeps(START, events);
  }

  /** A request that finishes clears the field only of itself. */
  lemma FinishingClearsItself(events: seq<Event>, i: nat)
    requires var s := Run(START, events); i < |s.requests| && s.requests[i].Passed?
    ensures Run(START, events).inFlight == Some(i)
  {
    RunKeeps(START, events);
  }

  /** A stage gives way only to a later one, with the same outcome once there is one. */
  predicate Follows(before: Stage, after: Stage) {
    match before
    case Asked => true
    case Answered(o) => !after.Asked? && after.outcome == o
    case Passed(o) => (after.Passed? || after.Settled?) && after.outcome == o
    case Settled(_) => after == before
  }

  lemma {:induction false} RequestsOnlyAdvance(s: State, events: seq<Event>)
    ensures |s.requests| <= |Run(s, events).requests|
    ensures forall i :: 0 <= i < |s.requests| ==> Follows(s.requests[i], Run(s, events).requests[i])
    decreases |events|
  {
    if events == [] {
    } else {
      var t := Step(s, events[0]);
      RequestsOnlyAdvance(t, events[1..]);
      forall i | 0 <= i < |s.requests|
        ensures Follows(s.requests[i], Run(s, events).requests[i])
      {
        assert Follows(s.requests[i], t.requests[i]);
      }
    }
  }

  lemma {:induction false} RunOfConcat(s: State, a: seq<Event>, b: seq<Event>)
    ensures Run(s, a + b) == Run(Run(s, a), b)
    decreases |a|
  {
    if a == [] {
      assert a + b == b;
    } else {
      assert (a + b)[1..] == a[1..] + b;
      RunOfConcat(Step(s, a[0]), a[1..], b);
    }
  }

  /**
   Two callers who wait are told by the same request exactly when the first's
   has not settled when the second calls; otherwise the second has a newer one.
   */
  lemma JoinersShareARequest(before: seq<Event>, first: Event, between: seq<Event>, second: Event)
    requires IsCall(first) && IsCall(second)
    requires AnswerTo(Run(START, before), first).Wait?
    requires AnswerTo(Run(START, before + [first] + between), second).Wait?
    ensures var a := AnswerTo(Run(START, before), first).request;
            var s := Run(START, before + [first] + between);
            var b := AnswerTo(s, second).request;
            a < |s.requests| && (a == b <==> !s.requests[a].Settled?) && (a != b ==> a < b)
  {
    var s0 := Run(START, before);
    var s1 := Step(s0, first);
    RunKeeps(START, before);
    StepKeepsTheCacheBrought(s0, first);
    RunKeeps(s1, between);
    RequestsOnlyAdvance(s1, between);
    RunOfConcat(START, before, [first]);
    RunOfConcat(START, before + [first], between);
    assert Run(s0, [first]) == s1;
  }

  /** All who wait for one request are told what its reply says, whatever else happens. */
  lemma OutcomeIsTheReply(s: State, i: nat, response: Response, now: int, events: seq<Event>)
    requires i < |s.requests| && s.requests[i].Asked?
    ensures var t := Run(s, [Reply(i, response, now)] + events);
            i < |t.requests| && !t.requests[i].Asked? && t.requests[i].outcome == TokenOf(response, now)
  {
    var e := Reply(i, response, now);
    assert ([e] + events)[1..] == events;
    RequestsOnlyAdvance(Step(s, e), events);
  }

  /** A call makes a request exactly when it is not served and nothing is outstanding. */
  lemma CallsMintOnlyWhenTheyMust(events: seq<Event>, e: Event)
    requires IsCall(e)
    ensures var s := Run(START, events);
            |Step(s, e).requests| == |s.requests| + 1 <==>
            (!IsServed(s, e) && forall i :: 0 <= i < |s.requests| ==> s.requests[i].Settled?)
  {
    RunKeeps(START, events);
    var s := Run(START, events);
    if s.inFlight.Some? { assert !s.requests[s.inFlight.value].Settled?; }
  }

  /** A request that failed leaves nothing behind: the next call that is not served asks again. */
  lemma FailureFreesTheNextCall(events: seq<Event>, i: nat, e: Event)
    requires IsCall(e)
    requires var s := Run(START, events); i < |s.requests| && s.requests[i].Passed? && s.requests[i].outcome.Err?
    ensures var s := Run(START, events);
            var after := Step(s, Finally(i));
            && after.cached == s.cached
            && (!IsServed(after, e) ==>
                 AnswerTo(after, e) == Wait(i + 1) && Step(after, e).requests == after.requests + [Asked])
  {
    RunKeeps(START, events);
  }

  /** A token served at once was brought by a request, and has more than the buffer left. */
  lemma ServedTokenIsFresh(events: seq<Event>, now: int)
    requires AnswerTo(Run(START, events), Get(now)).Now?
    ensures var s := Run(START, events);
            var token := AnswerTo(s, Get(now)).token;
            && token.expiresAt - now > REFRESH_BUFFER_MS
            && exists i :: 0 <= i < |s.requests| && Brought(s.requests[i], token)
  {
    RunKeeps(START, events);
  }

  /** After a refresh no token is served at once until some `then` has brought one. */
  lemma {:induction false} RefreshForgets(s: State, events: seq<Event>, now: int)
    requires forall k :: 0 <= k < |events| ==> !events[k].Then?
    ensures AnswerTo(Run(Step(s, Refresh), events), Get(now)).Wait?
  {
    NoneIsKept(Step(s, Refresh), events);
  }

  lemma {:induction false} NoneIsKept(s: State, events: seq<Event>)
    requires s.cached.None? && forall k :: 0 <= k < |events| ==> !events[k].Then?
    ensures Run(s, events).cached.None?
    decreases |events|
  {
    if events == [] {
    } else {
      assert !events[0].Then?;
      NoneIsKept(Step(s, events[0]), events[1..]);
    }
  }

  /** Whoever calls `refresh` waits for a request that is not yet settled, and nothing is cached then. */
  lemma RefreshWaits(events: seq<Event>)
    ensures var s, t := Run(START, events), Step(Run(START, events), Refresh);
            var i := AnswerTo(s, Refresh).request;
            i == |t.requests| - 1 && !t.requests[i].Settled? && t.cached.None? && t.inFlight == Some(i)
  {
    RunKeeps(START, events);
  }

  predicate HasBrought(stage: Stage) { (stage.Passed? || stage.Settled?) && stage.outcome.Ok? }

  /** The last request's token is in the cache once it has been brought, unless it was dropped after that. */
  ghost predicate CachedUnless(s: State, i: nat, dropped: bool) {
    && i < |s.requests|
    && (dropped ==> s.requests[i].Passed? || s.requests[i].Settled?)
    && (s.cached.Some? <==> HasBrought(s.requests[i]) && !dropped)
  }

  lemma {:induction false} CachedUnlessDropped(s: State, i: nat, events: seq<Event>, dropped: bool)
    requires OneInFlight(s) && i == |s.requests| - 1 && CachedUnless(s, i, dropped)
    requires Refresh !in events && |Run(s, events).requests| == |s.requests|
    ensures CachedUnless(Run(s, events), i, dropped)
    decreases |events|
  {
    if events == [] {
    } else {
      var t := Step(s, events[0]);
      RequestsOnlyAdvance(t, events[1..]);
      assert events[0] in events;
      CachedUnlessDropped(t, i, events[1..], dropped);
    }
  }

  /**
   What a refresh leaves in the cache. With no other refresh and no newer
   request since, a token is cached if and only if the request it waited for
   has brought one, and had not run its `then` when the refresh came: between
   a request's two callbacks a refresh drops its token for good.
   */
  lemma RefreshDropsExactly(events: seq<Event>, more: seq<Event>)
    requires Refresh !in more
    requires var t := Step(Run(START, events), Refresh); |Run(t, more).requests| == |t.requests|
    ensures var s := Run(START, events);
            var i := AnswerTo(s, Refresh).request;
            var u := Run(Step(s, Refresh), more);
            && i < |u.requests|
            && (u.cached.Some? <==> HasBrought(u.requests[i]) && !(i < |s.requests| && s.requests[i].Passed?))
  {
    var s := Run(START, events);
    var t := Step(s, Refresh);
    RefreshWaits(events);
    RunKeeps(START, events);
    CachedUnlessDropped(t, |t.requests| - 1, more, t.requests[|t.requests| - 1].Passed?);
  }

  /** Such a refresh comes about, and its token, long-lived and just brought, is not there for the next call. */
  lemma RefreshBetweenCallbacks(token: string)
    requires token != ""
    ensures var response := Json(Some(token), None, None);
            var s := Run(START, [Get(0), Reply(0, response, 0), Then(0)]);
            && s.requests == [Passed(Ok(Token(token, 3_600_000, "Bearer")))] && AnswerTo(s, Get(0)).Now?
            && AnswerTo(s, Refresh) == Wait(0)
            && Run(s, [Refresh, Finally(0)]) == State(None, None, [Settled(Ok(Token(token, 3_600_000, "Bearer")))])
            && AnswerTo(Run(s, [Refresh, Finally(0)]), Get(0)) == Wait(1)
  {
    var response := Json(Some(token), None, None);
    var s1 := Step(START, Get(0));
    var s2 := Step(s1, Reply(0, response, 0));
    var s3 := Step(s2, Then(0));
    RunOfThree(START, Get(0), Reply(0, response, 0), Then(0));
    RunOfTwo(s3, Refresh, Finally(0));
    assert s1.requests == [Asked];
    assert s2.requests == [Answered(TokenOf(response, 0))];
    assert s3.requests == [Passed(TokenOf(response, 0))];
    hide Run;
  }

  lemma RunOfTwo(s: State, a: Event, b: Event)
    ensures Run(s, [a, b]) == Step(Step(s, a), b)
  {
    assert [a, b][1..] == [b];
    assert Run(Step(s, a), [b]) == Step(Step(s, a), b);
  }

  lemma RunOfThree(s: State, a: Event, b: Event, c: Event)
    ensures Run(s, [a, b, c]) == Step(Step(Step(s, a), b), c)
  {
    assert [a, b, c][1..] == [b, c];
    RunOfTwo(Step(s, a), b, c);
  }

  /** Nobody waits for ever on the provider: a reply and the two callbacks settle what is in flight. */
  lemma NothingIsStuck(events: seq<Event>, response: Response, now: int)
    requires Run(START, events).inFlight.Some?
    ensures var s := Run(START, events);
            var i := s.inFlight.value;
            var t := Run(s, [Reply(i, response, now), Then(i), Finally(i)]);
            t.inFlight == None && i < |t.requests| && t.requests[i].Settled? && i < |s.requests|
            && (s.requests[i].Asked? ==> t.requests[i].outcome == TokenOf(response, now))
  {
    RunKeeps(START, events);
    var s := Run(START, events);
    var i := s.inFlight.value;
    RunOfThree(s, Reply(i, response, now), Then(i), Finally(i));
    hide Run;
  }

  /**
   The status says valid exactly when the token would be served, and its whole
   seconds are at least the buffer's when it does and at most those when not.
   */
  lemma StatusAgrees(s: State, now: int)
    ensures var status := StatusOf(s, now);
            && (status.isValid <==> AnswerTo(s, Get(now)).Now?)
            && (status.isValid ==> status.timeUntilExpiry >= REFRESH_BUFFER_MS / 1000)
            && (!status.isValid ==> status.timeUntilExpiry <= REFRESH_BUFFER_MS / 1000)
  {
  }

  // ---------------------------------------------------------------------
  // What is served, and what is cached
  // ---------------------------------------------------------------------

  /** A call is answered at once exactly when a token is cached that is good for more than five minutes yet. */
  lemma ServedExactly(s: State, now: int, token: Token)
    ensures AnswerTo(s, Get(now)) == Now(token) <==> s.cached == Some(token) && token.expiresAt > now + 300_000
    ensures AnswerTo(s, Refresh).Wait?
  {
  }

  /** What an event says of the cache: a refresh empties it, and a `then` with a token fills it. */
  ghost predicate Says(s: State, e: Event, cached: Option<Token>) {
    || (e == Refresh && cached == None)
    || (e.Then? && e.request < |s.requests| && s.requests[e.request].Answered?
        && s.requests[e.request].outcome.Ok? && cached == Some(s.requests[e.request].outcome.value))
  }

  ghost predicate IsSilent(s: State, e: Event) { !Says(s, e, None) && forall token :: !Says(s, e, Some(token)) }

  /** The event that says so last, of those from the start. */
  ghost predicate SaysLast(events: seq<Event>, k: nat, cached: Option<Token>) {
    && k < |events|
    && Says(Run(START, events[..k]), events[k], cached)
    && forall j :: k < j < |events| ==> IsSilent(Run(START, events[..j]), events[j])
  }

  ghost predicate AllSilent(events: seq<Event>) {
    forall j :: 0 <= j < |events| ==> IsSilent(Run(START, events[..j]), events[j])
  }

  /** The cache is what the last event that says something of it says, and empty while none has. */
  lemma {:induction false} CacheIsTheLastWord(events: seq<Event>)
    ensures if AllSilent(events) then Run(START, events).cached == None
            else exists k :: SaysLast(events, k, Run(START, events).cached)
    decreases |events|
  {
    if events == [] {
    } else {
      var n, short, e := |events| - 1, events[..|events| - 1], events[|events| - 1];
      var s := Run(START, short);
      CacheIsTheLastWord(short);
      assert events == short + [e];
      RunOfConcat(START, short, [e]);
      assert [e][1..] == [] && Run(s, [e]) == Step(s, e);
      assert forall j :: 0 <= j < n ==> events[..j] == short[..j];
      if IsSilent(s, e) {
        SilentStep(s, e);
        if !AllSilent(short) {
          var k :| SaysLast(short, k, s.cached);
          assert SaysLast(events, k, s.cached);
        }
      } else {
        SpokenStep(s, e);
        assert SaysLast(events, n, Step(s, e).cached);
      }
    }
  }

  lemma SilentStep(s: State, e: Event)
    requires IsSilent(s, e)
    ensures Step(s, e).cached == s.cached
  {
    if e.Then? && e.request < |s.requests| && s.requests[e.request].Answered? && s.requests[e.request].outcome.Ok? {
      assert Says(s, e, Some(s.requests[e.request].outcome.value));
    }
  }

  lemma SpokenStep(s: State, e: Event)
    requires !IsSilent(s, e)
    ensures Says(s, e, Step(s, e).cached)
  {
  }
}
