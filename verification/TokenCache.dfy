/**
 OAuth token acquisition (client credentials, section 4.4 of RFC 6749) with a cache and coalesced refreshes.
 Calls, replies of the token endpoint and the clock interleave freely; times are milliseconds.
 */
module TokenCache {
  import opened Wrappers
  import Runs

  type Key = string
  type Request = nat

  const EXPIRY_BUFFER_MS: int := 60_000

  datatype Token = Token(text: string, expiresAt: int)

  datatype Answer = Granted(token: Token) | Refused

  /** What became of a call: served from the cache at some time, waiting for a request, or given its answer. */
  datatype Call = FromCache(key: Key, token: Token, at: int) | Waiting(key: Key, request: Request)
    | Answered(key: Key, request: Request, answer: Answer)

  /** The service's two maps, and around them the outstanding requests, the answers given, and every call made. */
  datatype State = State(
    clock: int, tokenCache: map<Key, Token>, inflight: map<Key, Request>,
    outstanding: map<Request, Key>, answers: map<Request, Answer>, nextRequest: Request, calls: seq<Call>)

  datatype Step =
    | Tick(ms: nat)
    | GetAccessToken(key: Key)
    | Reply(request: Request, answer: Answer)
    | ForceRefresh(key: Key)

  predicate IsExpired(t: Token, now: int) { now >= t.expiresAt - EXPIRY_BUFFER_MS }

  /** A new request for the key, registered as in flight, with one waiting call. */
  function StartRequest(s: State, key: Key): State {
    s.(inflight := s.inflight[key := s.nextRequest],
       outstanding := s.outstanding[s.nextRequest := key],
       nextRequest := s.nextRequest + 1,
       calls := s.calls + [Waiting(key, s.nextRequest)])
  }

  function Refresh(s: State, key: Key): State {
    if key in s.inflight then s.(calls := s.calls + [Waiting(key, s.inflight[key])]) else StartRequest(s, key)
  }

  function Settle(c: Call, request: Request, answer: Answer): Call {
    if c.Waiting? && c.request == request then Answered(c.key, request, answer) else c
  }

  function Do(s: State, step: Step): State {
    match step
    case Tick(ms) => s.(clock := s.clock + ms)
    case GetAccessToken(key) =>
      if key in s.tokenCache && !IsExpired(s.tokenCache[key], s.clock)
      then s.(calls := s.calls + [FromCache(key, s.tokenCache[key], s.clock)])
      else Refresh(s, key)
    case Reply(request, answer) =>
      if request !in s.outstanding then s else
        var key := s.outstanding[request];
        s.(tokenCache := if answer.Granted? then s.tokenCache[key := answer.token] else s.tokenCache,
           inflight := s.inflight - {key},
           outstanding := s.outstanding - {request},
           answers := s.answers[request := answer],
           calls := seq(|s.calls|, i requires 0 <= i < |s.calls| => Settle(s.calls[i], request, answer)))
    case ForceRefresh(key) =>
      Refresh(s.(tokenCache := s.tokenCache - {key}, inflight := s.inflight - {key}), key)
  }

  function Run(s: State, steps: seq<Step>): State { Runs.Fold(s, steps, Do) }

  const START := State(0, map[], map[], map[], map[], 0, [])

  /** The in-flight map is the inverse of the outstanding requests, and refreshes only keys without a usable token. */
  ghost predicate Coalesced(s: State) {
    && (forall k :: k in s.inflight ==> s.inflight[k] in s.outstanding && s.outstanding[s.inflight[k]] == k)
    && (forall r :: r in s.outstanding ==> s.outstanding[r] in s.inflight && s.inflight[s.outstanding[r]] == r)
    && (forall k :: k in s.inflight && k in s.tokenCache ==> IsExpired(s.tokenCache[k], s.clock))
  }

  predicate CallOk(s: State, c: Call) {
    match c
    case FromCache(_, token, at) => at < token.expiresAt - EXPIRY_BUFFER_MS
    case Waiting(key, request) => request in s.outstanding && s.outstanding[request] == key
    case Answered(_, request, answer) => request in s.answers && s.answers[request] == answer
  }

  ghost predicate Inv(s: State) {
    && Coalesced(s)
    && (forall i :: 0 <= i < |s.calls| ==> CallOk(s, s.calls[i]))
    && (forall r :: r in s.outstanding || r in s.answers ==> r < s.nextRequest)
    && (forall r :: r in s.outstanding ==> r !in s.answers)
  }

  lemma StartKeeps(s: State, key: Key)
    requires Inv(s) && key !in s.inflight && (key in s.tokenCache ==> IsExpired(s.tokenCache[key], s.clock))
    ensures Inv(StartRequest(s, key))
  {
    var s' := StartRequest(s, key);
    assert s.nextRequest !in s.outstanding;
    forall i | 0 <= i < |s'.calls|
      ensures CallOk(s', s'.calls[i])
    {
      if i < |s.calls| {
        assert CallOk(s, s.calls[i]);
      }
    }
  }

  lemma ReplyKeeps(s: State, request: Request, answer: Answer)
    requires Inv(s) && request in s.outstanding
    ensures Inv(Do(s, Reply(request, answer)))
  {
    var s' := Do(s, Reply(request, answer));
    forall i | 0 <= i < |s'.calls|
      ensures CallOk(s', s'.calls[i])
    {
      assert CallOk(s, s.calls[i]);
      assert s'.calls[i] == Settle(s.calls[i], request, answer);
    }
    assert Coalesced(s');
  }

  /** The one harmful step: a forced refresh of a key whose request is out. */
  predicate Clashes(s: State, step: Step) { step.ForceRefresh? && step.key in s.inflight }

  /** A step keeps the invariant exactly when it is not a forced refresh of a key in flight. */
  lemma StepKeepsExactly(s: State, step: Step)
    requires Inv(s)
    ensures Inv(Do(s, step)) <==> !Clashes(s, step)
  {
    match step
    case Tick(ms) => assert forall i :: 0 <= i < |s.calls| ==> CallOk(s, s.calls[i]);
    case Reply(request, answer) =>
      if request in s.outstanding {
        ReplyKeeps(s, request, answer);
      }
    case GetAccessToken(key) =>
      if key in s.tokenCache && !IsExpired(s.tokenCache[key], s.clock) {
        CallKeeps(s, FromCache(key, s.tokenCache[key], s.clock));
      } else if key in s.inflight {
        CallKeeps(s, Waiting(key, s.inflight[key]));
      } else {
        StartKeeps(s, key);
      }
    case ForceRefresh(key) =>
      if key in s.inflight {
        var s' := Do(s, step);
        assert s.inflight[key] in s'.outstanding && s'.outstanding[s.inflight[key]] == key;
        assert s'.inflight[key] == s.nextRequest != s.inflight[key];
      } else {
        var cleared := s.(tokenCache := s.tokenCache - {key});
        assert forall i :: 0 <= i < |s.calls| ==> CallOk(s, s.calls[i]) && CallOk(cleared, s.calls[i]);
        assert s.inflight - {key} == s.inflight;
        StartKeeps(cleared, key);
      }
  }

  lemma CallKeeps(s: State, c: Call)
    requires Inv(s) && CallOk(s, c)
    ensures Inv(s.(calls := s.calls + [c]))
  {
    var s' := s.(calls := s.calls + [c]);
    forall i | 0 <= i < |s'.calls|
      ensures CallOk(s', s'.calls[i])
    {
      if i < |s.calls| {
        assert CallOk(s, s.calls[i]);
      }
    }
  }

  /** A run in which no forced refresh hits a key whose request is out. */
  ghost predicate Quiet(steps: seq<Step>) {
    forall k :: 0 <= k < |steps| ==> !Clashes(Run(START, steps[..k]), steps[k])
  }

  /** The invariant holds at every point of a run exactly when no forced refresh hits a key whose request is out. */
  lemma RunKeepsExactly(steps: seq<Step>)
    ensures (forall k :: 0 <= k <= |steps| ==> Inv(Run(START, steps[..k]))) <==> Quiet(steps)
  {
    hide Do;
    if Quiet(steps) {
      forall k | 0 <= k <= |steps|
        ensures Inv(Run(START, steps[..k]))
      {
        QuietPrefix(steps, k);
        QuietKeeps(steps[..k]);
      }
    }
    if forall k :: 0 <= k <= |steps| ==> Inv(Run(START, steps[..k])) {
      forall k | 0 <= k < |steps|
        ensures !Clashes(Run(START, steps[..k]), steps[k])
      {
        assert Inv(Run(START, steps[..k + 1]));
        assert steps[..k + 1][..k] == steps[..k];
        StepKeepsExactly(Run(START, steps[..k]), steps[k]);
      }
    }
  }

  lemma QuietPrefix(steps: seq<Step>, n: nat)
    requires Quiet(steps) && n <= |steps|
    ensures Quiet(steps[..n])
  {
    assert forall k :: 0 <= k < n ==> steps[..n][..k] == steps[..k];
  }

  lemma {:induction false} QuietKeeps(steps: seq<Step>)
    requires Quiet(steps)
    ensures Inv(Run(START, steps))
  {
    if steps != [] {
      hide Do;
      var n := |steps| - 1;
      QuietPrefix(steps, n);
      QuietKeeps(steps[..n]);
      StepKeepsExactly(Run(START, steps[..n]), steps[n]);
    }
  }

  /** In every quiet run: one outstanding request per key, and it is the registered one. */
  lemma OneRequestPerKey(steps: seq<Step>, r: Request, r': Request)
    requires Quiet(steps)
    requires r in Run(START, steps).outstanding && r' in Run(START, steps).outstanding
    requires Run(START, steps).outstanding[r] == Run(START, steps).outstanding[r']
    ensures r == r'
  {
    QuietKeeps(steps);
  }

  /**
   A call made while a request for its key is out starts nothing: it waits for that request, and when the answer comes
   every call that waited for it, this one included, has that answer.
   */
  lemma CallersShareOutcome(steps: seq<Step>, key: Key, answer: Answer, i: nat)
    requires Quiet(steps)
    requires key in Run(START, steps).inflight && i <= |Run(START, steps).calls|
    ensures var s := Run(START, steps);
            var called := Do(s, GetAccessToken(key));
            var replied := Do(called, Reply(s.inflight[key], answer));
            && called.outstanding == s.outstanding
            && called.calls == s.calls + [Waiting(key, s.inflight[key])]
            && (called.calls[i].Waiting? && called.calls[i].key == key ==>
                  replied.calls[i] == Answered(key, s.inflight[key], answer))
            && key !in replied.inflight
            && (answer.Granted? ==> key in replied.tokenCache && replied.tokenCache[key] == answer.token)
  {
    QuietKeeps(steps);
    var s := Run(START, steps);
    StepKeepsExactly(s, GetAccessToken(key));
    var called := Do(s, GetAccessToken(key));
    assert CallOk(called, called.calls[i]);
  }

  /** Any two calls answered by one request have the same answer; a token served from the cache has more than 60 s left. */
  lemma AnswersAgree(steps: seq<Step>, i: nat, j: nat)
    requires Quiet(steps)
    requires i < |Run(START, steps).calls| && j < |Run(START, steps).calls|
    ensures var a, b := Run(START, steps).calls[i], Run(START, steps).calls[j];
            && (a.Answered? && b.Answered? && a.request == b.request ==> a.answer == b.answer)
            && (a.FromCache? ==> a.token.expiresAt - a.at > 60_000)
  {
    QuietKeeps(steps);
    assert CallOk(Run(START, steps), Run(START, steps).calls[i]) && CallOk(Run(START, steps), Run(START, steps).calls[j]);
  }

  /**
   A forced refresh of a key in flight breaks the promise: a second request goes out for a key that has one, and the older reply
   unregisters the newer request, so the next call sends a third while the second is still out.
   */
  lemma ForcedRefreshDuplicates(s: State, key: Key, answer: Answer)
    requires Inv(s) && key in s.inflight && answer.Refused?
    ensures var r0, r1 := s.inflight[key], s.nextRequest;
            var forced := Do(s, ForceRefresh(key));
            var again := Do(Do(forced, Reply(r0, answer)), GetAccessToken(key));
            && r0 in forced.outstanding && r1 in forced.outstanding && r0 != r1
            && forced.outstanding[r0] == key && forced.outstanding[r1] == key
            && r1 in again.outstanding && again.outstanding[r1] == key
            && key in again.inflight && again.inflight[key] != r1
  {
  }

  /** A forced refresh drops the key's token and starts a request for it at once, whatever the cache and the map hold. */
  lemma ForcedRefreshExactly(s: State, key: Key)
    ensures var s' := Do(s, ForceRefresh(key));
            && key !in s'.tokenCache && (forall k :: k in s.tokenCache && k != key ==> k in s'.tokenCache && s'.tokenCache[k] == s.tokenCache[k])
            && s'.calls == s.calls + [Waiting(key, s.nextRequest)] && s'.nextRequest == s.nextRequest + 1
            && key in s'.inflight && s'.inflight[key] == s.nextRequest
            && (forall k :: k in s.inflight && k != key ==> k in s'.inflight && s'.inflight[k] == s.inflight[k])
            && s'.outstanding == s.outstanding[s.nextRequest := key] && s'.clock == s.clock
  {
  }

  /** The service object. */
  class AuthService {
    var state: State

    constructor ()
      ensures state == START && Inv(state)
    {
      state := START;
    }

    /**
     `getAccessToken` up to its first await. The caller gets a token with more than 60 s left, or waits for the one
     request out for its key: the request already registered, and a new one only if there was none.
     */
    method GetAccessToken(key: Key) returns (c: Call)
      requires Inv(state)
      modifies this
      ensures Inv(state) && state == Do(old(state), Step.GetAccessToken(key))
      ensures state.calls == old(state).calls + [c] && c.key == key && !c.Answered?
      ensures c.FromCache? <==> key in old(state).tokenCache && old(state).tokenCache[key].expiresAt - state.clock > 60_000
      ensures c.FromCache? ==> c.token == old(state).tokenCache[key] && state.outstanding == old(state).outstanding
      ensures state.tokenCache == old(state).tokenCache && state.clock == old(state).clock
      ensures c.Waiting? ==> forall r :: r in state.outstanding && state.outstanding[r] == key <==> r == c.request
      ensures key in old(state).inflight ==>
                c == Waiting(key, old(state).inflight[key]) && state.outstanding == old(state).outstanding
    {
      StepKeepsExactly(state, Step.GetAccessToken(key));
      if key in state.tokenCache {
        var cached := state.tokenCache[key];
        if !IsExpired(cached, state.clock) {
          c := FromCache(key, cached, state.clock);
          state := state.(calls := state.calls + [c]);
          return;
        }
      }
      if key in state.inflight {
        c := Waiting(key, state.inflight[key]);
        state := state.(calls := state.calls + [c]);
        return;
      }
      c := Waiting(key, state.nextRequest);
      state := state.(
        inflight := state.inflight[key := state.nextRequest],
        outstanding := state.outstanding[state.nextRequest := key],
        nextRequest := state.nextRequest + 1,
        calls := state.calls + [c]);
    }

    /**
     The `then` and `catch` handlers of a request: exactly the calls that waited for it get its answer, its key is
     free for the next request, and a granted token is cached.
     */
    method OnReply(request: Request, answer: Answer)
      requires Inv(state) && request in state.outstanding
      modifies this
      ensures Inv(state) && state == Do(old(state), Reply(request, answer))
      ensures |state.calls| == |old(state).calls|
      ensures forall i :: 0 <= i < |state.calls| ==>
                var call := old(state).calls[i];
                state.calls[i] == if call.Waiting? && call.request == request then Answered(call.key, request, answer) else call
      ensures forall i :: 0 <= i < |state.calls| ==> !(state.calls[i].Waiting? && state.calls[i].key == old(state).outstanding[request])
      ensures old(state).outstanding[request] !in state.inflight
      ensures state.outstanding == old(state).outstanding - {request} && state.clock == old(state).clock
      ensures var key := old(state).outstanding[request];
              state.tokenCache == if answer.Granted? then old(state).tokenCache[key := answer.token] else old(state).tokenCache
    {
      StepKeepsExactly(state, Reply(request, answer));
      assert forall i :: 0 <= i < |state.calls| ==> CallOk(state, state.calls[i]);
      var key := state.outstanding[request];
      if answer.Granted? {
        state := state.(tokenCache := state.tokenCache[key := answer.token]);
      }
      state := state.(inflight := state.inflight - {key}, outstanding := state.outstanding - {request},
                      answers := state.answers[request := answer]);
      var settled := [];
      for i := 0 to |state.calls|
        invariant state.calls == old(state).calls && |settled| == i
        invariant forall j :: 0 <= j < i ==> settled[j] == Settle(state.calls[j], request, answer)
        invariant state == Do(old(state), Reply(request, answer)).(calls := old(state).calls)
      {
        settled := settled + [Settle(state.calls[i], request, answer)];
      }
      state := state.(calls := settled);
    }
  }
}
