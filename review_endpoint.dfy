/**
 * The `POST /api/review` handler of backend/server.js: validation, then up
 * to four sweeps over the key pool, each trying every key at most once,
 * with a reset and an escalating wait between sweeps.
 *
 * The provider is a supplied function from call number to outcome, the
 * clock a supplied function from (sweep, attempt) to milliseconds, and each
 * `sleep` is recorded in `waits` instead of taken.
 */
module ReviewEndpoint {
  import opened Wrappers
  import opened ReviewTypes
  import Text
  import opened KeyRotation
  import opened ResponseCleanup

  /** What one provider call gives: the reply text, or a thrown error with its message. */
  datatype Outcome = Reply(text: string) | Error(message: string)

  /** The outcome of provider call number `i` (0-based, counted over the whole request). */
  function CallOutcome(provider: nat -> Outcome, i: nat): Outcome {
    provider(i)
  }

  /** The time read for attempt `slot` of sweep `sweep`. */
  function ClockAt(clock: (nat, nat) -> int, sweep: nat, slot: nat): int {
    clock(sweep, slot)
  }

  /** Provider calls 0 .. count-1 all threw. */
  predicate AllFailed(provider: nat -> Outcome, count: nat) {
    count == 0 || (AllFailed(provider, count - 1) && CallOutcome(provider, count - 1).Error?)
  }

  /** `AllFailed` means what it says: every call below `count` threw. */
  lemma {:induction false} AllFailedMeans(provider: nat -> Outcome, count: nat)
    ensures AllFailed(provider, count) <==> forall i :: 0 <= i < count ==> CallOutcome(provider, i).Error?
  {
    if count > 0 {
      AllFailedMeans(provider, count - 1);
    }
  }

  /** Call `last` is the first one that got a reply. */
  predicate FirstReplyAt(provider: nat -> Outcome, last: nat) {
    CallOutcome(provider, last).Reply? && AllFailed(provider, last)
  }

  /** Line 232: an error whose message mentions "429", "quota" or "rate" counts as rate limiting. */
  predicate IsRateLimit(message: string) {
    Text.Includes(message, "429") || Text.Includes(message, "quota") || Text.Includes(message, "rate")
  }

  /**
   * The test is a plain substring match, so "rate" inside a longer word
   * counts: an error naming the SDK's `generateContent` call ("gene" +
   * "rate" + ...) is treated as rate limiting whatever its status.
   */
  lemma RateMatchesInsideWords(before: string, after: string)
    ensures IsRateLimit(before + "rate" + after)
  {
    var message := before + "rate" + after;
    assert message[|before|..] == "rate" + after;
  }

  /** Sweeps after the first one (the loop runs `waitCycle` from 0 to 3). */
  const MaxWaitCycles: nat := 3

  /** Line 248: seconds slept after failed sweep `cycle`. */
  function WaitSeconds(cycle: nat): nat {
    45 + cycle * 20
  }

  /** One provider call: its sweep, its attempt number in the sweep, the key, and when the key was marked used. */
  datatype Attempt = Attempt(sweep: nat, slot: nat, key: string, at: int)

  /** The handler's replies. */
  datatype Response =
    | Reviewed(review: Review, keyUsed: Option<string>)       // 200; keyUsed absent for the degraded review
    | BadRequest                                              // 400: code or language missing or empty
    | NoKeys                                                  // 500: no key configured
    | Exhausted(details: Option<string>, keysAvailable: nat)  // 429: every sweep failed

  /** `!value` is false: the field is present and not the empty string. */
  predicate Present(value: Option<string>) {
    value.Some? && value.value != []
  }

  /** `'...' + key.slice(-6)`: the reported key. */
  function KeyTail(key: string): string {
    "..." + (if |key| < 6 then key else key[|key| - 6..])
  }

  /** The reported key is "..." followed by the key's last six characters, or all of it when shorter. */
  lemma KeyTailShape(key: string)
    ensures var r := KeyTail(key);
            && |r| == 3 + (if |key| < 6 then |key| else 6) && r[..3] == "..."
            && forall i :: 3 <= i < |r| ==> r[i] == key[|key| - |r| + i]
  {
  }

  /** The calls are in loop order: by sweep, and by attempt number within a sweep. */
  predicate InLoopOrder(calls: seq<Attempt>) {
    forall i, j :: 0 <= i < j < |calls| ==>
      calls[i].sweep < calls[j].sweep || (calls[i].sweep == calls[j].sweep && calls[i].slot < calls[j].slot)
  }

  /** No key is called twice in one sweep. */
  predicate DistinctPerSweep(calls: seq<Attempt>) {
    forall i, j :: 0 <= i < j < |calls| && calls[i].sweep == calls[j].sweep ==> calls[i].key != calls[j].key
  }

  /** Each call used a pool key, at a valid attempt number, marked used at that attempt's time. */
  predicate WellFormedCalls(calls: seq<Attempt>, keys: seq<string>, clock: (nat, nat) -> int) {
    forall i :: 0 <= i < |calls| ==>
      calls[i].slot < |keys| && calls[i].key in PoolKeys(keys) && calls[i].at == ClockAt(clock, calls[i].sweep, calls[i].slot)
  }

  /** Facts about the calls so far that every sweep keeps. */
  predicate CallsSoFar(calls: seq<Attempt>, keys: seq<string>, clock: (nat, nat) -> int) {
    InLoopOrder(calls) && DistinctPerSweep(calls) && WellFormedCalls(calls, keys, clock)
  }

  /** The calls of one sweep: all of sweep `w`, attempt numbers rising, no key twice. */
  predicate SweepCalls(calls: seq<Attempt>, w: nat, keys: seq<string>, clock: (nat, nat) -> int) {
    && WellFormedCalls(calls, keys, clock)
    && (forall i :: 0 <= i < |calls| ==> calls[i].sweep == w)
    && (forall i, j :: 0 <= i < j < |calls| ==> calls[i].slot < calls[j].slot && calls[i].key != calls[j].key)
  }

  /** The result of the strict-parse / extraction / fallback chain, as the handler replies it. */
  function ReplyFor(text: string, code: string, key: string, parse: string -> Option<Review>): Response {
    var norm := Normalize(text, code, parse);
    Reviewed(norm.review, if norm.Parsed? then Some(KeyTail(key)) else None)
  }

  /**
   * `getNextApiKey()` as a sweep uses it: on a non-empty pool it always
   * yields a pool key, the one `Selection` picks, and only the cursor moves.
   */
  method SelectKey(pool: KeyPool, now: int) returns (key: string)
    requires pool.Valid() && |pool.keys| > 0
    modifies pool`cursor
    ensures pool.Valid() && key in PoolKeys(pool.keys)
    ensures var sel := Selection(pool.keys, old(pool.State()), now);
            key == sel.key && pool.State() == old(pool.State()).(cursor := sel.cursor)
  {
    var selected := pool.Select(now);
    key := selected.value;
    PoolKeysMembers(pool.keys, key);
  }

  /**
   * The pool after one call with `key` at `now`: the key marked used; its
   * error count cleared on a reply, one higher on an error; the cursor one
   * further, wrapping, on a rate-limit error.
   */
  function AfterCall(keys: seq<string>, st: PoolState, key: string, now: int, outcome: Outcome): PoolState
    requires |keys| > 0
  {
    PoolState(
      if outcome.Error? && IsRateLimit(outcome.message) then (st.cursor + 1) % |keys| else st.cursor,
      st.lastUsed[key := now],
      if outcome.Reply? then st.errors[key := 0] else st.errors[key := Lookup(st.errors, key) + 1])
  }

  /**
   * One attempt with a selected key: mark it used at `now`, make provider
   * call `callNumber`; on a reply clear the key's error count, on an error
   * count it against the key and, for a rate limit, advance the cursor.
   */
  method CallKey(pool: KeyPool, key: string, now: int, provider: nat -> Outcome, callNumber: nat)
    returns (outcome: Outcome)
    requires pool.Valid() && |pool.keys| > 0
    modifies pool
    ensures pool.Valid()
    ensures outcome == CallOutcome(provider, callNumber)
    ensures pool.lastUsed == old(pool.lastUsed)[key := now]
    ensures outcome.Reply? ==> pool.errors == old(pool.errors)[key := 0]
    ensures outcome.Error? ==> pool.errors == old(pool.errors)[key := Lookup(old(pool.errors), key) + 1]
    ensures pool.cursor == if outcome.Error? && IsRateLimit(outcome.message)
                           then (old(pool.cursor) + 1) % |pool.keys| else old(pool.cursor)
    ensures pool.State() == AfterCall(pool.keys, old(pool.State()), key, now, outcome)
  {
    pool.MarkUsed(key, now);
    outcome := CallOutcome(provider, callNumber);
    if outcome.Reply? {
      pool.ResetError(key);
    } else {
      pool.MarkError(key);
      if IsRateLimit(outcome.message) {
        pool.Rotate();
      }
    }
  }

  /** The calls of one sweep after `attempt` attempts: every call took an earlier slot with a key now in `usedKeys`. */
  predicate SweepSoFar(calls: seq<Attempt>, usedKeys: set<string>, attempt: nat, waitCycle: nat,
                       keys: seq<string>, clock: (nat, nat) -> int)
  {
    && SweepCalls(calls, waitCycle, keys, clock)
    && forall i :: 0 <= i < |calls| ==> calls[i].slot < attempt && calls[i].key in usedKeys
  }

  /**
   * One pass of the attempt loop: select a key; if this sweep already
   * called it, spend the attempt without a call (`outcome` is None), else
   * record the call and make it.
   */
  method SweepStep(pool: KeyPool, waitCycle: nat, attempt: nat, clock: (nat, nat) -> int,
                   provider: nat -> Outcome, callNumber: nat, calls: seq<Attempt>, usedKeys: set<string>)
    returns (key: string, calls': seq<Attempt>, usedKeys': set<string>, outcome: Option<Outcome>)
    requires pool.Valid() && attempt < |pool.keys|
    modifies pool
    ensures pool.Valid()
    ensures outcome.None? <==> key in usedKeys
    ensures outcome.None? ==> calls' == calls && usedKeys' == usedKeys != {}
    ensures outcome.Some? ==>
              && |calls'| == |calls| + 1 && calls'[..|calls|] == calls
              && outcome.value == CallOutcome(provider, callNumber)
              && Lookup(pool.lastUsed, calls'[|calls|].key) == calls'[|calls|].at
              && (outcome.value.Reply? ==> Lookup(pool.errors, calls'[|calls|].key) == 0)
    ensures var now := ClockAt(clock, waitCycle, attempt);
            var sel := Selection(pool.keys, old(pool.State()), now);
            var selected := old(pool.State()).(cursor := sel.cursor);
            && key == sel.key
            && (outcome.None? ==> pool.State() == selected)
            && (outcome.Some? ==>
                  && calls' == calls + [Attempt(waitCycle, attempt, key, now)] && usedKeys' == usedKeys + {key}
                  && pool.State() == AfterCall(pool.keys, selected, key, now, outcome.value))
  {
    var now := ClockAt(clock, waitCycle, attempt);
    key := SelectKey(pool, now);
    if key in usedKeys {
      // already tried in this sweep: the attempt is spent without a call
      return key, calls, usedKeys, None;
    }
    calls' := calls + [Attempt(waitCycle, attempt, key, now)];
    usedKeys' := usedKeys + {key};
    var result := CallKey(pool, key, now, provider, callNumber);
    outcome := Some(result);
  }

  /** Where a sweep ends: the pool state, its calls, the reply if one came, and the last error message. */
  datatype SweepEnd = SweepEnd(st: PoolState, calls: seq<Attempt>, reply: Option<string>, lastError: string)

  /**
   * Sweep `w` from attempt `attempt` on, as a value: each attempt selects a
   * key at its clock reading; a key this sweep already called is skipped,
   * any other is called as provider call `base + |calls|`.  A reply ends
   * the sweep; an error becomes the last error and the sweep goes on.
   */
  function SweepFrom(keys: seq<string>, w: nat, attempt: nat, st: PoolState, used: set<string>,
                     calls: seq<Attempt>, lastError: string, clock: (nat, nat) -> int,
                     provider: nat -> Outcome, base: nat): SweepEnd
    requires |keys| > 0
    decreases |keys| - attempt, 3
  {
    if attempt >= |keys| then SweepEnd(st, calls, None, lastError)
    else SweepAt(keys, w, attempt, st, used, calls, lastError, clock, provider, base)
  }

  /** Attempt `attempt < |keys|` of `SweepFrom` reads the clock once, for both selection and call. */
  function SweepAt(keys: seq<string>, w: nat, attempt: nat, st: PoolState, used: set<string>,
                   calls: seq<Attempt>, lastError: string, clock: (nat, nat) -> int,
                   provider: nat -> Outcome, base: nat): SweepEnd
    requires attempt < |keys|
    decreases |keys| - attempt, 2
  {
    SweepPick(keys, w, attempt, ClockAt(clock, w, attempt), st, used, calls, lastError, clock, provider, base)
  }

  /** The attempt at time `now` selects a key, moving the cursor as `Selection` says. */
  function SweepPick(keys: seq<string>, w: nat, attempt: nat, now: int, st: PoolState, used: set<string>,
                     calls: seq<Attempt>, lastError: string, clock: (nat, nat) -> int,
                     provider: nat -> Outcome, base: nat): SweepEnd
    requires attempt < |keys|
    decreases |keys| - attempt, 1
  {
    var sel := Selection(keys, st, now);
    SweepWith(keys, w, attempt, now, sel.key, st.(cursor := sel.cursor), used, calls, lastError, clock, provider, base)
  }

  /**
   * The attempt with its selected `key`: skipped when this sweep already
   * called the key, otherwise a call whose reply ends the sweep and whose
   * error carries the sweep on to the next attempt.
   */
  function SweepWith(keys: seq<string>, w: nat, attempt: nat, now: int, key: string, st: PoolState,
                     used: set<string>, calls: seq<Attempt>, lastError: string, clock: (nat, nat) -> int,
                     provider: nat -> Outcome, base: nat): SweepEnd
    requires attempt < |keys|
    decreases |keys| - attempt, 0
  {
    if key in used then
      SweepFrom(keys, w, attempt + 1, st, used, calls, lastError, clock, provider, base)
    else
      var outcome := CallOutcome(provider, base + |calls|);
      var after := AfterCall(keys, st, key, now, outcome);
      var calls' := calls + [Attempt(w, attempt, key, now)];
      match outcome
      case Reply(text) => SweepEnd(after, calls', Some(text), lastError)
      case Error(message) =>
        SweepFrom(keys, w, attempt + 1, after, used + {key}, calls', message, clock, provider, base)
  }

  /**
   * One attempt of `SweepFrom`, given what the attempt did: the key it
   * selected, whether it called, and the state and calls after it.  A skip
   * or an error continues the sweep from there; a reply ends it.
   */
  lemma SweepFromStep(keys: seq<string>, w: nat, attempt: nat, st: PoolState, used: set<string>,
                      calls: seq<Attempt>, lastError: string, clock: (nat, nat) -> int,
                      provider: nat -> Outcome, base: nat,
                      key: string, st': PoolState, used': set<string>, calls': seq<Attempt>, outcome: Option<Outcome>)
    requires attempt < |keys|
    requires var now := ClockAt(clock, w, attempt);
             var sel := Selection(keys, st, now);
             var selected := st.(cursor := sel.cursor);
             && key == sel.key
             && (outcome.None? <==> key in used)
             && (outcome.None? ==> st' == selected && used' == used && calls' == calls)
             && (outcome.Some? ==>
                   && outcome.value == CallOutcome(provider, base + |calls|)
                   && calls' == calls + [Attempt(w, attempt, key, now)] && used' == used + {key}
                   && st' == AfterCall(keys, selected, key, now, outcome.value))
    ensures var before := SweepFrom(keys, w, attempt, st, used, calls, lastError, clock, provider, base);
            match outcome
            case None => before == SweepFrom(keys, w, attempt + 1, st', used', calls', lastError, clock, provider, base)
            case Some(Error(message)) =>
              before == SweepFrom(keys, w, attempt + 1, st', used', calls', message, clock, provider, base)
            case Some(Reply(text)) => before == SweepEnd(st', calls', Some(text), lastError)
  {
    var now := ClockAt(clock, w, attempt);
    var sel := Selection(keys, st, now);
    assert SweepFrom(keys, w, attempt, st, used, calls, lastError, clock, provider, base)
           == SweepPick(keys, w, attempt, now, st, used, calls, lastError, clock, provider, base)
           == SweepWith(keys, w, attempt, now, sel.key, st.(cursor := sel.cursor), used, calls, lastError,
                        clock, provider, base);
  }

  /**
   * A sweep's loop state after `attempt` attempts: every call so far
   * failed, `lastError` is the last call's message, and a non-empty sweep
   * has made at least one call.
   */
  predicate SweepState(calls: seq<Attempt>, usedKeys: set<string>, attempt: nat, waitCycle: nat, keys: seq<string>,
                       clock: (nat, nat) -> int, provider: nat -> Outcome, base: nat, lastError: string)
  {
    && |calls| <= attempt
    && SweepSoFar(calls, usedKeys, attempt, waitCycle, keys, clock)
    && AllFailed(provider, base + |calls|)
    && (|calls| > 0 ==> lastError == CallOutcome(provider, base + |calls| - 1).message)
    && (attempt == 0 ==> usedKeys == {})
    && (attempt > 0 ==> |calls| > 0)
  }

  /** One pass of the sweep loop: a reply ends the sweep, a failure becomes the last error; one step of `SweepFrom`. */
  method SweepAttempt(pool: KeyPool, waitCycle: nat, attempt: nat, clock: (nat, nat) -> int,
                      provider: nat -> Outcome, base: nat, calls: seq<Attempt>, usedKeys: set<string>, lastError: string)
    returns (calls': seq<Attempt>, usedKeys': set<string>, reply: Option<string>, lastError': string)
    requires pool.Valid() && attempt < |pool.keys|
    modifies pool
    ensures pool.Valid()
    ensures reply.None? ==>
              SweepFrom(pool.keys, waitCycle, attempt, old(pool.State()), usedKeys, calls, lastError, clock, provider, base)
              == SweepFrom(pool.keys, waitCycle, attempt + 1, pool.State(), usedKeys', calls', lastError', clock, provider, base)
    ensures reply.Some? ==>
              SweepFrom(pool.keys, waitCycle, attempt, old(pool.State()), usedKeys, calls, lastError, clock, provider, base)
              == SweepEnd(pool.State(), calls', reply, lastError')
  {
    var outcome, key;
    ghost var st := pool.State();
    key, calls', usedKeys', outcome := SweepStep(pool, waitCycle, attempt, clock, provider, base + |calls|, calls, usedKeys);
    reply := if outcome.Some? && outcome.value.Reply? then Some(outcome.value.text) else None;
    lastError' := if outcome.Some? && outcome.value.Error? then outcome.value.message else lastError;
    SweepFromStep(pool.keys, waitCycle, attempt, st, usedKeys, calls, lastError, clock, provider, base,
                  key, pool.State(), usedKeys', calls', outcome);
  }

  /**
   * A pass that skipped or got an error keeps the sweep's loop state one
   * attempt further; a pass that got a reply made this sweep's first reply.
   */
  lemma AttemptKeepsSweepState(calls: seq<Attempt>, usedKeys: set<string>, attempt: nat, waitCycle: nat,
                               keys: seq<string>, clock: (nat, nat) -> int, provider: nat -> Outcome, base: nat,
                               lastError: string, calls': seq<Attempt>, usedKeys': set<string>, outcome: Option<Outcome>)
    requires SweepState(calls, usedKeys, attempt, waitCycle, keys, clock, provider, base, lastError)
    requires SweepSoFar(calls', usedKeys', attempt + 1, waitCycle, keys, clock)
    requires outcome.None? ==> calls' == calls && usedKeys' == usedKeys != {}
    requires outcome.Some? ==> |calls'| == |calls| + 1 && outcome.value == CallOutcome(provider, base + |calls|)
    ensures outcome.None? ==> SweepState(calls', usedKeys', attempt + 1, waitCycle, keys, clock, provider, base, lastError)
    ensures outcome.Some? && outcome.value.Error? ==>
              SweepState(calls', usedKeys', attempt + 1, waitCycle, keys, clock, provider, base, outcome.value.message)
    ensures outcome.Some? && outcome.value.Reply? ==>
              && SweepCalls(calls', waitCycle, keys, clock) && 0 < |calls'| <= attempt + 1
              && FirstReplyAt(provider, base + |calls'| - 1)
  {
    if outcome.Some? && outcome.value.Error? {
      assert AllFailed(provider, base + |calls| + 1);
    }
  }

  /**
   * What one sweep, numbered from call `base`, ends with: its calls are a
   * proper sweep, at least one and at most one per key; either every call
   * failed and the last error is the last call's message, or the last call
   * got the first reply, whose text is returned, and its key is marked used
   * at the call's time with its error count cleared.
   */
  predicate SweepFacts(e: SweepEnd, w: nat, keys: seq<string>, clock: (nat, nat) -> int,
                       provider: nat -> Outcome, base: nat)
  {
    && SweepCalls(e.calls, w, keys, clock)
    && 0 < |e.calls| <= |keys|
    && (e.reply.None? ==>
          AllFailed(provider, base + |e.calls|) && e.lastError == CallOutcome(provider, base + |e.calls| - 1).message)
    && (e.reply.Some? ==>
          && FirstReplyAt(provider, base + |e.calls| - 1)
          && e.reply.value == CallOutcome(provider, base + |e.calls| - 1).text
          && Lookup(e.st.errors, e.calls[|e.calls| - 1].key) == 0
          && Lookup(e.st.lastUsed, e.calls[|e.calls| - 1].key) == e.calls[|e.calls| - 1].at)
  }

  /**
   * What a sweep guarantees, from any loop state on: its calls belong to
   * sweep `w` with rising attempt numbers and distinct keys, at least one
   * and at most |keys|.  Either every call failed and the last error is
   * the last call's message, or the last call got the first reply, its key
   * is marked used at the call's time and its error count is cleared.
   */
  lemma {:induction false} SweepFromFacts(keys: seq<string>, w: nat, attempt: nat, st: PoolState, used: set<string>,
                                          calls: seq<Attempt>, lastError: string, clock: (nat, nat) -> int,
                                          provider: nat -> Outcome, base: nat, e: SweepEnd)
    requires 0 < |keys| && attempt <= |keys|
    requires SweepState(calls, used, attempt, w, keys, clock, provider, base, lastError)
    requires e == SweepFrom(keys, w, attempt, st, used, calls, lastError, clock, provider, base)
    ensures SweepFacts(e, w, keys, clock, provider, base)
    decreases |keys| - attempt, 1
  {
    if attempt < |keys| {
      var now := ClockAt(clock, w, attempt);
      var sel := Selection(keys, st, now);
      assert e == SweepPick(keys, w, attempt, now, st, used, calls, lastError, clock, provider, base);
      SweepWithFacts(keys, w, attempt, now, sel.key, st.(cursor := sel.cursor), used, calls, lastError,
                     clock, provider, base, e);
    }
  }

  /** `SweepFromFacts` for an attempt whose key is already selected. */
  lemma {:induction false} SweepWithFacts(keys: seq<string>, w: nat, attempt: nat, now: int, key: string,
                                          st: PoolState, used: set<string>, calls: seq<Attempt>, lastError: string,
                                          clock: (nat, nat) -> int, provider: nat -> Outcome, base: nat, e: SweepEnd)
    requires attempt < |keys| && key in PoolKeys(keys) && now == ClockAt(clock, w, attempt)
    requires SweepState(calls, used, attempt, w, keys, clock, provider, base, lastError)
    requires e == SweepWith(keys, w, attempt, now, key, st, used, calls, lastError, clock, provider, base)
    ensures SweepFacts(e, w, keys, clock, provider, base)
    decreases |keys| - attempt, 0
  {
    if key in used {
      AttemptKeepsSweepState(calls, used, attempt, w, keys, clock, provider, base, lastError, calls, used, None);
      SweepFromFacts(keys, w, attempt + 1, st, used, calls, lastError, clock, provider, base, e);
    } else {
      var outcome := CallOutcome(provider, base + |calls|);
      var call := Attempt(w, attempt, key, now);
      AppendToSweep(calls, call, w, attempt, keys, clock, used);
      AttemptKeepsSweepState(calls, used, attempt, w, keys, clock, provider, base, lastError,
                             calls + [call], used + {key}, Some(outcome));
      if outcome.Error? {
        SweepFromFacts(keys, w, attempt + 1, AfterCall(keys, st, key, now, outcome), used + {key},
                       calls + [call], outcome.message, clock, provider, base, e);
      }
    }
  }

  /**
   * One sweep (`waitCycle`): up to |keys| attempts.  The first reply ends
   * the sweep and its text is returned; otherwise every call failed and
   * `lastError` is the last message.  `base` is the number of provider
   * calls made by earlier sweeps.
   */
  method Sweep(pool: KeyPool, waitCycle: nat, clock: (nat, nat) -> int, provider: nat -> Outcome, base: nat)
    returns (calls: seq<Attempt>, reply: Option<string>, lastError: string)
    requires pool.Valid() && |pool.keys| > 0
    modifies pool
    ensures pool.Valid()
    ensures SweepFrom(pool.keys, waitCycle, 0, old(pool.State()), {}, [], "", clock, provider, base)
            == SweepEnd(pool.State(), calls, reply, lastError)
  {
    var n := |pool.keys|;
    calls, reply, lastError := [], None, "";
    var usedKeys: set<string> := {};
    var attempt := 0;
    while attempt < n
      invariant 0 <= attempt <= n
      invariant pool.Valid()
      invariant reply.None?
      invariant SweepFrom(pool.keys, waitCycle, 0, old(pool.State()), {}, [], "", clock, provider, base)
                == SweepFrom(pool.keys, waitCycle, attempt, pool.State(), usedKeys, calls, lastError, clock, provider, base)
    {
      calls, usedKeys, reply, lastError := SweepAttempt(pool, waitCycle, attempt, clock, provider, base,
                                                        calls, usedKeys, lastError);
      if reply.Some? {
        return;
      }
      attempt := attempt + 1;
    }
  }

  /** Appending this sweep's next call keeps its attempt numbers rising and its keys distinct. */
  lemma AppendToSweep(calls: seq<Attempt>, call: Attempt, w: nat, attempt: nat,
                      keys: seq<string>, clock: (nat, nat) -> int, usedKeys: set<string>)
    requires SweepSoFar(calls, usedKeys, attempt, w, keys, clock)
    requires call.key !in usedKeys && call.sweep == w && call.slot == attempt && attempt < |keys|
    requires call.key in PoolKeys(keys) && call.at == ClockAt(clock, w, attempt)
    ensures SweepSoFar(calls + [call], usedKeys + {call.key}, attempt + 1, w, keys, clock)
  {
    var c := calls + [call];
    var used := usedKeys + {call.key};
    forall i | 0 <= i < |c|
      ensures c[i].slot < |keys| && c[i].key in PoolKeys(keys) && c[i].at == ClockAt(clock, c[i].sweep, c[i].slot)
      ensures c[i].sweep == w && c[i].slot < attempt + 1 && c[i].key in used
    {
      if i < |calls| {
        assert c[i] == calls[i];
      }
    }
    forall i, j | 0 <= i < j < |c| ensures c[i].slot < c[j].slot && c[i].key != c[j].key {
      assert c[i] == calls[i];
      if j < |calls| {
        assert c[j] == calls[j];
      }
    }
  }

  /** A sweep's calls appended after the earlier sweeps' calls keep the request-wide facts. */
  lemma JoinSweep(before: seq<Attempt>, sweep: seq<Attempt>, w: nat, keys: seq<string>, clock: (nat, nat) -> int)
    requires CallsSoFar(before, keys, clock) && (forall i :: 0 <= i < |before| ==> before[i].sweep < w)
    requires SweepCalls(sweep, w, keys, clock)
    ensures CallsSoFar(before + sweep, keys, clock)
    ensures forall i :: 0 <= i < |before + sweep| ==> (before + sweep)[i].sweep <= w
  {
    var c := before + sweep;
    forall i | 0 <= i < |c| ensures c[i] == if i < |before| then before[i] else sweep[i - |before|] {
    }
  }

  /** `w` sweeps of `n` attempts each, counted without multiplication. */
  function Budget(w: nat, n: nat): nat {
    if w == 0 then 0 else Budget(w - 1, n) + n
  }

  lemma {:induction false} BudgetIsProduct(w: nat, n: nat)
    ensures Budget(w, n) == w * n
  {
    if w > 0 {
      BudgetIsProduct(w - 1, n);
      assert w * n == (w - 1) * n + n;
    }
  }

  lemma {:induction false} BudgetMonotone(v: nat, w: nat, n: nat)
    requires v <= w
    ensures Budget(v, n) <= Budget(w, n)
  {
    if v < w {
      BudgetMonotone(v, w - 1, n);
    }
  }

  /** What the wait-cycle loop keeps about the calls made before sweep `w`: all failed. */
  predicate FailedBefore(calls: seq<Attempt>, w: nat, keys: seq<string>, clock: (nat, nat) -> int,
                         provider: nat -> Outcome, lastError: Option<string>)
  {
    && CallsSoFar(calls, keys, clock)
    && (forall i :: 0 <= i < |calls| ==> calls[i].sweep < w)
    && AllFailed(provider, |calls|)
    && (w > 0 <==> |calls| > 0)
    && lastError == if |calls| == 0 then None else Some(CallOutcome(provider, |calls| - 1).message)
  }

  /** A failed sweep appended to failed earlier sweeps: everything failed, the sweep's last error is the last. */
  lemma FailedSweepJoin(calls: seq<Attempt>, sweepCalls: seq<Attempt>, w: nat, keys: seq<string>,
                        clock: (nat, nat) -> int, provider: nat -> Outcome, lastError: Option<string>, message: string)
    requires FailedBefore(calls, w, keys, clock, provider, lastError)
    requires SweepCalls(sweepCalls, w, keys, clock) && |sweepCalls| > 0
    requires AllFailed(provider, |calls| + |sweepCalls|)
    requires message == CallOutcome(provider, |calls| + |sweepCalls| - 1).message
    ensures FailedBefore(calls + sweepCalls, w + 1, keys, clock, provider, Some(message))
  {
    JoinSweep(calls, sweepCalls, w, keys, clock);
    var c := calls + sweepCalls;
    assert |c| == |calls| + |sweepCalls|;
    forall i | 0 <= i < |c| ensures c[i].sweep < w + 1 {
    }
  }

  /** A sweep that ended in a reply, appended to the earlier calls: its last call is the request's last. */
  lemma RepliedSweepJoin(calls: seq<Attempt>, sweepCalls: seq<Attempt>, w: nat, keys: seq<string>,
                         clock: (nat, nat) -> int, provider: nat -> Outcome)
    requires |sweepCalls| > 0 && forall i :: 0 <= i < |sweepCalls| ==> sweepCalls[i].sweep == w
    requires FirstReplyAt(provider, |calls| + |sweepCalls| - 1)
    ensures var c := calls + sweepCalls;
            && FirstReplyAt(provider, |c| - 1)
            && c[|c| - 1] == sweepCalls[|sweepCalls| - 1]
            && c[|c| - 1].sweep == w
  {
  }

  /**
   * The request was served by its last call: that call got the first reply,
   * it belongs to sweep `w`, and the pool state `st` has its key marked used
   * at the call's time with its error count cleared.
   */
  predicate ServedBy(st: PoolState, calls: seq<Attempt>, provider: nat -> Outcome, w: nat)
  {
    && |calls| > 0
    && FirstReplyAt(provider, |calls| - 1)
    && calls[|calls| - 1].sweep == w
    && Lookup(st.errors, calls[|calls| - 1].key) == 0
    && Lookup(st.lastUsed, calls[|calls| - 1].key) == calls[|calls| - 1].at
  }

  /**
   * What the wait-cycle loop ends with: the pool state, every call in
   * order, the waits taken, the first reply's text if any, and the last
   * error message if any call failed.
   */
  datatype RunEnd = RunEnd(st: PoolState, calls: seq<Attempt>, waits: seq<nat>,
                           reply: Option<string>, lastError: Option<string>)

  /**
   * The wait-cycle loop from sweep `w` on: sweep with the calls numbered
   * after the earlier ones; stop at a reply; otherwise, unless this was the
   * last sweep, reset every key and wait before the next one.
   */
  function RunFrom(keys: seq<string>, w: nat, st: PoolState, calls: seq<Attempt>, waits: seq<nat>,
                   lastError: Option<string>, clock: (nat, nat) -> int, provider: nat -> Outcome): RunEnd
    requires |keys| > 0
    decreases MaxWaitCycles + 1 - w
  {
    if w > MaxWaitCycles then RunEnd(st, calls, waits, None, lastError)
    else
      var e := SweepFrom(keys, w, 0, st, {}, [], "", clock, provider, |calls|);
      if e.reply.Some? then RunEnd(e.st, calls + e.calls, waits, e.reply, Some(e.lastError))
      else if w < MaxWaitCycles then
        RunFrom(keys, w + 1, ResetState(keys, e.st), calls + e.calls, waits + [WaitSeconds(w)],
                Some(e.lastError), clock, provider)
      else RunFrom(keys, w + 1, e.st, calls + e.calls, waits, Some(e.lastError), clock, provider)
  }

  /** The whole wait-cycle loop of one request, from pool state `st`. */
  function Plan(keys: seq<string>, st: PoolState, clock: (nat, nat) -> int, provider: nat -> Outcome): RunEnd
    requires |keys| > 0
  {
    RunFrom(keys, 0, st, [], [], None, clock, provider)
  }

  /**
   * The wait-cycle loop's state before sweep `waitCycle`: every call so far
   * failed, one wait was recorded after each failed sweep but the last,
   * and at most |keys| calls were made per sweep.
   */
  predicate WaitLoopState(calls: seq<Attempt>, waits: seq<nat>, waitCycle: nat, keys: seq<string>,
                          clock: (nat, nat) -> int, provider: nat -> Outcome, lastError: Option<string>)
  {
    && waitCycle <= MaxWaitCycles + 1
    && |waits| == (if waitCycle <= MaxWaitCycles then waitCycle else MaxWaitCycles)
    && (forall c :: 0 <= c < |waits| ==> waits[c] == WaitSeconds(c))
    && FailedBefore(calls, waitCycle, keys, clock, provider, lastError)
    && |calls| <= Budget(waitCycle, |keys|)
  }

  /**
   * What the wait-cycle loop leaves: the calls in loop order, at most one
   * per key and sweep, at most four sweeps of |keys| attempts; a wait of
   * 45, 65, 85 s after each failed sweep but the last.  Either the last
   * call got the first reply and `reply` is its text, or every call failed,
   * all three waits were taken and `lastError` is the last call's message.
   */
  predicate SweepsResult(keys: seq<string>, r: RunEnd, clock: (nat, nat) -> int, provider: nat -> Outcome)
  {
    && CallsSoFar(r.calls, keys, clock) && (forall i :: 0 <= i < |r.calls| ==> r.calls[i].sweep <= MaxWaitCycles)
    && 0 < |r.calls| <= Budget(MaxWaitCycles + 1, |keys|)
    && |r.waits| <= MaxWaitCycles && (forall c :: 0 <= c < |r.waits| ==> r.waits[c] == WaitSeconds(c))
    && (r.reply.Some? ==>
          ServedBy(r.st, r.calls, provider, |r.waits|) && r.reply.value == CallOutcome(provider, |r.calls| - 1).text)
    && (r.reply.None? ==>
          && AllFailed(provider, |r.calls|)
          && |r.waits| == MaxWaitCycles
          && r.lastError == Some(CallOutcome(provider, |r.calls| - 1).message))
  }

  /**
   * One sweep joined to the earlier failed ones: a reply ends the loop with
   * every promise of `SweepsResult`; no reply leaves the loop's state for
   * the next sweep, with a wait recorded unless this sweep was the last.
   */
  lemma SweepJoinFacts(keys: seq<string>, w: nat, calls: seq<Attempt>, waits: seq<nat>, lastError: Option<string>,
                       clock: (nat, nat) -> int, provider: nat -> Outcome, e: SweepEnd)
    requires |keys| > 0 && w <= MaxWaitCycles
    requires WaitLoopState(calls, waits, w, keys, clock, provider, lastError)
    requires SweepFacts(e, w, keys, clock, provider, |calls|)
    ensures e.reply.Some? ==>
              SweepsResult(keys, RunEnd(e.st, calls + e.calls, waits, e.reply, Some(e.lastError)), clock, provider)
    ensures e.reply.None? ==>
              WaitLoopState(calls + e.calls, if w < MaxWaitCycles then waits + [WaitSeconds(w)] else waits, w + 1,
                            keys, clock, provider, Some(e.lastError))
  {
    JoinSweep(calls, e.calls, w, keys, clock);
    BudgetMonotone(w + 1, MaxWaitCycles + 1, |keys|);
    if e.reply.Some? {
      RepliedSweepJoin(calls, e.calls, w, keys, clock, provider);
    } else {
      FailedSweepJoin(calls, e.calls, w, keys, clock, provider, lastError, e.lastError);
    }
  }

  /** The facts of every sweep from `w` on, joined: what the wait-cycle loop promises. */
  lemma {:induction false} RunFromFacts(keys: seq<string>, w: nat, st: PoolState, calls: seq<Attempt>,
                                        waits: seq<nat>, lastError: Option<string>, clock: (nat, nat) -> int,
                                        provider: nat -> Outcome, r: RunEnd)
    requires |keys| > 0
    requires WaitLoopState(calls, waits, w, keys, clock, provider, lastError)
    requires r == RunFrom(keys, w, st, calls, waits, lastError, clock, provider)
    ensures SweepsResult(keys, r, clock, provider)
    decreases MaxWaitCycles + 1 - w
  {
    if w > MaxWaitCycles {
      return;
    }
    var e := SweepFrom(keys, w, 0, st, {}, [], "", clock, provider, |calls|);
    SweepFromFacts(keys, w, 0, st, {}, [], "", clock, provider, |calls|, e);
    SweepJoinFacts(keys, w, calls, waits, lastError, clock, provider, e);
    if e.reply.None? {
      if w < MaxWaitCycles {
        RunFromFacts(keys, w + 1, ResetState(keys, e.st), calls + e.calls, waits + [WaitSeconds(w)],
                     Some(e.lastError), clock, provider, r);
      } else {
        RunFromFacts(keys, w + 1, e.st, calls + e.calls, waits, Some(e.lastError), clock, provider, r);
      }
    }
  }

  /** The whole wait-cycle loop keeps every promise of `SweepsResult`. */
  lemma PlanFacts(keys: seq<string>, st: PoolState, clock: (nat, nat) -> int, provider: nat -> Outcome)
    requires |keys| > 0
    ensures SweepsResult(keys, Plan(keys, st, clock, provider), clock, provider)
  {
    RunFromFacts(keys, 0, st, [], [], None, clock, provider, Plan(keys, st, clock, provider));
  }

  /**
   * One pass of the wait-cycle loop: sweep `waitCycle`; if it got no
   * reply and is not the last, reset every key and wait.
   */
  method Cycle(pool: KeyPool, waitCycle: nat, clock: (nat, nat) -> int, provider: nat -> Outcome,
               calls: seq<Attempt>, waits: seq<nat>, lastError: Option<string>)
    returns (calls': seq<Attempt>, waits': seq<nat>, reply: Option<string>, lastError': Option<string>)
    requires pool.Valid() && |pool.keys| > 0 && waitCycle <= MaxWaitCycles
    modifies pool
    ensures pool.Valid()
    ensures reply.None? ==>
              RunFrom(pool.keys, waitCycle, old(pool.State()), calls, waits, lastError, clock, provider)
              == RunFrom(pool.keys, waitCycle + 1, pool.State(), calls', waits', lastError', clock, provider)
    ensures reply.Some? ==>
              RunFrom(pool.keys, waitCycle, old(pool.State()), calls, waits, lastError, clock, provider)
              == RunEnd(pool.State(), calls', waits', reply, lastError')
  {
    var sweepCalls, sweepError;
    sweepCalls, reply, sweepError := Sweep(pool, waitCycle, clock, provider, |calls|);
    calls' := calls + sweepCalls;
    lastError' := Some(sweepError);
    waits' := waits;
    if reply.None? && waitCycle < MaxWaitCycles {
      // every key gets a clean slate, then the handler sleeps
      pool.ResetAll();
      waits' := waits + [WaitSeconds(waitCycle)];
    }
  }

  /**
   * The wait-cycle loop on a non-empty pool: sweeps 0 .. 3 until one gets a
   * reply; after each failed sweep but the last, every key is reset and the
   * handler sleeps.
   */
  method RunSweeps(pool: KeyPool, clock: (nat, nat) -> int, provider: nat -> Outcome)
    returns (calls: seq<Attempt>, waits: seq<nat>, reply: Option<string>, lastError: Option<string>)
    requires pool.Valid() && |pool.keys| > 0
    modifies pool
    ensures pool.Valid()
    ensures Plan(pool.keys, old(pool.State()), clock, provider) == RunEnd(pool.State(), calls, waits, reply, lastError)
  {
    calls, waits, reply, lastError := [], [], None, None;
    var waitCycle := 0;
    while waitCycle <= MaxWaitCycles
      invariant waitCycle <= MaxWaitCycles + 1
      invariant pool.Valid()
      invariant reply.None?
      invariant Plan(pool.keys, old(pool.State()), clock, provider)
                == RunFrom(pool.keys, waitCycle, pool.State(), calls, waits, lastError, clock, provider)
    {
      calls, waits, reply, lastError := Cycle(pool, waitCycle, clock, provider, calls, waits, lastError);
      if reply.Some? {
        return;
      }
      waitCycle := waitCycle + 1;
    }
  }

  /**
   * The response, the calls, the waits and the final pool state are those
   * of the wait-cycle loop `Plan` computes from the pool state before the
   * request: a reply gives a review, no reply gives 429 with the last error.
   */
  predicate FollowsPlan(keys: seq<string>, before: PoolState, after: PoolState, clock: (nat, nat) -> int,
                        provider: nat -> Outcome, response: Response, calls: seq<Attempt>, waits: seq<nat>)
    requires |keys| > 0
  {
    var p := Plan(keys, before, clock, provider);
    && after == p.st && calls == p.calls && waits == p.waits
    && (response.Reviewed? <==> p.reply.Some?)
    && (p.reply.None? ==> response == Exhausted(p.lastError, |keys|))
  }

  /**
   * What serving a valid request on a non-empty pool guarantees.  The
   * calls are in loop order, at most one per key and sweep, at most four
   * sweeps of |keys| attempts; the waits are 45, 65, 85 s, one after each
   * failed sweep but the last.  On success the first call that got a reply
   * ended both loops and its normalised review is the response; on
   * exhaustion every call failed, all three waits were taken and the last
   * error is reported with the number of configured keys.
   */
  predicate ServedRequest(keys: seq<string>, st: PoolState, code: string, clock: (nat, nat) -> int,
                          provider: nat -> Outcome, parse: string -> Option<Review>, response: Response,
                          calls: seq<Attempt>, waits: seq<nat>)
  {
    && (response.Reviewed? || response.Exhausted?)
    && CallsSoFar(calls, keys, clock) && (forall i :: 0 <= i < |calls| ==> calls[i].sweep <= MaxWaitCycles)
    && |calls| <= (MaxWaitCycles + 1) * |keys|
    && |waits| <= MaxWaitCycles && (forall c :: 0 <= c < |waits| ==> waits[c] == WaitSeconds(c))
    && (response.Reviewed? ==>
          && ServedBy(st, calls, provider, |waits|)
          && response == ReplyFor(CallOutcome(provider, |calls| - 1).text, code, calls[|calls| - 1].key, parse))
    && (response.Exhausted? ==>
          && |calls| > 0
          && AllFailed(provider, |calls|)
          && waits == [WaitSeconds(0), WaitSeconds(1), WaitSeconds(2)]
          && response.details == Some(CallOutcome(provider, |calls| - 1).message)
          && response.keysAvailable == |keys|)
  }

  /**
   * The handler past validation, on a non-empty pool: run the wait-cycle
   * loop and reply with the first reply's normalised review, or with 429
   * and the last error.
   */
  method Serve(pool: KeyPool, code: string, clock: (nat, nat) -> int, provider: nat -> Outcome,
               parse: string -> Option<Review>)
    returns (response: Response, calls: seq<Attempt>, waits: seq<nat>)
    requires pool.Valid() && |pool.keys| > 0
    modifies pool
    ensures pool.Valid()
    ensures FollowsPlan(pool.keys, old(pool.State()), pool.State(), clock, provider, response, calls, waits)
    ensures ServedRequest(pool.keys, pool.State(), code, clock, provider, parse, response, calls, waits)
  {
    ghost var st := pool.State();
    var reply, lastError;
    calls, waits, reply, lastError := RunSweeps(pool, clock, provider);
    RunFromFacts(pool.keys, 0, st, [], [], None, clock, provider, RunEnd(pool.State(), calls, waits, reply, lastError));
    BudgetIsProduct(MaxWaitCycles + 1, |pool.keys|);
    if reply.Some? {
      // the reply's text is the provider's answer to the last call
      var text := CallOutcome(provider, |calls| - 1).text;
      response := ReplyFor(text, code, calls[|calls| - 1].key, parse);
    } else {
      response := Exhausted(lastError, |pool.keys|);
    }
  }

  /**
   * `POST /api/review`: validate the body, refuse when no key is
   * configured, otherwise serve the request.  Validation precedes any
   * selection or call and changes nothing.
   */
  method HandleReview(pool: KeyPool, code: Option<string>, language: Option<string>,
                      clock: (nat, nat) -> int, provider: nat -> Outcome, parse: string -> Option<Review>)
    returns (response: Response, calls: seq<Attempt>, waits: seq<nat>)
    requires pool.Valid()
    modifies pool
    ensures pool.Valid()
    ensures !Present(code) || !Present(language) ==>
              response == BadRequest && calls == [] && waits == [] && unchanged(pool)
    ensures Present(code) && Present(language) && |pool.keys| == 0 ==>
              response == NoKeys && calls == [] && waits == [] && unchanged(pool)
    ensures Present(code) && Present(language) && |pool.keys| > 0 ==>
              && FollowsPlan(pool.keys, old(pool.State()), pool.State(), clock, provider, response, calls, waits)
              && ServedRequest(pool.keys, pool.State(), code.value, clock, provider, parse, response, calls, waits)
  {
    if !Present(code) || !Present(language) {
      return BadRequest, [], [];
    }
    if |pool.keys| == 0 {
      return NoKeys, [], [];
    }
    response, calls, waits := Serve(pool, code.value, clock, provider, parse);
  }
}
