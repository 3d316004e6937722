/**
  What the session store guarantees over whole runs.

  The reference is an append-only log: it never evicts, it only remembers
  accepted binds and revokes, and reads off the last event that names a token.
 */
module SessionStoreRuns {
  import opened Wrappers
  import opened SessionStore

  // ---------------------------------------------------------------------
  // The reference log
  // ---------------------------------------------------------------------

  datatype Event =
    | Inserted(token: string, sessionId: string, at: int)
    | Removed(token: string)

  /** The last event that names `token`. */
  function LastEvent(log: seq<Event>, token: string): (e: Option<Event>)
    ensures e.Some? ==> e.value in log && e.value.token == token
  {
    if |log| == 0 then None
    else if log[|log| - 1].token == token then Some(log[|log| - 1])
    else LastEvent(log[..|log| - 1], token)
  }

  /** `token` was bound last at some t0 with now < t0 + ttl, and not revoked since. */
  predicate IsLive(cfg: Config, log: seq<Event>, token: string, now: int) {
    var e := LastEvent(log, token);
    e.Some? && e.value.Inserted? && now < e.value.at + cfg.ttl
  }

  function LiveTokens(cfg: Config, log: seq<Event>, now: int): set<string> {
    set e | e in log && IsLive(cfg, log, e.token, now) :: e.token
  }

  /** The answer the log gives. */
  function LogAnswer(cfg: Config, log: seq<Event>, call: Call): Answer {
    match call
    case Bind(token, _, evictAt, _) =>
      if && cfg.maxEntries != 0
         && |LiveTokens(cfg, log, evictAt)| >= cfg.maxEntries
         && token !in LiveTokens(cfg, log, evictAt)
      then AtCapacity(cfg.maxEntries)
      else Bound
    case Verify(token, sessionId, now) =>
      Verified(IsLive(cfg, log, token, now) && LastEvent(log, token).value.sessionId == sessionId)
    case Revoke(_) => Revoked
  }

  /** What one call adds to the log: accepted binds and revokes only. */
  function LogStep(cfg: Config, log: seq<Event>, call: Call): seq<Event> {
    match call
    case Bind(token, sessionId, _, insertAt) =>
      if LogAnswer(cfg, log, call) == Bound then log + [Inserted(token, sessionId, insertAt)] else log
    case Verify(_, _, _) => log
    case Revoke(token) => log + [Removed(token)]
  }

  function LogAfter(cfg: Config, calls: seq<Call>): seq<Event> {
    if |calls| == 0 then []
    else LogStep(cfg, LogAfter(cfg, calls[..|calls| - 1]), calls[|calls| - 1])
  }

  lemma LogAfterAppend(cfg: Config, calls: seq<Call>, call: Call)
    ensures LogAfter(cfg, calls + [call]) == LogStep(cfg, LogAfter(cfg, calls), call)
  {
    assert (calls + [call])[..|calls|] == calls;
  }

  // ---------------------------------------------------------------------
  // Clock readings
  // ---------------------------------------------------------------------

  function ReadingsOf(call: Call): seq<int> {
    match call
    case Bind(_, _, evictAt, insertAt) => [evictAt, insertAt]
    case Verify(_, _, now) => [now]
    case Revoke(_) => []
  }

  function Readings(calls: seq<Call>): seq<int> {
    if |calls| == 0 then []
    else Readings(calls[..|calls| - 1]) + ReadingsOf(calls[|calls| - 1])
  }

  /** Every clock reading of the run is at least the one before it. */
  ghost predicate ClockNeverGoesBack(calls: seq<Call>) {
    forall i, j :: 0 <= i < j < |Readings(calls)| ==> Readings(calls)[i] <= Readings(calls)[j]
  }

  lemma ClockSplit(calls: seq<Call>, call: Call)
    requires ClockNeverGoesBack(calls + [call])
    ensures ClockNeverGoesBack(calls)
    ensures forall r, t :: r in Readings(calls) && t in ReadingsOf(call) ==> r <= t
    ensures call.Bind? ==> call.evictAt <= call.insertAt
  {
    assert (calls + [call])[..|calls|] == calls;
    var before, now := Readings(calls), ReadingsOf(call);
    assert Readings(calls + [call]) == before + now;
    forall i, j | 0 <= i < j < |before|
      ensures before[i] <= before[j]
    {
      assert (before + now)[i] <= (before + now)[j];
    }
    forall r, t | r in before && t in now
      ensures r <= t
    {
      var i :| 0 <= i < |before| && before[i] == r;
      var j :| 0 <= j < |now| && now[j] == t;
      assert (before + now)[i] <= (before + now)[|before| + j];
    }
    if call.Bind? {
      assert (before + now)[|before|] <= (before + now)[|before| + 1];
    }
  }

  // ---------------------------------------------------------------------
  // Refinement
  // ---------------------------------------------------------------------

  /** The map holds what the log says, and may have dropped only what `now` has outlived. */
  ghost predicate Agrees(cfg: Config, entries: map<string, Entry>, log: seq<Event>, now: int) {
    && (forall s :: s in entries ==>
          LastEvent(log, s) == Some(Inserted(s, entries[s].sessionId, entries[s].expiresAt - cfg.ttl)))
    && (forall s :: IsLive(cfg, log, s, now) ==> s in entries)
  }

  lemma LastEventAppend(log: seq<Event>, e: Event, token: string)
    ensures LastEvent(log + [e], token) == if e.token == token then Some(e) else LastEvent(log, token)
  {
    assert (log + [e])[..|log|] == log;
  }

  lemma {:induction false} LastEventIn(log: seq<Event>, i: nat)
    requires i < |log|
    ensures LastEvent(log, log[i].token).Some?
  {
    if i < |log| - 1 {
      LastEventIn(log[..|log| - 1], i);
    }
  }

  lemma EvictedAgrees(cfg: Config, entries: map<string, Entry>, log: seq<Event>, now: int)
    requires Agrees(cfg, entries, log, now)
    ensures Evict(entries, now).Keys == LiveTokens(cfg, log, now)
    ensures forall s :: s in Evict(entries, now) <==> IsLive(cfg, log, s, now)
  {
    forall s
      ensures s in Evict(entries, now) <==> IsLive(cfg, log, s, now)
      ensures s in LiveTokens(cfg, log, now) <==> IsLive(cfg, log, s, now)
    {
      if IsLive(cfg, log, s, now) {
        var e := LastEvent(log, s).value;
        assert e in log && e.token == s;
      }
    }
  }

  lemma AnswerFromAgreement(cfg: Config, entries: map<string, Entry>, log: seq<Event>, call: Call)
    requires forall t :: t in ReadingsOf(call) ==> Agrees(cfg, entries, log, t)
    ensures Apply(cfg, entries, call).1 == LogAnswer(cfg, log, call)
  {
    match call
    case Bind(token, sessionId, evictAt, insertAt) =>
      assert evictAt in ReadingsOf(call);
      EvictedAgrees(cfg, entries, log, evictAt);
      assert |Evict(entries, evictAt)| == |Evict(entries, evictAt).Keys|;
    case Verify(token, sessionId, t) =>
      assert t in ReadingsOf(call);
      EvictedAgrees(cfg, entries, log, t);
    case Revoke(token) =>
  }

  lemma EvictKeepsAgreement(cfg: Config, entries: map<string, Entry>, log: seq<Event>, t: int, now: int)
    requires t <= now && Agrees(cfg, entries, log, now)
    ensures Agrees(cfg, Evict(entries, t), log, now)
  {
  }

  lemma InsertKeepsAgreement(cfg: Config, entries: map<string, Entry>, log: seq<Event>, e: Event, now: int)
    requires e.Inserted? && Agrees(cfg, entries, log, now)
    ensures Agrees(cfg, entries[e.token := Entry(e.sessionId, e.at + cfg.ttl)], log + [e], now)
  {
    hide LastEvent;
    forall s {
      LastEventAppend(log, e, s);
    }
  }

  lemma RemoveKeepsAgreement(cfg: Config, entries: map<string, Entry>, log: seq<Event>, token: string, now: int)
    requires Agrees(cfg, entries, log, now)
    ensures Agrees(cfg, entries - {token}, log + [Removed(token)], now)
  {
    hide LastEvent;
    forall s
      ensures s in entries - {token} <==> s in entries && s != token
      ensures LastEvent(log + [Removed(token)], s) == if s == token then Some(Removed(token)) else LastEvent(log, s)
    {
      LastEventAppend(log, Removed(token), s);
    }
  }

  lemma ApplyKeepsAgreement(cfg: Config, entries: map<string, Entry>, log: seq<Event>, call: Call, now: int)
    requires Apply(cfg, entries, call).1 == LogAnswer(cfg, log, call)
    requires forall t :: t in ReadingsOf(call) ==> t <= now
    requires Agrees(cfg, entries, log, now)
    ensures Agrees(cfg, Apply(cfg, entries, call).0, LogStep(cfg, log, call), now)
  {
    hide Agrees;
    match call
    case Bind(_, _, evictAt, _) =>
      assert evictAt in ReadingsOf(call);
      BindKeepsAgreement(cfg, entries, log, call, now);
    case Verify(_, _, t) =>
      assert t in ReadingsOf(call);
      EvictKeepsAgreement(cfg, entries, log, t, now);
    case Revoke(token) =>
      RemoveKeepsAgreement(cfg, entries, log, token, now);
  }

  lemma BindKeepsAgreement(cfg: Config, entries: map<string, Entry>, log: seq<Event>, call: Call, now: int)
    requires call.Bind? && call.evictAt <= now
    requires Refuses(cfg, Evict(entries, call.evictAt), call.token) <==> LogAnswer(cfg, log, call) != Bound
    requires Agrees(cfg, entries, log, now)
    ensures Agrees(cfg, Apply(cfg, entries, call).0, LogStep(cfg, log, call), now)
  {
    hide Agrees;
    var kept := Evict(entries, call.evictAt);
    EvictKeepsAgreement(cfg, entries, log, call.evictAt, now);
    if !Refuses(cfg, kept, call.token) {
      InsertKeepsAgreement(cfg, kept, log, Inserted(call.token, call.sessionId, call.insertAt), now);
    }
  }

  lemma {:induction false} StoreAgreesWithLog(cfg: Config, calls: seq<Call>, now: int)
    requires ClockNeverGoesBack(calls)
    requires forall r :: r in Readings(calls) ==> r <= now
    ensures Agrees(cfg, StateAfter(cfg, calls), LogAfter(cfg, calls), now)
  {
    if |calls| > 0 {
      var init, call := calls[..|calls| - 1], calls[|calls| - 1];
      assert calls == init + [call];
      ClockSplit(init, call);
      assert Readings(calls) == Readings(init) + ReadingsOf(call);
      assert forall r :: r in Readings(init) || r in ReadingsOf(call) ==> r in Readings(calls);
      forall t | t in ReadingsOf(call) {
        StoreAgreesWithLog(cfg, init, t);
      }
      StoreAgreesWithLog(cfg, init, now);
      AnswerFromAgreement(cfg, StateAfter(cfg, init), LogAfter(cfg, init), call);
      ApplyKeepsAgreement(cfg, StateAfter(cfg, init), LogAfter(cfg, init), call, now);
      LogAfterAppend(cfg, init, call);
      StateAfterAppend(cfg, init, call);
    }
  }

  /** The refinement: under a clock that never goes back, every answer is the log's. */
  lemma AnswersMatchLog(cfg: Config, calls: seq<Call>, call: Call)
    requires ClockNeverGoesBack(calls + [call])
    ensures AnswerTo(cfg, calls, call) == LogAnswer(cfg, LogAfter(cfg, calls), call)
  {
    ClockSplit(calls, call);
    forall t | t in ReadingsOf(call) {
      StoreAgreesWithLog(cfg, calls, t);
    }
    AnswerFromAgreement(cfg, StateAfter(cfg, calls), LogAfter(cfg, calls), call);
  }

  /**
    Eviction leaves exactly the live bindings: in a run whose clock never goes back,
    the tokens kept at `now` are those whose last log event is a bind within its TTL.
   */
  lemma EvictedIsLive(cfg: Config, calls: seq<Call>, now: int)
    requires ClockNeverGoesBack(calls + [Verify("", "", now)])
    ensures Evict(StateAfter(cfg, calls), now).Keys == LiveTokens(cfg, LogAfter(cfg, calls), now)
    ensures forall s :: s in Evict(StateAfter(cfg, calls), now) ==>
                          var entry := StateAfter(cfg, calls)[s];
                          LastEvent(LogAfter(cfg, calls), s) ==
                          Some(Inserted(s, entry.sessionId, entry.expiresAt - cfg.ttl))
  {
    hide ClockNeverGoesBack;
    hide IsLive;
    hide LastEvent;
    hide StateAfter;
    hide LogAfter;
    AgreesAt(cfg, calls, now);
    EvictedAgrees(cfg, StateAfter(cfg, calls), LogAfter(cfg, calls), now);
  }

  lemma AgreesAt(cfg: Config, calls: seq<Call>, now: int)
    requires ClockNeverGoesBack(calls + [Verify("", "", now)])
    ensures Agrees(cfg, StateAfter(cfg, calls), LogAfter(cfg, calls), now)
  {
    hide Agrees;
    ClockSplit(calls, Verify("", "", now));
    assert now in ReadingsOf(Verify("", "", now));
    StoreAgreesWithLog(cfg, calls, now);
  }

  // ---------------------------------------------------------------------
  // Which binding a token has, for every clock
  // ---------------------------------------------------------------------

  predicate IsAcceptedBind(cfg: Config, calls: seq<Call>, i: nat)
    requires i < |calls|
  {
    calls[i].Bind? && AnswerTo(cfg, calls[..i], calls[i]) == Bound
  }

  function ExpiryOf(cfg: Config, bind: Call): int
    requires bind.Bind?
  {
    bind.insertAt + cfg.ttl
  }

  /** Call `j` ends the binding made by `bind`: it replaces, revokes or outlives it. */
  predicate Ends(cfg: Config, calls: seq<Call>, bind: Call, j: nat)
    requires bind.Bind? && j < |calls|
  {
    match calls[j]
    case Bind(token, _, evictAt, _) =>
      evictAt >= ExpiryOf(cfg, bind) || (token == bind.token && IsAcceptedBind(cfg, calls, j))
    case Verify(_, _, now) => now >= ExpiryOf(cfg, bind)
    case Revoke(token) => token == bind.token
  }

  /** Call `i` bound `token`, and nothing since has ended that binding. */
  ghost predicate Holds(cfg: Config, calls: seq<Call>, token: string, i: nat) {
    && i < |calls|
    && IsAcceptedBind(cfg, calls, i)
    && calls[i].token == token
    && forall j :: i < j < |calls| ==> !Ends(cfg, calls, calls[i], j)
  }

  lemma EndsInPrefix(cfg: Config, calls: seq<Call>, call: Call, bind: Call, j: nat)
    requires bind.Bind? && j < |calls|
    ensures Ends(cfg, calls + [call], bind, j) == Ends(cfg, calls, bind, j)
  {
    assert (calls + [call])[..j] == calls[..j];
  }

  lemma HoldsAppendOld(cfg: Config, calls: seq<Call>, call: Call, token: string, i: nat)
    requires i < |calls|
    ensures Holds(cfg, calls + [call], token, i) <==>
            Holds(cfg, calls, token, i) && !Ends(cfg, calls + [call], calls[i], |calls|)
  {
    var all := calls + [call];
    assert all[..i] == calls[..i];
    if calls[i].Bind? {
      forall j: nat | j < |calls| {
        EndsInPrefix(cfg, calls, call, calls[i], j);
      }
    }
    if Holds(cfg, all, token, i) {
      forall j | i < j < |calls|
        ensures !Ends(cfg, calls, calls[i], j)
      {
        assert !Ends(cfg, all, calls[i], j);
      }
    }
  }

  lemma HoldsAppendNew(cfg: Config, calls: seq<Call>, call: Call, token: string)
    ensures Holds(cfg, calls + [call], token, |calls|) <==>
            call.Bind? && call.token == token && AnswerTo(cfg, calls, call) == Bound
  {
    assert (calls + [call])[..|calls|] == calls;
  }

  lemma {:induction false} HeldIsStored(cfg: Config, calls: seq<Call>, token: string, i: nat)
    requires Holds(cfg, calls, token, i)
    ensures token in StateAfter(cfg, calls)
    ensures StateAfter(cfg, calls)[token] == Entry(calls[i].sessionId, ExpiryOf(cfg, calls[i]))
  {
    var init, call := calls[..|calls| - 1], calls[|calls| - 1];
    assert calls == init + [call];
    if i < |init| {
      HoldsAppendOld(cfg, init, call, token, i);
      HeldIsStored(cfg, init, token, i);
      assert init == (init + [call])[..|init|];
    } else {
      HoldsAppendNew(cfg, init, call, token);
    }
  }

  lemma {:induction false} StoredIsHeld(cfg: Config, calls: seq<Call>, token: string) returns (i: nat)
    requires token in StateAfter(cfg, calls)
    ensures Holds(cfg, calls, token, i)
  {
    var init, call := calls[..|calls| - 1], calls[|calls| - 1];
    assert calls == init + [call];
    if call.Bind? && call.token == token && AnswerTo(cfg, init, call) == Bound {
      HoldsAppendNew(cfg, init, call, token);
      i := |init|;
    } else {
      i := StoredIsHeld(cfg, init, token);
      HeldIsStored(cfg, init, token, i);
      HoldsAppendOld(cfg, init, call, token, i);
      assert init == calls[..|init|];
    }
  }

  /** With any clock at all, the map holds exactly the bindings nothing has ended. */
  lemma StateExactly(cfg: Config, calls: seq<Call>, token: string)
    ensures token in StateAfter(cfg, calls) <==> exists i: nat :: Holds(cfg, calls, token, i)
    ensures forall i: nat :: Holds(cfg, calls, token, i) ==>
                               token in StateAfter(cfg, calls) &&
                               StateAfter(cfg, calls)[token] == Entry(calls[i].sessionId, ExpiryOf(cfg, calls[i]))
  {
    forall i: nat | Holds(cfg, calls, token, i)
      ensures token in StateAfter(cfg, calls)
      ensures StateAfter(cfg, calls)[token] == Entry(calls[i].sessionId, ExpiryOf(cfg, calls[i]))
    {
      HeldIsStored(cfg, calls, token, i);
    }
    if token in StateAfter(cfg, calls) {
      var i := StoredIsHeld(cfg, calls, token);
    }
  }

  /** A verify succeeds exactly when a binding to that session holds and is not yet due. */
  lemma VerifyExactly(cfg: Config, calls: seq<Call>, token: string, sessionId: string, now: int)
    ensures AnswerTo(cfg, calls, Verify(token, sessionId, now)) == Verified(true) <==>
            exists i: nat :: Holds(cfg, calls, token, i) && calls[i].sessionId == sessionId
                             && now < ExpiryOf(cfg, calls[i])
  {
    StateExactly(cfg, calls, token);
  }

  function BindTokens(calls: seq<Call>): set<string> {
    set c | c in calls && c.Bind? :: c.token
  }

  /** Some binding of `token` holds and is not yet due. */
  ghost predicate IsHeld(cfg: Config, calls: seq<Call>, token: string, now: int) {
    exists i: nat :: Holds(cfg, calls, token, i) && now < ExpiryOf(cfg, calls[i])
  }

  ghost function HeldTokens(cfg: Config, calls: seq<Call>, now: int): set<string> {
    set token | token in BindTokens(calls) && IsHeld(cfg, calls, token, now)
  }

  lemma KeptIsHeld(cfg: Config, calls: seq<Call>, token: string, now: int)
    ensures token in Evict(StateAfter(cfg, calls), now) <==> IsHeld(cfg, calls, token, now)
  {
    StateExactly(cfg, calls, token);
  }

  lemma HeldIsBound(cfg: Config, calls: seq<Call>, token: string, now: int)
    requires IsHeld(cfg, calls, token, now)
    ensures token in BindTokens(calls)
  {
    var i: nat :| Holds(cfg, calls, token, i) && now < ExpiryOf(cfg, calls[i]);
    assert calls[i] in calls;
  }

  lemma EvictedIsHeld(cfg: Config, calls: seq<Call>, now: int)
    ensures Evict(StateAfter(cfg, calls), now).Keys == HeldTokens(cfg, calls, now)
    ensures |Evict(StateAfter(cfg, calls), now)| == |HeldTokens(cfg, calls, now)|
    ensures forall token :: token in HeldTokens(cfg, calls, now) <==> IsHeld(cfg, calls, token, now)
  {
    hide IsHeld;
    hide BindTokens;
    hide Evict;
    hide StateAfter;
    var kept := Evict(StateAfter(cfg, calls), now);
    forall token
      ensures token in kept <==> IsHeld(cfg, calls, token, now)
      ensures token in HeldTokens(cfg, calls, now) <==> IsHeld(cfg, calls, token, now)
    {
      KeptIsHeld(cfg, calls, token, now);
      if IsHeld(cfg, calls, token, now) {
        HeldIsBound(cfg, calls, token, now);
      }
    }
    assert |kept| == |kept.Keys|;
  }

  /**
    With any clock at all, a bind is refused exactly when there is a ceiling, at
    least that many tokens have a binding that holds and is not yet due at its first
    reading, and its own is not one of them.
   */
  lemma RefusedExactly(cfg: Config, calls: seq<Call>, bind: Call)
    requires bind.Bind?
    ensures AnswerTo(cfg, calls, bind) == AtCapacity(cfg.maxEntries) <==>
            && cfg.maxEntries != 0
            && |HeldTokens(cfg, calls, bind.evictAt)| >= cfg.maxEntries
            && !IsHeld(cfg, calls, bind.token, bind.evictAt)
  {
    hide IsHeld;
    hide HeldTokens;
    hide StateAfter;
    EvictedIsHeld(cfg, calls, bind.evictAt);
    KeptIsHeld(cfg, calls, bind.token, bind.evictAt);
  }

  /**
    The clock premise of `AnswersMatchLog` is needed: a reading that jumps ahead
    and back evicts a binding that the log still shows as live.
   */
  lemma ClockRollbackLosesBinding()
    ensures var cfg, calls, call := Config(10, 0),
              [Bind("s", "id", 0, 0), Verify("s", "id", 100)], Verify("s", "id", 5);
            && !ClockNeverGoesBack(calls + [call])
            && LogAnswer(cfg, LogAfter(cfg, calls), call) == Verified(true)
            && AnswerTo(cfg, calls, call) == Verified(false)
  {
    var cfg := Config(10, 0);
    var bind, far, call := Bind("s", "id", 0, 0), Verify("s", "id", 100), Verify("s", "id", 5);
    var calls := [bind, far];
    assert [bind] == [] + [bind] && calls == [bind] + [far];
    LogAfterAppend(cfg, [], bind);
    LogAfterAppend(cfg, [bind], far);
    StateAfterAppend(cfg, [], bind);
    StateAfterAppend(cfg, [bind], far);
    assert LogAfter(cfg, calls) == [Inserted("s", "id", 0)];
    assert (calls + [call])[..2] == calls && calls[..1] == [bind];
    assert Readings([bind]) == [0, 0];
    assert Readings(calls + [call]) == [0, 0, 100, 5];
    assert Readings(calls + [call])[2] > Readings(calls + [call])[3];
  }

  // ---------------------------------------------------------------------
  // Calls that add nothing are unobservable
  // ---------------------------------------------------------------------

  /** The run without the calls whose flag is off. */
  function Kept(calls: seq<Call>, keep: seq<bool>): seq<Call>
    requires |calls| == |keep|
  {
    if |calls| == 0 then [] else
    var n := |calls| - 1;
    Kept(calls[..n], keep[..n]) + if keep[n] then [calls[n]] else []
  }

  ghost predicate DropsOnlyVerifies(calls: seq<Call>, keep: seq<bool>) {
    |calls| == |keep| && forall i :: 0 <= i < |calls| && !keep[i] ==> calls[i].Verify?
  }

  /** Call `i` is a verify or a bind that is refused: it adds nothing to the log. */
  predicate IsIdle(cfg: Config, calls: seq<Call>, i: nat)
    requires i < |calls|
  {
    calls[i].Verify? || (calls[i].Bind? && AnswerTo(cfg, calls[..i], calls[i]) != Bound)
  }

  ghost predicate DropsOnlyIdle(cfg: Config, calls: seq<Call>, keep: seq<bool>) {
    |calls| == |keep| && forall i :: 0 <= i < |calls| && !keep[i] ==> IsIdle(cfg, calls, i)
  }

  lemma IdleInPrefix(cfg: Config, calls: seq<Call>, n: nat, i: nat)
    requires i < n <= |calls|
    ensures IsIdle(cfg, calls[..n], i) == IsIdle(cfg, calls, i)
  {
    assert calls[..n][..i] == calls[..i];
  }

  lemma {:induction false} KeptLog(cfg: Config, calls: seq<Call>, keep: seq<bool>)
    requires DropsOnlyIdle(cfg, calls, keep) && ClockNeverGoesBack(calls)
    ensures LogAfter(cfg, Kept(calls, keep)) == LogAfter(cfg, calls)
  {
    hide IsIdle;
    if |calls| > 0 {
      var n := |calls| - 1;
      var init, call := calls[..n], calls[n];
      assert calls == init + [call];
      ClockSplit(init, call);
      forall i | 0 <= i < n && !keep[i]
        ensures IsIdle(cfg, init, i)
      {
        IdleInPrefix(cfg, calls, n, i);
      }
      KeptLog(cfg, init, keep[..n]);
      if keep[n] {
        LogAfterAppend(cfg, Kept(init, keep[..n]), call);
      } else {
        IdleAddsNothing(cfg, init, call);
        assert Kept(calls, keep) == Kept(init, keep[..n]);
      }
    }
  }

  lemma IdleAddsNothing(cfg: Config, calls: seq<Call>, call: Call)
    requires ClockNeverGoesBack(calls + [call]) && IsIdle(cfg, calls + [call], |calls|)
    ensures LogAfter(cfg, calls + [call]) == LogAfter(cfg, calls)
  {
    assert (calls + [call])[..|calls|] == calls;
    AnswersMatchLog(cfg, calls, call);
    LogAfterAppend(cfg, calls, call);
  }

  lemma {:induction false} KeptReadings(calls: seq<Call>, keep: seq<bool>)
    requires |calls| == |keep| && ClockNeverGoesBack(calls)
    ensures ClockNeverGoesBack(Kept(calls, keep))
    ensures forall r :: r in Readings(Kept(calls, keep)) ==> r in Readings(calls)
  {
    if |calls| > 0 {
      var n := |calls| - 1;
      var init, call := calls[..n], calls[n];
      assert calls == init + [call];
      ClockSplit(init, call);
      KeptReadings(init, keep[..n]);
      var kept := Kept(init, keep[..n]);
      if keep[n] {
        ClockAppend(kept, call);
      } else {
        assert Kept(calls, keep) == kept;
      }
      assert forall r :: r in Readings(init) ==> r in Readings(calls);
    }
  }

  lemma ClockAppend(calls: seq<Call>, call: Call)
    requires ClockNeverGoesBack(calls)
    requires forall r, t :: r in Readings(calls) && t in ReadingsOf(call) ==> r <= t
    requires call.Bind? ==> call.evictAt <= call.insertAt
    ensures ClockNeverGoesBack(calls + [call])
    ensures Readings(calls + [call]) == Readings(calls) + ReadingsOf(call)
  {
    assert (calls + [call])[..|calls|] == calls;
    var before, now := Readings(calls), ReadingsOf(call);
    var all := before + now;
    forall i, j | 0 <= i < j < |all|
      ensures all[i] <= all[j]
    {
      if i < |before| && |before| <= j {
        assert before[i] in before && now[j - |before|] in now;
      }
    }
  }

  /**
    Deleting any verifies and any refused binds from a run leaves every later answer
    unchanged, although each of them may have evicted entries from the map.
   */
  lemma IdleCallsAreUnobservable(cfg: Config, calls: seq<Call>, keep: seq<bool>, call: Call)
    requires DropsOnlyIdle(cfg, calls, keep) && ClockNeverGoesBack(calls + [call])
    ensures AnswerTo(cfg, Kept(calls, keep), call) == AnswerTo(cfg, calls, call)
  {
    ClockSplit(calls, call);
    KeptReadings(calls, keep);
    ClockAppend(Kept(calls, keep), call);
    KeptLog(cfg, calls, keep);
    AnswersMatchLog(cfg, calls, call);
    AnswersMatchLog(cfg, Kept(calls, keep), call);
  }

  /** Verifies among them: no answer reveals whether a verify was made. */
  lemma VerifiesAreUnobservable(cfg: Config, calls: seq<Call>, keep: seq<bool>, call: Call)
    requires DropsOnlyVerifies(calls, keep) && ClockNeverGoesBack(calls + [call])
    ensures AnswerTo(cfg, Kept(calls, keep), call) == AnswerTo(cfg, calls, call)
  {
    assert DropsOnlyIdle(cfg, calls, keep);
    IdleCallsAreUnobservable(cfg, calls, keep, call);
  }

  // ---------------------------------------------------------------------
  // Capacity
  // ---------------------------------------------------------------------

  lemma EvictShrinks(entries: map<string, Entry>, now: int)
    ensures |Evict(entries, now)| <= |entries|
  {
    SubsetSize(Evict(entries, now).Keys, entries.Keys);
    assert |Evict(entries, now).Keys| == |Evict(entries, now)| && |entries.Keys| == |entries|;
  }

  lemma {:induction false} SubsetSize<T>(a: set<T>, b: set<T>)
    requires a <= b
    ensures |a| <= |b|
  {
    if a != {} {
      var x :| x in a;
      SubsetSize(a - {x}, b - {x});
    }
  }

  /** The ceiling holds in every reachable state, whatever the clock does. */
  lemma {:induction false} CapacityNeverExceeded(cfg: Config, calls: seq<Call>)
    requires cfg.maxEntries != 0
    ensures |StateAfter(cfg, calls)| <= cfg.maxEntries
  {
    if |calls| > 0 {
      var init, call := calls[..|calls| - 1], calls[|calls| - 1];
      CapacityNeverExceeded(cfg, init);
      var before, after := StateAfter(cfg, init), StateAfter(cfg, calls);
      match call
      case Bind(token, _, evictAt, _) =>
        EvictShrinks(before, evictAt);
      case Verify(_, _, now) =>
        EvictShrinks(before, now);
      case Revoke(token) =>
        SubsetSize(after.Keys, before.Keys);
        assert |after.Keys| == |after| && |before.Keys| == |before|;
    }
  }

  /** A refused bind loses no binding that is still live when it is made. */
  lemma RefusedBindDropsNothingLive(cfg: Config, calls: seq<Call>, bind: Call, s: string)
    requires bind.Bind? && AnswerTo(cfg, calls, bind) != Bound
    requires s in StateAfter(cfg, calls) && bind.evictAt < StateAfter(cfg, calls)[s].expiresAt
    ensures s in StateAfter(cfg, calls + [bind])
    ensures StateAfter(cfg, calls + [bind])[s] == StateAfter(cfg, calls)[s]
  {
    StateAfterAppend(cfg, calls, bind);
  }

  /**
    Recovery: after `calls`, let a further run `later` bind no more than
    `maxEntries` distinct tokens, each bind after everything accepted in `calls`
    has run out. Then none of those binds is refused, whatever else `later` does.
   */
  lemma CapacityRecovers(cfg: Config, calls: seq<Call>, later: seq<Call>, k: nat)
    requires cfg.maxEntries != 0 && |BindTokens(later)| <= cfg.maxEntries
    requires forall i: nat, j: nat {:trigger IsAcceptedBind(cfg, calls, i), later[j]} ::
               i < |calls| && j < |later| && IsAcceptedBind(cfg, calls, i) && later[j].Bind? ==>
                 ExpiryOf(cfg, calls[i]) <= later[j].evictAt
    requires k < |later| && later[k].Bind?
    ensures AnswerTo(cfg, calls + later[..k], later[k]) == Bound
  {
    var before, bind := calls + later[..k], later[k];
    var kept := Evict(StateAfter(cfg, before), bind.evictAt);
    assert bind in later;
    forall s | s in kept
      ensures s in BindTokens(later)
    {
      var i := StoredIsHeld(cfg, before, s);
      HeldIsStored(cfg, before, s, i);
      if i < |calls| {
        EarlierIsAccepted(cfg, calls, later[..k], s, i);
      }
      assert before[i] == later[i - |calls|];
    }
    FewTokensAreNotRefused(cfg, kept, BindTokens(later), bind.token);
  }

  lemma EarlierIsAccepted(cfg: Config, calls: seq<Call>, more: seq<Call>, token: string, i: nat)
    requires i < |calls| && Holds(cfg, calls + more, token, i)
    ensures IsAcceptedBind(cfg, calls, i) && (calls + more)[i] == calls[i]
  {
    assert (calls + more)[..i] == calls[..i];
  }

  lemma FewTokensAreNotRefused(cfg: Config, entries: map<string, Entry>, tokens: set<string>, token: string)
    requires |tokens| <= cfg.maxEntries && token in tokens
    requires forall s :: s in entries ==> s in tokens
    ensures !Refuses(cfg, entries, token)
  {
    if token !in entries {
      SubsetSize(entries.Keys, tokens - {token});
      assert |entries.Keys| == |entries|;
    }
  }
}
