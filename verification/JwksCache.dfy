/**
  The JWKS cache: one slot with a TTL in front of a fetch.

  A call checks the slot under a lock, fetches without it, stamps the parsed
  document with the current instant and stores it under the lock again. `Step`
  models these sections one by one, so that calls may interleave anywhere;
  `DiscoveryClient.Jwks` is one call that nothing interrupts. Fetched documents
  and clock readings are parameters.
 */
module JwksCache {
  import opened Wrappers

  /** A key; everything but its optional id is opaque here. */
  datatype Jwk = Jwk(kid: Option<string>, material: string)

  datatype JwksDoc = JwksDoc(keys: seq<Jwk>)

  datatype CachedJwks = CachedJwks(fetchedAt: int, byKid: map<string, Jwk>) {
    function Lookup(kid: string): Option<Jwk> {
      if kid in byKid then Some(byKid[kid]) else None
    }

    /** `Instant::elapsed` is never negative. */
    function Elapsed(now: int): nat {
      if now <= fetchedAt then 0 else now - fetchedAt
    }

    predicate IsFresh(ttl: nat, now: int) {
      Elapsed(now) < ttl
    }
  }

  /** `filter_map` then `collect`: keys without an id are left out, later keys win. */
  function ByKid(keys: seq<Jwk>): map<string, Jwk> {
    if |keys| == 0 then map[] else
    var earlier, key := ByKid(keys[..|keys| - 1]), keys[|keys| - 1];
    if key.kid.Some? then earlier[key.kid.value := key] else earlier
  }

  function Snapshot(doc: JwksDoc, now: int): CachedJwks {
    CachedJwks(now, ByKid(doc.keys))
  }

  /** Key `i` is the last one in the document with this id. */
  ghost predicate IsLastWithKid(keys: seq<Jwk>, kid: string, i: nat) {
    i < |keys| && keys[i].kid == Some(kid) && forall j :: i < j < |keys| ==> keys[j].kid != Some(kid)
  }

  /** A lookup finds exactly the last key of the fetched document that carries the id. */
  lemma {:induction false} LookupIsLastKey(doc: JwksDoc, now: int, kid: string)
    ensures forall i: nat :: IsLastWithKid(doc.keys, kid, i) ==> Snapshot(doc, now).Lookup(kid) == Some(doc.keys[i])
    ensures Snapshot(doc, now).Lookup(kid).Some? ==> exists i: nat :: IsLastWithKid(doc.keys, kid, i)
    decreases |doc.keys|
  {
    var keys := doc.keys;
    if |keys| > 0 {
      var n := |keys| - 1;
      var init := JwksDoc(keys[..n]);
      LookupIsLastKey(init, now, kid);
      forall i: nat | i < n
        ensures IsLastWithKid(keys, kid, i) <==> IsLastWithKid(init.keys, kid, i) && keys[n].kid != Some(kid)
      {
      }
      if keys[n].kid == Some(kid) {
        assert IsLastWithKid(keys, kid, n);
      } else if Snapshot(init, now).Lookup(kid).Some? {
        var i: nat :| IsLastWithKid(init.keys, kid, i);
        assert IsLastWithKid(keys, kid, i);
      }
    }
  }

  // ---------------------------------------------------------------------
  // Interleaved calls
  // ---------------------------------------------------------------------

  datatype Phase = Fetching(uri: string) | Storing(uri: string, snapshot: CachedJwks)

  datatype Client = Client(cache: Option<CachedJwks>, phases: map<nat, Phase>)

  const NEW_CLIENT: Client := Client(None, map[])

  /** One locked or unlocked section of the call numbered `call`. */
  datatype Action =
    | Check(call: nat, uri: string, now: int)
    | Fetched(call: nat, doc: JwksDoc, now: int)
    | FetchFailed(call: nat)
    | Store(call: nat)

  datatype Outcome = Returned(snapshot: CachedJwks) | Failed | Continues | NotEnabled

  function Step(ttl: nat, c: Client, action: Action): (Client, Outcome) {
    match action
    case Check(call, uri, now) =>
      if call in c.phases then (c, NotEnabled)
      else if c.cache.Some? && c.cache.value.IsFresh(ttl, now) then (c, Returned(c.cache.value))
      else (c.(phases := c.phases[call := Fetching(uri)]), Continues)
    case Fetched(call, doc, now) =>
      if call !in c.phases || !c.phases[call].Fetching? then (c, NotEnabled)
      else (c.(phases := c.phases[call := Storing(c.phases[call].uri, Snapshot(doc, now))]), Continues)
    case FetchFailed(call) =>
      if call !in c.phases || !c.phases[call].Fetching? then (c, NotEnabled)
      else (c.(phases := c.phases - {call}), Failed)
    case Store(call) =>
      if call !in c.phases || !c.phases[call].Storing? then (c, NotEnabled)
      else
        var snapshot := c.phases[call].snapshot;
        (Client(Some(snapshot), c.phases - {call}), Returned(snapshot))
  }

  function After(ttl: nat, actions: seq<Action>): Client {
    if |actions| == 0 then NEW_CLIENT
    else Step(ttl, After(ttl, actions[..|actions| - 1]), actions[|actions| - 1]).0
  }

  /** What action `i` of the run comes to. */
  function OutcomeAt(ttl: nat, actions: seq<Action>, i: nat): Outcome
    requires i < |actions|
  {
    Step(ttl, After(ttl, actions[..i]), actions[i]).1
  }

  // ---------------------------------------------------------------------
  // Where the slot's snapshot comes from
  // ---------------------------------------------------------------------

  lemma AfterNext(ttl: nat, actions: seq<Action>, n: nat)
    requires n < |actions|
    ensures After(ttl, actions[..n + 1]) == Step(ttl, After(ttl, actions[..n]), actions[n]).0
  {
    assert actions[..n + 1][..n] == actions[..n];
  }

  /** Action `c` missed the slot and opened the call, which has been in flight ever since. */
  ghost predicate Opens(ttl: nat, actions: seq<Action>, c: nat, n: nat, call: nat) {
    && c < n <= |actions| && actions[c].Check? && actions[c].call == call && OutcomeAt(ttl, actions, c) == Continues
    && forall m :: c < m <= n ==> InFlight(ttl, actions, m, call)
  }

  predicate InFlight(ttl: nat, actions: seq<Action>, n: nat, call: nat) {
    n <= |actions| && call in After(ttl, actions[..n]).phases
  }

  predicate IsAboutToStore(ttl: nat, actions: seq<Action>, n: nat, call: nat) {
    InFlight(ttl, actions, n, call) && After(ttl, actions[..n]).phases[call].Storing?
  }

  predicate FetchesAt(ttl: nat, actions: seq<Action>, f: nat) {
    f < |actions| && actions[f].Fetched? && OutcomeAt(ttl, actions, f) == Continues
  }

  /** Action `f` fetched what its call is about to store after `n` actions. */
  ghost predicate Carries(ttl: nat, actions: seq<Action>, f: nat, n: nat) {
    && f < n <= |actions| && FetchesAt(ttl, actions, f)
    && forall m :: f < m <= n ==> IsAboutToStore(ttl, actions, m, actions[f].call)
  }

  predicate StoresAt(ttl: nat, actions: seq<Action>, s: nat) {
    s < |actions| && actions[s].Store? && OutcomeAt(ttl, actions, s).Returned?
  }

  /** Action `s` stored what action `f` had fetched. */
  ghost predicate StoresFetch(ttl: nat, actions: seq<Action>, f: nat, s: nat) {
    StoresAt(ttl, actions, s) && Carries(ttl, actions, f, s) && actions[f].call == actions[s].call
  }

  /** Action `s` is the last of the first `n` that stored something. */
  ghost predicate IsLastStore(ttl: nat, actions: seq<Action>, s: nat, n: nat) {
    && s < n <= |actions| && StoresAt(ttl, actions, s)
    && forall k :: s < k < n ==> !StoresAt(ttl, actions, k)
  }

  function SnapshotOf(fetch: Action): CachedJwks
    requires fetch.Fetched?
  {
    Snapshot(fetch.doc, fetch.now)
  }

  /** One section, seen from one call. */
  lemma StepAtCall(ttl: nat, c: Client, action: Action, call: nat)
    ensures var (d, outcome) := Step(ttl, c, action);
            && (call in d.phases ==>
                  if call !in c.phases then
                    action.Check? && action.call == call && outcome == Continues
                    && d.phases[call] == Fetching(action.uri)
                  else d.phases[call].uri == c.phases[call].uri)
            && (call in d.phases && d.phases[call].Storing? ==>
                  if call in c.phases && c.phases[call].Storing? then d.phases[call] == c.phases[call]
                  else action.Fetched? && action.call == call && outcome == Continues
                       && d.phases[call].snapshot == SnapshotOf(action))
  {
  }

  /** One section, seen from the slot. */
  lemma StepAtSlot(ttl: nat, c: Client, action: Action)
    ensures var (d, outcome) := Step(ttl, c, action);
            if action.Store? && outcome.Returned? then
              && action.call in c.phases && c.phases[action.call].Storing?
              && d.cache == Some(c.phases[action.call].snapshot)
            else d.cache == c.cache
  {
  }

  lemma {:induction false} InFlightWasOpened(ttl: nat, actions: seq<Action>, n: nat, call: nat) returns (c: nat)
    requires InFlight(ttl, actions, n, call)
    ensures Opens(ttl, actions, c, n, call)
    ensures After(ttl, actions[..n]).phases[call].uri == actions[c].uri
    decreases n
  {
    hide Step;
    assert n > 0;
    AfterNext(ttl, actions, n - 1);
    StepAtCall(ttl, After(ttl, actions[..n - 1]), actions[n - 1], call);
    if InFlight(ttl, actions, n - 1, call) {
      c := InFlightWasOpened(ttl, actions, n - 1, call);
    } else {
      c := n - 1;
    }
  }

  lemma {:induction false} StoringWasFetched(ttl: nat, actions: seq<Action>, n: nat, call: nat) returns (f: nat)
    requires IsAboutToStore(ttl, actions, n, call)
    ensures Carries(ttl, actions, f, n) && actions[f].call == call
    ensures After(ttl, actions[..n]).phases[call].snapshot == SnapshotOf(actions[f])
    decreases n
  {
    hide Step;
    assert n > 0;
    AfterNext(ttl, actions, n - 1);
    StepAtCall(ttl, After(ttl, actions[..n - 1]), actions[n - 1], call);
    if IsAboutToStore(ttl, actions, n - 1, call) {
      f := StoringWasFetched(ttl, actions, n - 1, call);
    } else {
      f := n - 1;
    }
  }

  /** A call that is about to store does not fetch. */
  lemma CarryingDoesNotFetch(ttl: nat, actions: seq<Action>, f: nat, g: nat, n: nat)
    requires Carries(ttl, actions, f, n) && f < g < n && FetchesAt(ttl, actions, g)
    ensures actions[g].call != actions[f].call
  {
    assert IsAboutToStore(ttl, actions, g, actions[f].call);
  }

  lemma CarriedIsUnique(ttl: nat, actions: seq<Action>, f: nat, g: nat, n: nat)
    requires Carries(ttl, actions, f, n) && Carries(ttl, actions, g, n) && actions[f].call == actions[g].call
    ensures f == g
  {
    hide Step;
    if f < g {
      CarryingDoesNotFetch(ttl, actions, f, g, n);
    } else if g < f {
      CarryingDoesNotFetch(ttl, actions, g, f, n);
    }
  }

  lemma StoreHasFetch(ttl: nat, actions: seq<Action>, s: nat) returns (f: nat)
    requires StoresAt(ttl, actions, s)
    ensures StoresFetch(ttl, actions, f, s)
  {
    hide Step;
    StepAtSlot(ttl, After(ttl, actions[..s]), actions[s]);
    f := StoringWasFetched(ttl, actions, s, actions[s].call);
  }

  lemma {:induction false} SlotHasStore(ttl: nat, actions: seq<Action>, n: nat) returns (s: nat)
    requires n <= |actions| && After(ttl, actions[..n]).cache.Some?
    ensures IsLastStore(ttl, actions, s, n)
    decreases n
  {
    hide Step;
    assert n > 0;
    AfterNext(ttl, actions, n - 1);
    StepAtSlot(ttl, After(ttl, actions[..n - 1]), actions[n - 1]);
    if StoresAt(ttl, actions, n - 1) {
      s := n - 1;
    } else {
      s := SlotHasStore(ttl, actions, n - 1);
    }
  }

  lemma {:induction false} LastStoreIsInSlot(ttl: nat, actions: seq<Action>, f: nat, s: nat, n: nat)
    requires StoresFetch(ttl, actions, f, s) && IsLastStore(ttl, actions, s, n)
    ensures After(ttl, actions[..n]).cache == Some(SnapshotOf(actions[f]))
    decreases n
  {
    hide Step;
    AfterNext(ttl, actions, n - 1);
    StepAtSlot(ttl, After(ttl, actions[..n - 1]), actions[n - 1]);
    if s < n - 1 {
      assert !StoresAt(ttl, actions, n - 1);
      LastStoreIsInSlot(ttl, actions, f, s, n - 1);
    } else {
      var g := StoringWasFetched(ttl, actions, s, actions[s].call);
      CarriedIsUnique(ttl, actions, f, g, s);
    }
  }

  /**
    What the slot holds, under every interleaving: exactly the snapshot of the fetch
    that the last storing section stored, and nothing before the first one.
   */
  lemma SlotExactly(ttl: nat, actions: seq<Action>, n: nat)
    requires n <= |actions|
    ensures forall snapshot :: After(ttl, actions[..n]).cache == Some(snapshot) <==>
              exists f: nat, s: nat :: StoresFetch(ttl, actions, f, s) && IsLastStore(ttl, actions, s, n)
                                       && snapshot == SnapshotOf(actions[f])
  {
    hide Step;
    var cache := After(ttl, actions[..n]).cache;
    forall f: nat, s: nat | StoresFetch(ttl, actions, f, s) && IsLastStore(ttl, actions, s, n)
      ensures cache == Some(SnapshotOf(actions[f]))
    {
      LastStoreIsInSlot(ttl, actions, f, s, n);
    }
    if cache.Some? {
      var s := SlotHasStore(ttl, actions, n);
      var f := StoreHasFetch(ttl, actions, s);
    }
  }

  // ---------------------------------------------------------------------
  // Which URI a snapshot was fetched from
  // ---------------------------------------------------------------------

  /** Action `i` made `snapshot` out of a document fetched from `uri`. */
  ghost predicate IsFetchOf(ttl: nat, actions: seq<Action>, i: nat, uri: string, snapshot: CachedJwks) {
    && FetchesAt(ttl, actions, i) && snapshot == SnapshotOf(actions[i])
    && InFlight(ttl, actions, i, actions[i].call)
    && After(ttl, actions[..i]).phases[actions[i].call].uri == uri
  }

  /** The call opened by action `c` fetched and stored with the URI it was asked for. */
  lemma {:induction false} OpenedFor(ttl: nat, actions: seq<Action>, c: nat, n: nat, call: nat)
    requires Opens(ttl, actions, c, n, call)
    ensures InFlight(ttl, actions, n, call) && After(ttl, actions[..n]).phases[call].uri == actions[c].uri
    decreases n
  {
    hide Step;
    AfterNext(ttl, actions, n - 1);
    StepAtCall(ttl, After(ttl, actions[..n - 1]), actions[n - 1], call);
    OpenFromOutside(ttl, actions, c);
    if c < n - 1 {
      OpenedFor(ttl, actions, c, n - 1, call);
    }
  }

  lemma OpenFromOutside(ttl: nat, actions: seq<Action>, c: nat)
    requires c < |actions| && actions[c].Check? && OutcomeAt(ttl, actions, c) == Continues
    ensures !InFlight(ttl, actions, c, actions[c].call)
  {
  }

  lemma FetchIsInFlight(ttl: nat, actions: seq<Action>, f: nat)
    requires FetchesAt(ttl, actions, f)
    ensures InFlight(ttl, actions, f, actions[f].call)
  {
  }

  /** A call in flight has been in flight since the action that opened it, the fetch it carries included. */
  lemma OpenedBeforeFetch(ttl: nat, actions: seq<Action>, c: nat, f: nat, n: nat)
    requires Carries(ttl, actions, f, n) && Opens(ttl, actions, c, n, actions[f].call)
    ensures Opens(ttl, actions, c, f, actions[f].call)
  {
    hide Step;
    FetchIsInFlight(ttl, actions, f);
    OpenFromOutside(ttl, actions, c);
    assert f < c ==> IsAboutToStore(ttl, actions, c, actions[f].call);
  }

  /** What is stored is a fetch of the URI that the storing call was asked for. */
  lemma StoredFromOwnUri(ttl: nat, actions: seq<Action>, c: nat, f: nat, s: nat)
    requires StoresFetch(ttl, actions, f, s) && Opens(ttl, actions, c, s, actions[s].call)
    ensures IsFetchOf(ttl, actions, f, actions[c].uri, SnapshotOf(actions[f]))
  {
    hide Step;
    OpenedBeforeFetch(ttl, actions, c, f, s);
    OpenedFor(ttl, actions, c, f, actions[f].call);
  }

  /** The call that stored last, of the first `n` actions, was asked for `uri`. */
  ghost predicate StoredLastFor(ttl: nat, actions: seq<Action>, n: nat, uri: string) {
    exists c: nat, s: nat ::
      IsLastStore(ttl, actions, s, n) && Opens(ttl, actions, c, s, actions[s].call) && actions[c].uri == uri
  }

  lemma StoreIsInFlight(ttl: nat, actions: seq<Action>, s: nat)
    requires StoresAt(ttl, actions, s)
    ensures InFlight(ttl, actions, s, actions[s].call)
  {
  }

  /** The fetch that a stored snapshot comes from asked for `uri` exactly if the storing call did. */
  lemma SlotUriExactly(ttl: nat, actions: seq<Action>, f: nat, s: nat, n: nat, uri: string)
    requires StoresFetch(ttl, actions, f, s) && IsLastStore(ttl, actions, s, n)
    ensures IsFetchOf(ttl, actions, f, uri, SnapshotOf(actions[f])) <==> StoredLastFor(ttl, actions, n, uri)
  {
    hide Step;
    StoreIsInFlight(ttl, actions, s);
    var c := InFlightWasOpened(ttl, actions, s, actions[s].call);
    StoredFromOwnUri(ttl, actions, c, f, s);
    forall c': nat, s': nat | IsLastStore(ttl, actions, s', n) && Opens(ttl, actions, c', s', actions[s'].call)
      ensures actions[c'].uri == actions[c].uri
    {
      assert s' == s;
      OpenedFor(ttl, actions, c, s, actions[s].call);
      OpenedFor(ttl, actions, c', s, actions[s].call);
    }
  }

  /**
    The slot is not keyed by URI. A check served from the slot gets the fetch `f`
    that was stored last, and that is a fetch of the URI it asks for exactly if the
    call that stored last had asked for the same one.
   */
  lemma HitServesOwnUriExactly(ttl: nat, actions: seq<Action>, i: nat) returns (f: nat, s: nat)
    requires i < |actions| && actions[i].Check? && OutcomeAt(ttl, actions, i).Returned?
    ensures StoresFetch(ttl, actions, f, s) && IsLastStore(ttl, actions, s, i)
    ensures OutcomeAt(ttl, actions, i).snapshot == SnapshotOf(actions[f])
    ensures IsFetchOf(ttl, actions, f, actions[i].uri, OutcomeAt(ttl, actions, i).snapshot) <==>
            StoredLastFor(ttl, actions, i, actions[i].uri)
  {
    s := SlotHasStore(ttl, actions, i);
    f := StoreHasFetch(ttl, actions, s);
    LastStoreIsInSlot(ttl, actions, f, s, i);
    SlotUriExactly(ttl, actions, f, s, i, actions[i].uri);
  }

  /** Some action before `n` fetched `snapshot`, from `uri`. */
  ghost predicate CameFromFetch(ttl: nat, actions: seq<Action>, n: nat, uri: string, snapshot: CachedJwks) {
    exists f: nat :: f < n && IsFetchOf(ttl, actions, f, uri, snapshot)
  }

  lemma StoredCameFromFetch(ttl: nat, actions: seq<Action>, s: nat) returns (f: nat, c: nat)
    requires StoresAt(ttl, actions, s)
    ensures StoresFetch(ttl, actions, f, s) && Opens(ttl, actions, c, s, actions[s].call)
    ensures CameFromFetch(ttl, actions, s, actions[c].uri, SnapshotOf(actions[f]))
  {
    hide Step;
    f := StoreHasFetch(ttl, actions, s);
    StoreIsInFlight(ttl, actions, s);
    c := InFlightWasOpened(ttl, actions, s, actions[s].call);
    StoredFromOwnUri(ttl, actions, c, f, s);
  }

  /** The slot's snapshot was fetched, from the URI that the call that stored last had asked for. */
  lemma SlotCameFromFetch(ttl: nat, actions: seq<Action>, n: nat) returns (uri: string)
    requires n <= |actions| && After(ttl, actions[..n]).cache.Some?
    ensures StoredLastFor(ttl, actions, n, uri) && IsAskedFor(actions, uri)
    ensures CameFromFetch(ttl, actions, n, uri, After(ttl, actions[..n]).cache.value)
  {
    hide Step;
    var s := SlotHasStore(ttl, actions, n);
    var f, c := StoredCameFromFetch(ttl, actions, s);
    LastStoreIsInSlot(ttl, actions, f, s, n);
    uri := actions[c].uri;
  }

  /** A call about to store holds what it fetched itself; the slot holds what some call fetched. */
  lemma Provenance(ttl: nat, actions: seq<Action>, n: nat)
    requires n <= |actions|
    ensures var c := After(ttl, actions[..n]);
            && (c.cache.Some? ==> exists uri :: CameFromFetch(ttl, actions, n, uri, c.cache.value))
            && (forall call :: call in c.phases && c.phases[call].Storing? ==>
                  exists f: nat :: && Carries(ttl, actions, f, n) && actions[f].call == call
                                   && IsFetchOf(ttl, actions, f, c.phases[call].uri, c.phases[call].snapshot))
  {
    hide Step;
    var client := After(ttl, actions[..n]);
    if client.cache.Some? {
      var uri := SlotCameFromFetch(ttl, actions, n);
    }
    forall call | call in client.phases && client.phases[call].Storing?
      ensures exists f: nat :: && Carries(ttl, actions, f, n) && actions[f].call == call
                               && IsFetchOf(ttl, actions, f, client.phases[call].uri, client.phases[call].snapshot)
    {
      var f := StoringWasFetched(ttl, actions, n, call);
      var c := InFlightWasOpened(ttl, actions, n, call);
      OpenedBeforeFetch(ttl, actions, c, f, n);
      OpenedFor(ttl, actions, c, f, call);
    }
  }

  /** A section that returns a snapshot has found it in the slot or has just stored it there. */
  lemma StepReturns(ttl: nat, c: Client, action: Action)
    requires Step(ttl, c, action).1.Returned?
    ensures var (d, outcome) := Step(ttl, c, action);
            || (action.Check? && c.cache == d.cache == Some(outcome.snapshot)
                && outcome.snapshot.IsFresh(ttl, action.now))
            || (action.Store? && d.cache == Some(outcome.snapshot))
  {
  }

  /**
    Under every interleaving, a returned snapshot was made from a fetched document,
    and either was younger than the TTL when the slot was checked, or was fetched by
    the very call that returns it, from the URI that call was asked for.
   */
  lemma ReturnedIsFreshOrOwn(ttl: nat, actions: seq<Action>, i: nat)
    requires i < |actions| && OutcomeAt(ttl, actions, i).Returned?
    ensures var snapshot := OutcomeAt(ttl, actions, i).snapshot;
            || (actions[i].Check? && snapshot.IsFresh(ttl, actions[i].now)
                && exists uri :: CameFromFetch(ttl, actions, i, uri, snapshot))
            || (actions[i].Store? && exists f: nat, c: nat ::
                  && StoresFetch(ttl, actions, f, i) && Opens(ttl, actions, c, i, actions[i].call)
                  && IsFetchOf(ttl, actions, f, actions[c].uri, snapshot))
  {
    hide Step;
    AfterNext(ttl, actions, i);
    StepReturns(ttl, After(ttl, actions[..i]), actions[i]);
    if actions[i].Store? {
      var f, c := StoredCameFromFetch(ttl, actions, i);
      StoredFromOwnUri(ttl, actions, c, f, i);
      LastStoreIsInSlot(ttl, actions, f, i, i + 1);
    } else {
      var uri := SlotCameFromFetch(ttl, actions, i);
    }
  }

  ghost predicate IsAskedFor(actions: seq<Action>, uri: string) {
    exists i :: 0 <= i < |actions| && actions[i].Check? && actions[i].uri == uri
  }

  ghost predicate OnlyAsksFor(actions: seq<Action>, uri: string) {
    forall other :: IsAskedFor(actions, other) ==> other == uri
  }

  /** A client used with one URI only ever returns, and only ever holds, documents fetched from it. */
  lemma OneUriIsServed(ttl: nat, actions: seq<Action>, uri: string, i: nat)
    requires OnlyAsksFor(actions, uri) && i < |actions|
    ensures OutcomeAt(ttl, actions, i).Returned? ==>
              CameFromFetch(ttl, actions, i, uri, OutcomeAt(ttl, actions, i).snapshot)
    ensures After(ttl, actions[..i]).cache.Some? ==>
              CameFromFetch(ttl, actions, i, uri, After(ttl, actions[..i]).cache.value)
  {
    hide Step;
    var here := After(ttl, actions[..i]);
    if here.cache.Some? {
      var other := SlotCameFromFetch(ttl, actions, i);
    }
    if OutcomeAt(ttl, actions, i).Returned? {
      StepReturns(ttl, here, actions[i]);
      if actions[i].Store? {
        AfterNext(ttl, actions, i);
        var f, c := StoredCameFromFetch(ttl, actions, i);
        LastStoreIsInSlot(ttl, actions, f, i, i + 1);
        assert IsAskedFor(actions, actions[c].uri);
      }
    }
  }

  // ---------------------------------------------------------------------
  // When the slot goes back
  // ---------------------------------------------------------------------

  /** Action `n` replaces the slot's snapshot by one that was stamped earlier. */
  predicate GoesBackAt(ttl: nat, actions: seq<Action>, n: nat)
    requires n < |actions|
  {
    var before, after := After(ttl, actions[..n]).cache, After(ttl, actions[..n + 1]).cache;
    before.Some? && after.Some? && after.value.fetchedAt < before.value.fetchedAt
  }

  ghost predicate NeverGoesBack(ttl: nat, actions: seq<Action>) {
    forall n :: 0 <= n < |actions| ==> !GoesBackAt(ttl, actions, n)
  }

  /** Fetch `g`, stored at `t`, was stamped after fetch `f`, which is stored later, at `s`. */
  ghost predicate Overtakes(ttl: nat, actions: seq<Action>, g: nat, t: nat, f: nat, s: nat) {
    && StoresFetch(ttl, actions, g, t) && StoresFetch(ttl, actions, f, s)
    && t < s && actions[f].now < actions[g].now
  }

  /**
    Exactly which action takes the slot back: one that stores its own call's fetch
    over another that was stamped later.
   */
  lemma GoesBackExactly(ttl: nat, actions: seq<Action>, s: nat)
    requires s < |actions|
    ensures GoesBackAt(ttl, actions, s) <==>
            exists f: nat, g: nat, t: nat :: IsLastStore(ttl, actions, t, s) && Overtakes(ttl, actions, g, t, f, s)
  {
    hide Step;
    AfterNext(ttl, actions, s);
    StepAtSlot(ttl, After(ttl, actions[..s]), actions[s]);
    if StoresAt(ttl, actions, s) {
      forall f: nat | StoresFetch(ttl, actions, f, s)
        ensures After(ttl, actions[..s + 1]).cache == Some(SnapshotOf(actions[f]))
      {
        LastStoreIsInSlot(ttl, actions, f, s, s + 1);
      }
      forall g: nat, t: nat | IsLastStore(ttl, actions, t, s) && StoresFetch(ttl, actions, g, t)
        ensures After(ttl, actions[..s]).cache == Some(SnapshotOf(actions[g]))
      {
        LastStoreIsInSlot(ttl, actions, g, t, s);
      }
      if After(ttl, actions[..s]).cache.Some? {
        var f := StoreHasFetch(ttl, actions, s);
        var t := SlotHasStore(ttl, actions, s);
        var g := StoreHasFetch(ttl, actions, t);
        assert GoesBackAt(ttl, actions, s) <==> Overtakes(ttl, actions, g, t, f, s);
      }
    }
  }

  /** From a store on, a slot that never goes back holds nothing stamped earlier. */
  lemma {:induction false} StampsRise(ttl: nat, actions: seq<Action>, g: nat, t: nat, n: nat)
    requires NeverGoesBack(ttl, actions) && StoresFetch(ttl, actions, g, t) && t < n <= |actions|
    ensures After(ttl, actions[..n]).cache.Some?
    ensures actions[g].now <= After(ttl, actions[..n]).cache.value.fetchedAt
    decreases n
  {
    hide Step;
    if t == n - 1 {
      LastStoreIsInSlot(ttl, actions, g, t, n);
    } else {
      StampsRise(ttl, actions, g, t, n - 1);
      AfterNext(ttl, actions, n - 1);
      StepAtSlot(ttl, After(ttl, actions[..n - 1]), actions[n - 1]);
      assert !GoesBackAt(ttl, actions, n - 1);
    }
  }

  /** Over a whole run the slot never goes back if and only if no fetch overtakes another. */
  lemma NeverGoesBackExactly(ttl: nat, actions: seq<Action>)
    ensures NeverGoesBack(ttl, actions) <==>
            forall g: nat, t: nat, f: nat, s: nat :: !Overtakes(ttl, actions, g, t, f, s)
  {
    hide Step;
    forall n: nat | n < |actions| {
      GoesBackExactly(ttl, actions, n);
    }
    if NeverGoesBack(ttl, actions) {
      forall g: nat, t: nat, f: nat, s: nat
        ensures !Overtakes(ttl, actions, g, t, f, s)
      {
        if Overtakes(ttl, actions, g, t, f, s) {
          StampsRise(ttl, actions, g, t, s + 1);
          LastStoreIsInSlot(ttl, actions, f, s, s + 1);
        }
      }
    }
  }

  /** Later fetches of the run are not stamped earlier: the clock of `Instant` does not go back. */
  ghost predicate StampsInOrder(ttl: nat, actions: seq<Action>) {
    forall f: nat, g: nat :: f < g && FetchesAt(ttl, actions, f) && FetchesAt(ttl, actions, g) ==>
                               actions[f].now <= actions[g].now
  }

  /** No two calls are in flight at once. */
  ghost predicate CallsDoNotOverlap(ttl: nat, actions: seq<Action>) {
    forall n, a, b :: InFlight(ttl, actions, n, a) && InFlight(ttl, actions, n, b) ==> a == b
  }

  /** With stamps in order, an overtaken fetch was made first, and its call was still in flight at the other. */
  lemma OvertakingOverlaps(ttl: nat, actions: seq<Action>, g: nat, t: nat, f: nat, s: nat)
    requires StampsInOrder(ttl, actions) && Overtakes(ttl, actions, g, t, f, s)
    ensures f < g && actions[f].call != actions[g].call
    ensures InFlight(ttl, actions, g, actions[f].call) && InFlight(ttl, actions, g, actions[g].call)
  {
    hide Step;
    CarryingDoesNotFetch(ttl, actions, f, g, s);
    FetchIsInFlight(ttl, actions, g);
    assert IsAboutToStore(ttl, actions, g, actions[f].call);
  }

  /** Calls that do not overlap never take the slot back. */
  lemma SerialCallsNeverGoBack(ttl: nat, actions: seq<Action>)
    requires StampsInOrder(ttl, actions) && CallsDoNotOverlap(ttl, actions)
    ensures NeverGoesBack(ttl, actions)
  {
    hide Step;
    forall g: nat, t: nat, f: nat, s: nat
      ensures !Overtakes(ttl, actions, g, t, f, s)
    {
      if Overtakes(ttl, actions, g, t, f, s) {
        OvertakingOverlaps(ttl, actions, g, t, f, s);
      }
    }
    NeverGoesBackExactly(ttl, actions);
  }

  lemma AfterAppend(ttl: nat, actions: seq<Action>, action: Action)
    ensures After(ttl, actions + [action]) == Step(ttl, After(ttl, actions), action).0
  {
    assert (actions + [action])[..|actions|] == actions;
  }

  /** The slot is not keyed by URI: a second URI can be answered with the first one's keys. */
  lemma SecondUriGetsFirstKeys(doc: JwksDoc)
    ensures var run := [Check(0, "a", 0), Fetched(0, doc, 0), Store(0), Check(1, "b", 5)];
            OutcomeAt(600, run, 3) == Returned(Snapshot(doc, 0))
  {
    var run := [Check(0, "a", 0), Fetched(0, doc, 0), Store(0), Check(1, "b", 5)];
    AfterAppend(600, [], run[0]);
    AfterAppend(600, [run[0]], run[1]);
    AfterAppend(600, [run[0], run[1]], run[2]);
    assert [] + [run[0]] == [run[0]] && [run[0]] + [run[1]] == [run[0], run[1]];
    assert run[..3] == [run[0], run[1]] + [run[2]];
  }

  /** Overlapping calls can put an older snapshot over a newer one. */
  lemma SlotCanGoBack(older: JwksDoc, newer: JwksDoc)
    ensures var run := [Check(0, "a", 0), Check(1, "a", 0), Fetched(0, older, 1), Fetched(1, newer, 2),
                        Store(1), Store(0)];
            && After(600, run[..5]).cache == Some(Snapshot(newer, 2))
            && After(600, run).cache == Some(Snapshot(older, 1))
  {
    var a, b, c, d, e, f :=
      Check(0, "a", 0), Check(1, "a", 0), Fetched(0, older, 1), Fetched(1, newer, 2), Store(1), Store(0);
    AfterAppend(600, [], a);
    AfterAppend(600, [a], b);
    AfterAppend(600, [a, b], c);
    AfterAppend(600, [a, b, c], d);
    AfterAppend(600, [a, b, c, d], e);
    AfterAppend(600, [a, b, c, d, e], f);
    assert [] + [a] == [a] && [a] + [b] == [a, b] && [a, b] + [c] == [a, b, c];
    assert [a, b, c] + [d] == [a, b, c, d] && [a, b, c, d] + [e] == [a, b, c, d, e];
    assert [a, b, c, d, e, f] == [a, b, c, d, e] + [f] && [a, b, c, d, e, f][..5] == [a, b, c, d, e];
  }

  // ---------------------------------------------------------------------
  // Calls one after the other
  // ---------------------------------------------------------------------

  /** A whole call: when it checks the slot, what a fetch would give it, and when. */
  datatype Call = Call(now: int, response: Option<JwksDoc>, stampedAt: int)

  predicate Hits(ttl: nat, cache: Option<CachedJwks>, now: int) {
    cache.Some? && cache.value.IsFresh(ttl, now)
  }

  function Answer(ttl: nat, cache: Option<CachedJwks>, call: Call): Option<CachedJwks> {
    if Hits(ttl, cache, call.now) then cache
    else if call.response.Some? then Some(Snapshot(call.response.value, call.stampedAt))
    else None
  }

  /** A failed fetch leaves the slot as it was. */
  function CacheAfterCall(ttl: nat, cache: Option<CachedJwks>, call: Call): Option<CachedJwks> {
    if Answer(ttl, cache, call).None? then cache else Answer(ttl, cache, call)
  }

  function CacheAfter(ttl: nat, calls: seq<Call>): Option<CachedJwks> {
    if |calls| == 0 then None
    else CacheAfterCall(ttl, CacheAfter(ttl, calls[..|calls| - 1]), calls[|calls| - 1])
  }

  /** The instants at which the run fetched successfully. */
  function FetchTimes(ttl: nat, calls: seq<Call>): seq<int> {
    if |calls| == 0 then [] else
    var init, call := calls[..|calls| - 1], calls[|calls| - 1];
    if !Hits(ttl, CacheAfter(ttl, init), call.now) && call.response.Some?
    then FetchTimes(ttl, init) + [call.stampedAt]
    else FetchTimes(ttl, init)
  }

  class DiscoveryClient {
    const ttl: nat
    var cache: Option<CachedJwks>
    ghost var calls: seq<Call>

    ghost predicate Valid()
      reads this
    {
      cache == CacheAfter(ttl, calls)
    }

    constructor (ttl: nat)
      ensures Valid() && calls == [] && this.ttl == ttl
    {
      this.ttl := ttl;
      cache := None;
      calls := [];
    }

    /** `None` stands for a failed fetch. */
    method Jwks(now: int, response: Option<JwksDoc>, stampedAt: int) returns (answer: Option<CachedJwks>)
      requires Valid()
      modifies this
      ensures Valid() && calls == old(calls) + [Call(now, response, stampedAt)]
      ensures answer == Answer(ttl, CacheAfter(ttl, old(calls)), Call(now, response, stampedAt))
    {
      assert (calls + [Call(now, response, stampedAt)])[..|calls|] == calls;
      calls := calls + [Call(now, response, stampedAt)];
      if cache.Some? && cache.value.IsFresh(ttl, now) {
        return cache;
      }
      if response.None? {
        return None;
      }
      var cached := CachedJwks(stampedAt, ByKid(response.value.keys));
      cache := Some(cached);
      answer := Some(cached);
    }
  }

  /** A call that nothing interrupts is its sections taken in order, whatever other calls are in flight. */
  lemma CallIsItsSections(
    ttl: nat, cache: Option<CachedJwks>, phases: map<nat, Phase>, id: nat, uri: string, call: Call)
    requires id !in phases
    ensures var c0, done := Client(cache, phases), Client(CacheAfterCall(ttl, cache, call), phases);
            var (c1, checked) := Step(ttl, c0, Check(id, uri, call.now));
            if checked.Returned? then
              Answer(ttl, cache, call) == Some(checked.snapshot) && c1 == done
            else if call.response.None? then
              var (c2, failed) := Step(ttl, c1, FetchFailed(id));
              failed == Failed && Answer(ttl, cache, call) == None && c2 == done
            else
              var (c2, fetched) := Step(ttl, c1, Fetched(id, call.response.value, call.stampedAt));
              var (c3, stored) := Step(ttl, c2, Store(id));
              stored.Returned? && Answer(ttl, cache, call) == Some(stored.snapshot) && c3 == done
  {
    assert phases[id := Fetching(uri)] - {id} == phases;
    if call.response.Some? {
      var storing := Storing(uri, Snapshot(call.response.value, call.stampedAt));
      assert phases[id := Fetching(uri)][id := storing] - {id} == phases;
    }
  }

  /** In every interleaving a check of a new call is served exactly while the slot's TTL lasts. */
  lemma CheckHitsExactly(ttl: nat, actions: seq<Action>, i: nat)
    requires i < |actions| && actions[i].Check? && !InFlight(ttl, actions, i, actions[i].call)
    ensures var cache := After(ttl, actions[..i]).cache;
            && (OutcomeAt(ttl, actions, i).Returned? <==>
                  cache.Some? && ttl > 0 && actions[i].now < cache.value.fetchedAt + ttl)
            && (OutcomeAt(ttl, actions, i).Returned? ==> cache == Some(OutcomeAt(ttl, actions, i).snapshot))
            && (!OutcomeAt(ttl, actions, i).Returned? ==> InFlight(ttl, actions, i + 1, actions[i].call))
  {
    AfterNext(ttl, actions, i);
  }

  /** Instants never go back, within a call and from each call to the next. */
  ghost predicate InOrder(calls: seq<Call>) {
    && (forall i :: 0 <= i < |calls| ==> calls[i].now <= calls[i].stampedAt)
    && (forall i, j :: 0 <= i < j < |calls| ==> calls[i].stampedAt <= calls[j].now)
  }

  /** Every two fetches are apart by a TTL for each step between them. */
  ghost predicate TtlApart(ttl: nat, times: seq<int>) {
    forall i, j :: 0 <= i < j < |times| ==> times[j] - times[i] >= (j - i) * ttl
  }

  lemma {:induction false} SlotHoldsLastFetch(ttl: nat, calls: seq<Call>)
    requires InOrder(calls)
    ensures var times := FetchTimes(ttl, calls);
            && (CacheAfter(ttl, calls).None? <==> |times| == 0)
            && (|times| > 0 ==> CacheAfter(ttl, calls).value.fetchedAt == times[|times| - 1])
            && (|times| > 0 ==> times[|times| - 1] <= calls[|calls| - 1].stampedAt)
  {
    if |calls| > 0 {
      SlotHoldsLastFetch(ttl, calls[..|calls| - 1]);
    }
  }

  lemma TtlApartAppend(ttl: nat, times: seq<int>, t: int)
    requires TtlApart(ttl, times) && (|times| > 0 ==> t - times[|times| - 1] >= ttl)
    ensures TtlApart(ttl, times + [t])
  {
    var n := |times|;
    forall i | 0 <= i < n
      ensures t - times[i] >= (n - i) * ttl
    {
      assert (n - i) * ttl == (n - 1 - i) * ttl + ttl;
      if i == n - 1 {
        assert (n - 1 - i) * ttl == 0;
      }
    }
  }

  /**
    The fetch bound: calls that do not overlap fetch at most once per TTL, so k
    successful fetches span at least (k - 1) * ttl.
   */
  lemma {:induction false} FetchesAreTtlApart(ttl: nat, calls: seq<Call>)
    requires InOrder(calls)
    ensures TtlApart(ttl, FetchTimes(ttl, calls))
  {
    if |calls| > 0 {
      var init, call := calls[..|calls| - 1], calls[|calls| - 1];
      FetchesAreTtlApart(ttl, init);
      SlotHoldsLastFetch(ttl, init);
      if !Hits(ttl, CacheAfter(ttl, init), call.now) && call.response.Some? {
        TtlApartAppend(ttl, FetchTimes(ttl, init), call.stampedAt);
      }
    }
  }

  /** A call is served from the slot exactly when the last fetch is less than a TTL old. */
  lemma HitsExactlyWhileFresh(ttl: nat, calls: seq<Call>, call: Call)
    requires InOrder(calls + [call])
    ensures var times := FetchTimes(ttl, calls);
            Hits(ttl, CacheAfter(ttl, calls), call.now) <==>
            |times| > 0 && call.now - times[|times| - 1] < ttl
  {
    forall i | 0 <= i < |calls|
      ensures (calls + [call])[i] == calls[i]
    {
    }
    assert InOrder(calls) by {
      forall i, j | 0 <= i < j < |calls|
        ensures calls[i].stampedAt <= calls[j].now
      {
        assert (calls + [call])[i].stampedAt <= (calls + [call])[j].now;
      }
    }
    SlotHoldsLastFetch(ttl, calls);
    if |calls| > 0 {
      assert (calls + [call])[|calls| - 1].stampedAt <= (calls + [call])[|calls|].now;
    }
  }
}
