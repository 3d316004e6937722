/**
  The WebAuthn verifier under concurrency: the sections of any number of calls,
  interleaved in any order, and what holds over whole runs of them.
 */
module WebAuthnRuns {
  import opened Utf8
  import opened WebAuthn
  import opened Wrappers

  // ---------------------------------------------------------------------
  // Steps and runs
  // ---------------------------------------------------------------------

  /** Where a call in flight stands, with the locals it still needs. */
  datatype Phase =
    | ToScan(user: string, credential: Credential)
    | ToPush(user: string, credential: Credential)
    | ToAdvance(user: string, id: seq<byte>, signCount: u32)

  datatype Server = Server(challenges: Challenges, credentials: Credentials, phases: map<nat, Phase>)

  const EMPTY: Server := Server(map[], map[], map[])

  datatype Action =
    | Issue(user: string, operation: string, challenge: string, now: int)
    | BeginRegistration(
        call: nat, user: string, challenge: string, auth: AuthenticatorData, data: Option<ClientData>,
        id: seq<byte>, publicKey: seq<byte>, now: int, drop: bool)
    | Scan(call: nat)
    | Push(call: nat)
    | BeginAuthentication(
        call: nat, user: string, challenge: string, auth: AuthenticatorData, data: Option<ClientData>,
        id: seq<byte>, now: int, drop: bool)
    | Advance(call: nat)

  datatype Outcome =
    | ChallengeIssued
    | ChallengeAccepted
    | IdIsNew
    | Registered(user: string, credential: Credential)
    | CounterAccepted(user: string, id: seq<byte>, signCount: u32, signatureOk: bool)
    | Failed(error: Error)
    | NotEnabled

  /** The section that checks and consumes a challenge, entering `phase` on success. */
  function Begin(
    cfg: Config, s: Server, call: nat, failure: Option<Error>,
    key: string, challenge: string, now: int, drop: bool, phase: Phase): (Server, Outcome)
  {
    if call in s.phases then (s, NotEnabled)
    else if failure.Some? then (s, Failed(failure.value))
    else
      var t := s.(challenges := Consume(s.challenges, key, challenge, now, drop));
      if ChallengeMatches(s.challenges, key, challenge, now) then
        (t.(phases := t.phases[call := phase]), ChallengeAccepted)
      else (t, Failed(SessionStoreFailure))
  }

  ghost function Step(cfg: Config, s: Server, action: Action): (Server, Outcome) {
    match action
    case Issue(user, operation, challenge, now) =>
      (s.(challenges := s.challenges[Key(cfg, operation, user) := Issued(challenge, now + cfg.challengeTtl)]),
       ChallengeIssued)
    case BeginRegistration(call, user, challenge, auth, data, id, publicKey, now, drop) =>
      Begin(cfg, s, call, RegistrationError(cfg, challenge, auth, data), Key(cfg, CREATE, user),
            challenge, now, drop, ToScan(user, Credential(id, publicKey, auth.signCount)))
    case Scan(call) =>
      if call !in s.phases || !s.phases[call].ToScan? then (s, NotEnabled)
      else
        var phase := s.phases[call];
        if IsRegistered(s.credentials, phase.credential.id) then
          (s.(phases := s.phases - {call}), Failed(CredentialAlreadyExists))
        else (s.(phases := s.phases[call := ToPush(phase.user, phase.credential)]), IdIsNew)
    case Push(call) =>
      if call !in s.phases || !s.phases[call].ToPush? then (s, NotEnabled)
      else
        var phase := s.phases[call];
        (s.(credentials := Pushed(s.credentials, phase.user, phase.credential), phases := s.phases - {call}),
         Registered(phase.user, phase.credential))
    case BeginAuthentication(call, user, challenge, auth, data, id, now, drop) =>
      Begin(cfg, s, call, AuthenticationError(cfg, challenge, auth, data), Key(cfg, GET, user),
            challenge, now, drop, ToAdvance(user, id, auth.signCount))
    case Advance(call) =>
      if call !in s.phases || !s.phases[call].ToAdvance? then (s, NotEnabled)
      else
        var ToAdvance(user, id, signCount) := s.phases[call];
        var t := s.(phases := s.phases - {call});
        if !CounterAdvances(s.credentials, user, id, signCount) then (t, Failed(CredentialNotFound))
        else
          (t.(credentials := Advanced(s.credentials, user, id, signCount)),
           CounterAccepted(user, id, signCount, SignatureOk(s.credentials, user, id)))
  }

  ghost function After(cfg: Config, actions: seq<Action>): Server {
    if |actions| == 0 then EMPTY
    else Step(cfg, After(cfg, actions[..|actions| - 1]), actions[|actions| - 1]).0
  }

  ghost function OutcomeAt(cfg: Config, actions: seq<Action>, i: nat): Outcome
    requires i < |actions|
  {
    Step(cfg, After(cfg, actions[..i]), actions[i]).1
  }

  /** The state after `n` actions of the run, and one action on from there. */
  lemma AfterNext(cfg: Config, actions: seq<Action>, n: nat)
    requires n < |actions|
    ensures After(cfg, actions[..n + 1]) == Step(cfg, After(cfg, actions[..n]), actions[n]).0
  {
    assert actions[..n + 1][..n] == actions[..n];
  }

  /** A registration that nothing interrupts is its three sections taken in order. */
  lemma RegistrationIsItsSections(cfg: Config, s: Server, b: Action)
    requires b.BeginRegistration? && b.call !in s.phases
    ensures var (challenges, credentials, r) :=
              RegistrationAlone(cfg, s.challenges, s.credentials, b.user, b.challenge, b.auth, b.data,
                                b.id, b.publicKey, b.now, b.drop);
            var done := Server(challenges, credentials, s.phases);
            var (s1, o1) := Step(cfg, s, b);
            var (s2, o2) := Step(cfg, s1, Scan(b.call));
            var (s3, o3) := Step(cfg, s2, Push(b.call));
            if o1.Failed? then s1 == done && r == Err(o1.error)
            else if o2.Failed? then s2 == done && r == Err(o2.error)
            else o3.Registered? && s3 == done && r == Ok(o3.credential)
  {
    assert s.phases[b.call := ToScan(b.user, Credential(b.id, b.publicKey, b.auth.signCount))] - {b.call} == s.phases;
  }

  /** An authentication that nothing interrupts is its two sections taken in order. */
  lemma AuthenticationIsItsSections(cfg: Config, s: Server, b: Action)
    requires b.BeginAuthentication? && b.call !in s.phases
    ensures var (challenges, credentials, r) :=
              AuthenticationAlone(cfg, s.challenges, s.credentials, b.user, b.challenge, b.auth, b.data,
                                  b.id, b.now, b.drop);
            var done := Server(challenges, credentials, s.phases);
            var (s1, o1) := Step(cfg, s, b);
            var (s2, o2) := Step(cfg, s1, Advance(b.call));
            if o1.Failed? then s1 == done && r == Err(o1.error)
            else if o2.Failed? then s2 == done && r == Err(o2.error)
            else o2.CounterAccepted? && s2 == done && (r.Ok? <==> o2.signatureOk)
  {
    assert s.phases[b.call := ToAdvance(b.user, b.id, b.auth.signCount)] - {b.call} == s.phases;
  }

  // ---------------------------------------------------------------------
  // The table only grows
  // ---------------------------------------------------------------------

  /** Lists keep their entries in place; ids and keys stay, counters do not go down. */
  ghost predicate Extends(before: Credentials, after: Credentials) {
    forall user :: user in before ==>
      && user in after && |before[user]| <= |after[user]|
      && forall i :: 0 <= i < |before[user]| ==>
           && after[user][i].id == before[user][i].id
           && after[user][i].publicKey == before[user][i].publicKey
           && after[user][i].signCount >= before[user][i].signCount
  }

  lemma StepExtends(cfg: Config, s: Server, action: Action)
    ensures Extends(s.credentials, Step(cfg, s, action).0.credentials)
  {
  }

  /** In every run lists only grow, and ids and public keys never change. */
  lemma {:induction false} TableOnlyGrows(cfg: Config, actions: seq<Action>, m: nat, n: nat)
    requires m <= n <= |actions|
    ensures Extends(After(cfg, actions[..m]).credentials, After(cfg, actions[..n]).credentials)
    decreases n
  {
    hide Step;
    if m < n {
      TableOnlyGrows(cfg, actions, m, n - 1);
      AfterNext(cfg, actions, n - 1);
      StepExtends(cfg, After(cfg, actions[..n - 1]), actions[n - 1]);
    }
  }

  // ---------------------------------------------------------------------
  // Counters
  // ---------------------------------------------------------------------

  lemma FindIs(list: seq<Credential>, id: seq<byte>, i: nat)
    requires i < |list| && list[i].id == id && forall j :: 0 <= j < i ==> list[j].id != id
    ensures Find(list, id) == Some(i)
  {
    var r := Find(list, id);
    assert r.Some?;
  }

  /** The first match is stable, so a stored count never goes down or away. */
  lemma StoredCountKept(before: Credentials, after: Credentials, user: string, id: seq<byte>)
    requires Extends(before, after) && StoredCount(before, user, id).Some?
    ensures StoredCount(after, user, id).Some?
    ensures StoredCount(after, user, id).value >= StoredCount(before, user, id).value
  {
    var i := Find(before[user], id).value;
    FindIs(after[user], id, i);
  }

  lemma AdvancedCount(credentials: Credentials, user: string, id: seq<byte>, signCount: u32)
    requires CounterAdvances(credentials, user, id, signCount)
    ensures StoredCount(Advanced(credentials, user, id, signCount), user, id) == Some(signCount)
  {
    var list := credentials[user];
    var i := Find(list, id).value;
    FindIs(list[i := list[i].(signCount := signCount)], id, i);
  }

  /** Action `i` of the run accepted this counter for this user and id. */
  ghost predicate AcceptsAt(cfg: Config, actions: seq<Action>, i: nat, user: string, id: seq<byte>, n: u32) {
    i < |actions| && exists signatureOk :: OutcomeAt(cfg, actions, i) == CounterAccepted(user, id, n, signatureOk)
  }

  lemma StepAccepts(cfg: Config, s: Server, action: Action, o: Outcome)
    requires Step(cfg, s, action).1 == o && o.CounterAccepted?
    ensures CounterAdvances(s.credentials, o.user, o.id, o.signCount)
    ensures Step(cfg, s, action).0.credentials == Advanced(s.credentials, o.user, o.id, o.signCount)
  {
    hide CounterAdvances;
    hide Advanced;
  }

  lemma AcceptedCount(cfg: Config, actions: seq<Action>, i: nat, user: string, id: seq<byte>, n: u32)
    requires AcceptsAt(cfg, actions, i, user, id, n)
    ensures StoredCount(After(cfg, actions[..i]).credentials, user, id).Some?
    ensures n > StoredCount(After(cfg, actions[..i]).credentials, user, id).value
    ensures StoredCount(After(cfg, actions[..i + 1]).credentials, user, id) == Some(n)
  {
    hide Step;
    var s := After(cfg, actions[..i]);
    AfterNext(cfg, actions, i);
    StepAccepts(cfg, s, actions[i], OutcomeAt(cfg, actions, i));
    AdvancedCount(s.credentials, user, id, n);
  }

  // ---------------------------------------------------------------------
  // Refused authentications that move the counter
  // ---------------------------------------------------------------------

  /**
    Exactly when an authentication changes the table: when it gets as far as the
    signature. Exactly when it is refused all the same: when the key it then finds
    is empty.
   */
  lemma AuthenticationMovesCounterExactly(
    cfg: Config, challenges: Challenges, credentials: Credentials,
    user: string, challenge: string, auth: AuthenticatorData, data: Option<ClientData>,
    id: seq<byte>, now: int, drop: bool)
    ensures var (_, table, r) :=
              AuthenticationAlone(cfg, challenges, credentials, user, challenge, auth, data, id, now, drop);
            var reachesSignature :=
              && IsSound(cfg, auth, data, "webauthn.get", challenge)
              && ChallengeMatches(challenges, Key(cfg, GET, user), challenge, now)
              && CounterAdvances(credentials, user, id, auth.signCount);
            && (table != credentials <==> reachesSignature)
            && (r.Err? && table != credentials <==> reachesSignature && StoredKey(credentials, user, id) == Some([]))
  {
    AuthenticationErrorExactly(cfg, challenge, auth, data);
    if CounterAdvances(credentials, user, id, auth.signCount) {
      AdvancedCount(credentials, user, id, auth.signCount);
    }
  }

  /** A refused authentication that has moved the counter: the stored key is empty. */
  lemma RefusalCanMoveCounter()
    ensures var cfg := Config("rp", [7], ["https://rp"], 60);
            var auth := AuthenticatorData([7], true, false, 5);
            var data := Some(ClientData("webauthn.get", "c", "https://rp"));
            var challenges := map[Key(cfg, GET, "ann") := Issued("c", 60)];
            var before, after := map["ann" := [Credential([1], [], 0)]], map["ann" := [Credential([1], [], 5)]];
            AuthenticationAlone(cfg, challenges, before, "ann", "c", auth, data, [1], 0, false) ==
            (map[], after, Err(CredentialNotFound))
  {
    var cfg := Config("rp", [7], ["https://rp"], 60);
    var key := Key(cfg, GET, "ann");
    var list := [Credential([1], [], 0)];
    FindIs(list, [1], 0);
    assert list[0 := Credential([1], [], 5)] == [Credential([1], [], 5)];
    assert map[key := Issued("c", 60)] - {key} == map[];
    assert map["ann" := list]["ann" := [Credential([1], [], 5)]] == map["ann" := [Credential([1], [], 5)]];
  }

  /** The key found for a user and id is never replaced. */
  lemma StoredKeyKept(before: Credentials, after: Credentials, user: string, id: seq<byte>)
    requires Extends(before, after) && StoredKey(before, user, id).Some?
    ensures StoredKey(after, user, id) == StoredKey(before, user, id)
  {
    FindIs(after[user], id, Find(before[user], id).value);
  }

  lemma PushedKey(credentials: Credentials, user: string, credential: Credential)
    requires StoredCount(credentials, user, credential.id).None?
    ensures StoredKey(Pushed(credentials, user, credential), user, credential.id) == Some(credential.publicKey)
  {
    var list := ListOf(credentials, user);
    FindIs(list + [credential], credential.id, |list|);
  }

  lemma StepRegisters(cfg: Config, s: Server, action: Action, o: Outcome)
    requires Step(cfg, s, action).1 == o && o.Registered?
    ensures Step(cfg, s, action).0.credentials == Pushed(s.credentials, o.user, o.credential)
  {
    hide Pushed;
  }

  lemma AcceptedSignature(cfg: Config, s: Server, action: Action, o: Outcome)
    requires Step(cfg, s, action).1 == o && o.CounterAccepted?
    ensures o.signatureOk == SignatureOk(s.credentials, o.user, o.id)
    ensures StoredKey(s.credentials, o.user, o.id).Some?
  {
    hide Advanced;
  }

  /**
    In every interleaving an accepted counter is followed by an accepted signature
    exactly if the user's first registration of that id carried a key that is not
    empty: with an empty one, every counter that moves belongs to a refused call.
   */
  lemma SignatureOkExactly(cfg: Config, actions: seq<Action>, i: nat, user: string, id: seq<byte>, r: nat, m: u32)
    requires i < |actions| && CountsAt(cfg, actions, i, user, id)
    requires FirstRegistration(cfg, actions, r, user, id, m)
    ensures r < i
    ensures OutcomeAt(cfg, actions, i).signatureOk <==> OutcomeAt(cfg, actions, r).credential.publicKey != []
  {
    hide Step;
    var o := OutcomeAt(cfg, actions, i);
    AcceptedCount(cfg, actions, i, user, id, o.signCount);
    if i <= r {
      NoCountBefore(cfg, actions, i, user, id, r, m);
    } else {
      AcceptedSignature(cfg, After(cfg, actions[..i]), actions[i], o);
      AfterNext(cfg, actions, r);
      StepRegisters(cfg, After(cfg, actions[..r]), actions[r], OutcomeAt(cfg, actions, r));
      PushedKey(After(cfg, actions[..r]).credentials, user, OutcomeAt(cfg, actions, r).credential);
      TableOnlyGrows(cfg, actions, r + 1, i);
      StoredKeyKept(After(cfg, actions[..r + 1]).credentials, After(cfg, actions[..i]).credentials, user, id);
    }
  }

  // ---------------------------------------------------------------------
  // Accepted counters
  // ---------------------------------------------------------------------

  /** Accepted counters of one credential strictly increase, under every interleaving. */
  lemma AcceptedCountersIncrease(
    cfg: Config, actions: seq<Action>, i: nat, j: nat, user: string, id: seq<byte>, m: u32, n: u32)
    requires i < j && AcceptsAt(cfg, actions, i, user, id, m) && AcceptsAt(cfg, actions, j, user, id, n)
    ensures m < n
  {
    hide Step;
    AcceptedCount(cfg, actions, i, user, id, m);
    AcceptedCount(cfg, actions, j, user, id, n);
    TableOnlyGrows(cfg, actions, i + 1, j);
    StoredCountKept(After(cfg, actions[..i + 1]).credentials, After(cfg, actions[..j]).credentials, user, id);
  }

  /** Action `r` is the registration that gave the user this id first. */
  ghost predicate FirstRegistration(cfg: Config, actions: seq<Action>, r: nat, user: string, id: seq<byte>, m: u32) {
    && r < |actions|
    && OutcomeAt(cfg, actions, r).Registered?
    && OutcomeAt(cfg, actions, r).user == user
    && OutcomeAt(cfg, actions, r).credential.id == id
    && OutcomeAt(cfg, actions, r).credential.signCount == m
    && StoredCount(After(cfg, actions[..r]).credentials, user, id).None?
  }

  lemma PushedCount(credentials: Credentials, user: string, credential: Credential, other: string, id: seq<byte>)
    ensures StoredCount(Pushed(credentials, user, credential), other, id) ==
            if StoredCount(credentials, other, id).None? && other == user && credential.id == id
            then Some(credential.signCount)
            else StoredCount(credentials, other, id)
  {
    var list := ListOf(credentials, other);
    var r := Find(list, id);
    if other == user {
      if r.Some? {
        FindIs(list + [credential], id, r.value);
      } else if credential.id == id {
        FindIs(list + [credential], id, |list|);
      } else {
        var q := Find(list + [credential], id);
        assert forall j :: 0 <= j < |list| ==> (list + [credential])[j] == list[j];
      }
    }
  }

  /** A stored count goes back to a first registration, and has not fallen below it. */
  lemma {:induction false} CountHasRegistration(cfg: Config, actions: seq<Action>, n: nat, user: string, id: seq<byte>)
    returns (r: nat, m: u32)
    requires n <= |actions| && StoredCount(After(cfg, actions[..n]).credentials, user, id).Some?
    ensures r < n && FirstRegistration(cfg, actions, r, user, id, m)
    ensures m <= StoredCount(After(cfg, actions[..n]).credentials, user, id).value
    decreases n
  {
    assert n > 0;
    var s := After(cfg, actions[..n - 1]);
    AfterNext(cfg, actions, n - 1);
    if StoredCount(s.credentials, user, id).Some? {
      r, m := CountHasRegistration(cfg, actions, n - 1, user, id);
      StepExtends(cfg, s, actions[n - 1]);
      StoredCountKept(s.credentials, After(cfg, actions[..n]).credentials, user, id);
    } else {
      CountAppearsByRegistration(cfg, s, actions[n - 1], user, id);
      r, m := n - 1, OutcomeAt(cfg, actions, n - 1).credential.signCount;
    }
  }

  lemma CountAppearsByRegistration(cfg: Config, s: Server, action: Action, user: string, id: seq<byte>)
    requires StoredCount(s.credentials, user, id).None?
    requires StoredCount(Step(cfg, s, action).0.credentials, user, id).Some?
    ensures var (t, outcome) := Step(cfg, s, action);
            && outcome.Registered? && outcome.user == user && outcome.credential.id == id
            && StoredCount(t.credentials, user, id) == Some(outcome.credential.signCount)
  {
    var (t, outcome) := Step(cfg, s, action);
    if outcome.Registered? {
      PushedCount(s.credentials, outcome.user, outcome.credential, user, id);
    } else if outcome.CounterAccepted? {
      AdvancedKeepsAbsent(s.credentials, outcome.user, outcome.id, outcome.signCount, user, id);
    }
  }

  lemma AdvancedKeepsAbsent(
    credentials: Credentials, user: string, id: seq<byte>, signCount: u32, other: string, otherId: seq<byte>)
    requires CounterAdvances(credentials, user, id, signCount)
    requires StoredCount(credentials, other, otherId).None?
    ensures StoredCount(Advanced(credentials, user, id, signCount), other, otherId).None?
  {
    var list := credentials[user];
    var i := Find(list, id).value;
    var list' := list[i := list[i].(signCount := signCount)];
    var r := Find(list', otherId);
    assert forall j :: 0 <= j < |list| ==> list'[j].id == list[j].id;
  }

  /** Every accepted counter is above the one its credential was first registered with. */
  lemma AcceptedAboveRegistered(cfg: Config, actions: seq<Action>, i: nat, user: string, id: seq<byte>, n: u32)
    returns (r: nat, m: u32)
    requires AcceptsAt(cfg, actions, i, user, id, n)
    ensures r < i && FirstRegistration(cfg, actions, r, user, id, m) && m < n
  {
    hide Step;
    AcceptedCount(cfg, actions, i, user, id, n);
    r, m := CountHasRegistration(cfg, actions, i, user, id);
  }

  /** Action `i` accepts some counter for this user and id. */
  ghost predicate CountsAt(cfg: Config, actions: seq<Action>, i: nat, user: string, id: seq<byte>)
    requires i < |actions|
  {
    var o := OutcomeAt(cfg, actions, i);
    o.CounterAccepted? && o.user == user && o.id == id
  }

  function CountTrue(flags: seq<bool>): nat {
    if |flags| == 0 then 0 else CountTrue(flags[..|flags| - 1]) + if flags[|flags| - 1] then 1 else 0
  }

  ghost function HitsOf(cfg: Config, actions: seq<Action>, user: string, id: seq<byte>): seq<bool> {
    seq(|actions|, i requires 0 <= i < |actions| => CountsAt(cfg, actions, i, user, id))
  }

  /** How many counters the run accepts for this user and id. */
  ghost function AcceptedTotal(cfg: Config, actions: seq<Action>, user: string, id: seq<byte>): nat {
    CountTrue(HitsOf(cfg, actions, user, id))
  }

  /** The stored count after each number of actions. */
  ghost function CountsOf(cfg: Config, actions: seq<Action>, user: string, id: seq<byte>): seq<Option<u32>> {
    seq(|actions| + 1, n requires 0 <= n <= |actions| =>
                         StoredCount(After(cfg, actions[..n]).credentials, user, id))
  }

  /** Before its first registration a user has no count for the id. */
  lemma NoCountBefore(cfg: Config, actions: seq<Action>, n: nat, user: string, id: seq<byte>, r: nat, m: u32)
    requires FirstRegistration(cfg, actions, r, user, id, m) && n <= r
    ensures StoredCount(After(cfg, actions[..n]).credentials, user, id).None?
  {
    hide Step;
    TableOnlyGrows(cfg, actions, n, r);
    if StoredCount(After(cfg, actions[..n]).credentials, user, id).Some? {
      StoredCountKept(After(cfg, actions[..n]).credentials, After(cfg, actions[..r]).credentials, user, id);
    }
  }

  lemma CountAfterRegistration(cfg: Config, actions: seq<Action>, user: string, id: seq<byte>, r: nat, m: u32)
    requires FirstRegistration(cfg, actions, r, user, id, m)
    ensures StoredCount(After(cfg, actions[..r + 1]).credentials, user, id) == Some(m)
    ensures !CountsAt(cfg, actions, r, user, id)
  {
    hide Step;
    var s, o := After(cfg, actions[..r]), OutcomeAt(cfg, actions, r);
    AfterNext(cfg, actions, r);
    StepRegisters(cfg, s, actions[r], o);
    PushedCount(s.credentials, user, o.credential, user, id);
  }

  lemma CountNext(cfg: Config, actions: seq<Action>, n: nat, user: string, id: seq<byte>)
    requires n < |actions|
    ensures var before, after := StoredCount(After(cfg, actions[..n]).credentials, user, id),
              StoredCount(After(cfg, actions[..n + 1]).credentials, user, id);
            && (before.Some? ==> after.Some? && after.value >= before.value)
            && (CountsAt(cfg, actions, n, user, id) ==>
                  before.Some? && after.Some? && after.value > before.value)
  {
    hide Step;
    TableOnlyGrows(cfg, actions, n, n + 1);
    if StoredCount(After(cfg, actions[..n]).credentials, user, id).Some? {
      StoredCountKept(After(cfg, actions[..n]).credentials, After(cfg, actions[..n + 1]).credentials, user, id);
    }
    if CountsAt(cfg, actions, n, user, id) {
      AcceptedCount(cfg, actions, n, user, id, OutcomeAt(cfg, actions, n).signCount);
    }
  }

  /** The count does not fall at step `n`, and rises if that is a hit. */
  ghost predicate RisesAt(counts: seq<Option<u32>>, hits: seq<bool>, n: nat)
    requires |counts| == |hits| + 1 && n < |hits|
  {
    var before, after := counts[n], counts[n + 1];
    && (before.Some? ==> after.Some? && after.value >= before.value)
    && (hits[n] ==> before.Some? && after.Some? && after.value > before.value)
  }

  ghost predicate RisesWithHits(counts: seq<Option<u32>>, hits: seq<bool>) {
    |counts| == |hits| + 1 && forall n :: 0 <= n < |hits| ==> RisesAt(counts, hits, n)
  }

  lemma CountsRise(cfg: Config, actions: seq<Action>, user: string, id: seq<byte>)
    ensures RisesWithHits(CountsOf(cfg, actions, user, id), HitsOf(cfg, actions, user, id))
  {
    hide Step;
    var counts, hits := CountsOf(cfg, actions, user, id), HitsOf(cfg, actions, user, id);
    forall n | 0 <= n < |actions|
      ensures RisesAt(counts, hits, n)
    {
      CountNext(cfg, actions, n, user, id);
      assert hits[n] == CountsAt(cfg, actions, n, user, id);
    }
  }

  /** A count that starts at `m` and rises with every hit bounds the number of hits. */
  lemma {:induction false} HitsAreBounded(counts: seq<Option<u32>>, hits: seq<bool>, r: nat, m: u32)
    requires RisesWithHits(counts, hits) && r < |hits|
    requires forall n :: 0 <= n <= r ==> counts[n].None?
    requires counts[r + 1] == Some(m) && !hits[r]
    ensures counts[|hits|].Some? && CountTrue(hits) + m <= counts[|hits|].value
  {
    var n := |hits| - 1;
    assert RisesAt(counts, hits, n);
    if r == n {
      forall k | 0 <= k < n
        ensures !hits[k]
      {
        assert RisesAt(counts, hits, k);
      }
      NoHits(hits);
    } else {
      var counts', hits' := counts[..n + 1], hits[..n];
      forall k | 0 <= k < n
        ensures RisesAt(counts', hits', k)
      {
        assert RisesAt(counts, hits, k);
      }
      HitsAreBounded(counts', hits', r, m);
    }
  }

  lemma {:induction false} NoHits(hits: seq<bool>)
    requires forall n :: 0 <= n < |hits| ==> !hits[n]
    ensures CountTrue(hits) == 0
  {
    if |hits| > 0 {
      NoHits(hits[..|hits| - 1]);
    }
  }

  /**
    A credential registered at counter `m` can have at most 2^32 - 1 - m counters
    accepted, over any run of any length.
   */
  lemma AcceptedCountersAreFew(cfg: Config, actions: seq<Action>, user: string, id: seq<byte>, r: nat, m: u32)
    requires FirstRegistration(cfg, actions, r, user, id, m)
    ensures AcceptedTotal(cfg, actions, user, id) <= U32_MAX - m
  {
    hide Step;
    var hits := HitsOf(cfg, actions, user, id);
    var counts := CountsOf(cfg, actions, user, id);
    forall n | 0 <= n <= r
      ensures counts[n].None?
    {
      NoCountBefore(cfg, actions, n, user, id, r, m);
    }
    CountAfterRegistration(cfg, actions, user, id, r, m);
    CountsRise(cfg, actions, user, id);
    HitsAreBounded(counts, hits, r, m);
  }

  // ---------------------------------------------------------------------
  // Exactly which counters are accepted
  // ---------------------------------------------------------------------

  lemma AdvancedLeavesOthers(
    credentials: Credentials, user: string, id: seq<byte>, signCount: u32, other: string, otherId: seq<byte>)
    requires CounterAdvances(credentials, user, id, signCount) && (other != user || otherId != id)
    ensures StoredCount(Advanced(credentials, user, id, signCount), other, otherId) ==
            StoredCount(credentials, other, otherId)
  {
    if other == user {
      var list := credentials[user];
      var i := Find(list, id).value;
      var list' := list[i := list[i].(signCount := signCount)];
      assert forall j :: 0 <= j < |list| ==> list'[j].id == list[j].id;
      var k := Find(list, otherId);
      if k.Some? {
        FindIs(list', otherId, k.value);
      } else {
        var k' := Find(list', otherId);
      }
    }
  }

  /** What one section does to the count of one user and id. */
  lemma StepCount(cfg: Config, s: Server, action: Action, user: string, id: seq<byte>)
    ensures var (t, o) := Step(cfg, s, action);
            StoredCount(t.credentials, user, id) ==
            if o.CounterAccepted? && o.user == user && o.id == id then Some(o.signCount)
            else if o.Registered? && o.user == user && o.credential.id == id
                    && StoredCount(s.credentials, user, id).None? then Some(o.credential.signCount)
            else StoredCount(s.credentials, user, id)
  {
    hide StoredCount;
    hide Advanced;
    hide Pushed;
    var o := Step(cfg, s, action).1;
    if o.Registered? {
      PushedCount(s.credentials, o.user, o.credential, user, id);
    } else if o.CounterAccepted? {
      StepAccepts(cfg, s, action, o);
      AdvancedCount(s.credentials, o.user, o.id, o.signCount);
      if o.user != user || o.id != id {
        AdvancedLeavesOthers(s.credentials, o.user, o.id, o.signCount, user, id);
      }
    }
  }

  /** The counter the user first registered this id with, or one accepted for it, before `n`. */
  ghost predicate IsPrevious(cfg: Config, actions: seq<Action>, k: nat, n: nat, user: string, id: seq<byte>, c: u32) {
    k < n && (FirstRegistration(cfg, actions, k, user, id, c) || AcceptsAt(cfg, actions, k, user, id, c))
  }

  /** The stored count is one of the previous counters. */
  lemma {:induction false} CountIsPrevious(cfg: Config, actions: seq<Action>, n: nat, user: string, id: seq<byte>)
    returns (k: nat)
    requires n <= |actions| && StoredCount(After(cfg, actions[..n]).credentials, user, id).Some?
    ensures IsPrevious(cfg, actions, k, n, user, id, StoredCount(After(cfg, actions[..n]).credentials, user, id).value)
    decreases n
  {
    hide Step;
    assert n > 0;
    var s, o := After(cfg, actions[..n - 1]), OutcomeAt(cfg, actions, n - 1);
    AfterNext(cfg, actions, n - 1);
    StepCount(cfg, s, actions[n - 1], user, id);
    if o.CounterAccepted? && o.user == user && o.id == id {
      assert o == CounterAccepted(user, id, o.signCount, o.signatureOk);
      k := n - 1;
    } else if o.Registered? && o.user == user && o.credential.id == id && StoredCount(s.credentials, user, id).None? {
      k := n - 1;
    } else {
      k := CountIsPrevious(cfg, actions, n - 1, user, id);
    }
  }

  lemma PreviousIsBelow(cfg: Config, actions: seq<Action>, k: nat, n: nat, user: string, id: seq<byte>, c: u32)
    requires n <= |actions| && IsPrevious(cfg, actions, k, n, user, id, c)
    ensures StoredCount(After(cfg, actions[..n]).credentials, user, id).Some?
    ensures c <= StoredCount(After(cfg, actions[..n]).credentials, user, id).value
  {
    hide Step;
    if AcceptsAt(cfg, actions, k, user, id, c) {
      AcceptedCount(cfg, actions, k, user, id, c);
    } else {
      CountAfterRegistration(cfg, actions, user, id, k, c);
    }
    TableOnlyGrows(cfg, actions, k + 1, n);
    StoredCountKept(After(cfg, actions[..k + 1]).credentials, After(cfg, actions[..n]).credentials, user, id);
  }

  lemma AdvanceOutcome(cfg: Config, s: Server, call: nat)
    requires call in s.phases && s.phases[call].ToAdvance?
    ensures var o, phase := Step(cfg, s, Advance(call)).1, s.phases[call];
            && (o.CounterAccepted? <==> CounterAdvances(s.credentials, phase.user, phase.id, phase.signCount))
            && (o.CounterAccepted? ==>
                  o.user == phase.user && o.id == phase.id && o.signCount == phase.signCount)
  {
    hide CounterAdvances;
    hide Advanced;
  }

  /**
    Exactly which counters are accepted, in every interleaving: those of a user and
    id registered before that exceed the first registration's counter and every
    counter accepted since.
   */
  lemma CounterAcceptedExactly(
    cfg: Config, actions: seq<Action>, n: nat, call: nat, user: string, id: seq<byte>, count: u32)
    requires n < |actions| && actions[n] == Advance(call) && call in After(cfg, actions[..n]).phases
    requires After(cfg, actions[..n]).phases[call] == ToAdvance(user, id, count)
    ensures AcceptsAt(cfg, actions, n, user, id, count) <==>
            && (exists r: nat, m: u32 :: r < n && FirstRegistration(cfg, actions, r, user, id, m))
            && (forall k: nat, c: u32 :: IsPrevious(cfg, actions, k, n, user, id, c) ==> c < count)
  {
    hide Step;
    hide FirstRegistration;
    var s, o := After(cfg, actions[..n]), OutcomeAt(cfg, actions, n);
    AdvanceOutcome(cfg, s, call);
    assert o.CounterAccepted? ==> o == CounterAccepted(user, id, count, o.signatureOk);
    forall k: nat, c: u32 | IsPrevious(cfg, actions, k, n, user, id, c)
      ensures StoredCount(s.credentials, user, id).Some? && c <= StoredCount(s.credentials, user, id).value
    {
      PreviousIsBelow(cfg, actions, k, n, user, id, c);
    }
    forall r: nat, m: u32 | r < n && FirstRegistration(cfg, actions, r, user, id, m)
      ensures StoredCount(s.credentials, user, id).Some?
    {
      assert IsPrevious(cfg, actions, r, n, user, id, m);
    }
    if StoredCount(s.credentials, user, id).Some? {
      var r, m := CountHasRegistration(cfg, actions, n, user, id);
      var k := CountIsPrevious(cfg, actions, n, user, id);
    }
  }
}
