/**
  Which challenge a registration or an authentication rests on, over whole runs:
  every success goes back to one challenge of its own, the latest for its key,
  not consumed before and within its TTL.
 */
module WebAuthnChallenges {
  import opened WebAuthn
  import opened WebAuthnRuns
  import opened Wrappers

  predicate IsBegin(action: Action) {
    action.BeginRegistration? || action.BeginAuthentication?
  }

  /** The key of the challenge store that an action touches. */
  function ChallengeKey(cfg: Config, action: Action): Option<string> {
    match action
    case Issue(user, operation, _, _) => Some(Key(cfg, operation, user))
    case BeginRegistration(_, user, _, _, _, _, _, _, _) => Some(Key(cfg, CREATE, user))
    case BeginAuthentication(_, user, _, _, _, _, _, _) => Some(Key(cfg, GET, user))
    case _ => None
  }

  /** What a begin checks before it asks the challenge store. */
  function BeginError(cfg: Config, action: Action): Option<Error>
    requires IsBegin(action)
  {
    if action.BeginRegistration? then RegistrationError(cfg, action.challenge, action.auth, action.data)
    else AuthenticationError(cfg, action.challenge, action.auth, action.data)
  }

  /** An action with this outcome ends whatever was stored under its key. */
  predicate EndsStored(action: Action, outcome: Outcome) {
    || action.Issue?
    || (IsBegin(action) && (outcome == ChallengeAccepted || (outcome == Failed(SessionStoreFailure) && action.drop)))
  }

  lemma StepAtKey(cfg: Config, s: Server, action: Action, key: string)
    ensures var (t, outcome) := Step(cfg, s, action);
            if ChallengeKey(cfg, action) == Some(key) && action.Issue? then
              key in t.challenges && t.challenges[key] == Issued(action.challenge, action.now + cfg.challengeTtl)
            else if ChallengeKey(cfg, action) == Some(key) && EndsStored(action, outcome) then
              key !in t.challenges
            else
              (key in t.challenges <==> key in s.challenges)
              && (key in s.challenges ==> t.challenges[key] == s.challenges[key])
  {
  }

  /** Action `k` of the run replaced, consumed or dropped what was stored under `key`. */
  ghost predicate EndsAt(cfg: Config, actions: seq<Action>, k: nat, key: string) {
    && k < |actions| && ChallengeKey(cfg, actions[k]) == Some(key)
    && EndsStored(actions[k], OutcomeAt(cfg, actions, k))
  }

  ghost predicate IssuesAt(cfg: Config, actions: seq<Action>, k: nat, key: string) {
    k < |actions| && actions[k].Issue? && ChallengeKey(cfg, actions[k]) == Some(key)
  }

  /** One more action, seen from the entry of one key. */
  lemma EntryNext(cfg: Config, actions: seq<Action>, n: nat, key: string)
    requires n < |actions|
    ensures var before, after := After(cfg, actions[..n]).challenges, After(cfg, actions[..n + 1]).challenges;
            if IssuesAt(cfg, actions, n, key) then
              key in after && after[key] == Issued(actions[n].challenge, actions[n].now + cfg.challengeTtl)
            else if EndsAt(cfg, actions, n, key) then key !in after
            else (key in after <==> key in before) && (key in before ==> after[key] == before[key])
  {
    hide Step;
    AfterNext(cfg, actions, n);
    StepAtKey(cfg, After(cfg, actions[..n]), actions[n], key);
  }

  /** The challenge issued by action `i` is the one stored under `key` after `n` actions. */
  ghost predicate Pending(cfg: Config, actions: seq<Action>, i: nat, n: nat, key: string) {
    && i < n <= |actions| && IssuesAt(cfg, actions, i, key)
    && forall k :: i < k < n ==> !EndsAt(cfg, actions, k, key)
  }

  lemma {:induction false} PendingIsStored(cfg: Config, actions: seq<Action>, i: nat, n: nat, key: string)
    requires Pending(cfg, actions, i, n, key)
    ensures key in After(cfg, actions[..n]).challenges
    ensures After(cfg, actions[..n]).challenges[key] ==
            Issued(actions[i].challenge, actions[i].now + cfg.challengeTtl)
    decreases n
  {
    hide Step;
    EntryNext(cfg, actions, n - 1, key);
    if i < n - 1 {
      assert !EndsAt(cfg, actions, n - 1, key);
      PendingIsStored(cfg, actions, i, n - 1, key);
    }
  }

  lemma {:induction false} StoredIsPending(cfg: Config, actions: seq<Action>, n: nat, key: string) returns (i: nat)
    requires n <= |actions| && key in After(cfg, actions[..n]).challenges
    ensures Pending(cfg, actions, i, n, key)
    decreases n
  {
    hide Step;
    assert n > 0;
    EntryNext(cfg, actions, n - 1, key);
    if IssuesAt(cfg, actions, n - 1, key) {
      i := n - 1;
    } else {
      i := StoredIsPending(cfg, actions, n - 1, key);
    }
  }

  /** Action `j` was let through by the challenge store. */
  ghost predicate PassesAt(cfg: Config, actions: seq<Action>, j: nat) {
    j < |actions| && IsBegin(actions[j]) && OutcomeAt(cfg, actions, j) == ChallengeAccepted
  }

  /**
    Action `i` issued the challenge that begin `j` presents: the latest for its
    key, not yet consumed, and within its TTL.
   */
  ghost predicate IsIssuer(cfg: Config, actions: seq<Action>, i: nat, j: nat) {
    && j < |actions| && IsBegin(actions[j])
    && Pending(cfg, actions, i, j, ChallengeKey(cfg, actions[j]).value)
    && actions[i].challenge == actions[j].challenge
    && actions[j].now < actions[i].now + cfg.challengeTtl
  }

  /** The begin carries the right hash, the required flags, and client data of its ceremony for its challenge. */
  predicate IsSoundBegin(cfg: Config, begin: Action)
    requires IsBegin(begin)
  {
    if begin.BeginRegistration? then
      begin.auth.uv && IsSound(cfg, begin.auth, begin.data, "webauthn.create", begin.challenge)
    else IsSound(cfg, begin.auth, begin.data, "webauthn.get", begin.challenge)
  }

  lemma SoundBeginExactly(cfg: Config, begin: Action)
    requires IsBegin(begin)
    ensures BeginError(cfg, begin).None? <==> IsSoundBegin(cfg, begin)
  {
    if begin.BeginRegistration? {
      RegistrationErrorExactly(cfg, begin.challenge, begin.auth, begin.data);
    } else {
      AuthenticationErrorExactly(cfg, begin.challenge, begin.auth, begin.data);
    }
  }

  /** A begin of a call not in flight passes exactly when it is sound and its challenge has an issuer. */
  lemma ChallengeAcceptedExactly(cfg: Config, actions: seq<Action>, j: nat)
    requires j < |actions| && IsBegin(actions[j]) && actions[j].call !in After(cfg, actions[..j]).phases
    ensures PassesAt(cfg, actions, j) <==>
            IsSoundBegin(cfg, actions[j]) && exists i: nat :: IsIssuer(cfg, actions, i, j)
  {
    SoundBeginExactly(cfg, actions[j]);
    var key := ChallengeKey(cfg, actions[j]).value;
    var stored := After(cfg, actions[..j]).challenges;
    if key in stored {
      var i := StoredIsPending(cfg, actions, j, key);
      PendingIsStored(cfg, actions, i, j, key);
      assert PassesAt(cfg, actions, j) ==> IsIssuer(cfg, actions, i, j);
    }
    forall i: nat | IsIssuer(cfg, actions, i, j)
      ensures ChallengeMatches(stored, key, actions[j].challenge, actions[j].now)
    {
      PendingIsStored(cfg, actions, i, j, key);
    }
  }

  /** No challenge lets two begins through. */
  lemma IssuersAreDistinct(cfg: Config, actions: seq<Action>, i: nat, j: nat, k: nat)
    requires PassesAt(cfg, actions, j) && PassesAt(cfg, actions, k)
    requires IsIssuer(cfg, actions, i, j) && IsIssuer(cfg, actions, i, k)
    ensures j == k
  {
    hide Step;
    var key := ChallengeKey(cfg, actions[i]).value;
    assert EndsAt(cfg, actions, j, key) && EndsAt(cfg, actions, k, key);
  }

  // ---------------------------------------------------------------------
  // From a completed call back to its challenge
  // ---------------------------------------------------------------------

  /** What a phase remembers of the begin that opened it. */
  predicate Matches(phase: Phase, begin: Action) {
    match phase
    case ToScan(user, credential) => IsRegistrationOf(begin, user, credential)
    case ToPush(user, credential) => IsRegistrationOf(begin, user, credential)
    case ToAdvance(user, id, signCount) =>
      begin.BeginAuthentication? && begin.user == user && begin.id == id && begin.auth.signCount == signCount
  }

  predicate IsRegistrationOf(begin: Action, user: string, credential: Credential) {
    begin.BeginRegistration? && begin.user == user
    && credential == Credential(begin.id, begin.publicKey, begin.auth.signCount)
  }

  /** Begin `b` opened the call, which has been in flight ever since. */
  ghost predicate OpenSince(cfg: Config, actions: seq<Action>, n: nat, call: nat, b: nat) {
    && b < n <= |actions| && PassesAt(cfg, actions, b) && actions[b].call == call
    && forall m :: b < m <= n ==> call in After(cfg, actions[..m]).phases
  }

  /** A call in flight was in flight before, or this action is the begin that opened it. */
  lemma StepAtCall(cfg: Config, s: Server, action: Action, call: nat)
    ensures var (t, outcome) := Step(cfg, s, action);
            call in t.phases ==>
              if call in s.phases then forall begin :: Matches(s.phases[call], begin) ==> Matches(t.phases[call], begin)
              else IsBegin(action) && outcome == ChallengeAccepted && action.call == call
                   && Matches(t.phases[call], action)
  {
  }

  lemma PhaseNext(cfg: Config, actions: seq<Action>, n: nat, call: nat)
    requires n < |actions|
    ensures var before, after := After(cfg, actions[..n]).phases, After(cfg, actions[..n + 1]).phases;
            call in after ==>
              if call in before then forall begin :: Matches(before[call], begin) ==> Matches(after[call], begin)
              else PassesAt(cfg, actions, n) && actions[n].call == call && Matches(after[call], actions[n])
  {
    hide Step;
    AfterNext(cfg, actions, n);
    StepAtCall(cfg, After(cfg, actions[..n]), actions[n], call);
  }

  lemma {:induction false} InFlightWasOpened(cfg: Config, actions: seq<Action>, n: nat, call: nat) returns (b: nat)
    requires n <= |actions| && call in After(cfg, actions[..n]).phases
    ensures OpenSince(cfg, actions, n, call, b)
    ensures Matches(After(cfg, actions[..n]).phases[call], actions[b])
    decreases n
  {
    hide Step;
    assert n > 0;
    PhaseNext(cfg, actions, n - 1, call);
    if call in After(cfg, actions[..n - 1]).phases {
      b := InFlightWasOpened(cfg, actions, n - 1, call);
    } else {
      b := n - 1;
    }
  }

  /** Action `n` completes a call: it registers a credential or accepts a counter. */
  ghost predicate CompletesAt(cfg: Config, actions: seq<Action>, n: nat) {
    n < |actions| && (OutcomeAt(cfg, actions, n).Registered? || OutcomeAt(cfg, actions, n).CounterAccepted?)
  }

  function CallOf(action: Action): nat
    requires action.Push? || action.Advance?
  {
    action.call
  }

  /** Begin `b` is the one whose call action `n` completes. */
  ghost predicate CompletesBegin(cfg: Config, actions: seq<Action>, n: nat, b: nat) {
    && CompletesAt(cfg, actions, n) && (actions[n].Push? || actions[n].Advance?)
    && OpenSince(cfg, actions, n, CallOf(actions[n]), b)
  }

  lemma CompletionCloses(cfg: Config, actions: seq<Action>, n: nat)
    requires CompletesAt(cfg, actions, n)
    ensures actions[n].Push? || actions[n].Advance?
    ensures CallOf(actions[n]) !in After(cfg, actions[..n + 1]).phases
  {
    AfterNext(cfg, actions, n);
  }

  /** A begin is completed at most once. */
  lemma CompletionsAreDistinct(cfg: Config, actions: seq<Action>, m: nat, n: nat, b: nat)
    requires CompletesBegin(cfg, actions, m, b) && CompletesBegin(cfg, actions, n, b)
    ensures m == n
  {
    hide Step;
    CompletionCloses(cfg, actions, m);
    CompletionCloses(cfg, actions, n);
  }

  /** What begin `b` and the challenge it presents say about the outcome of its call. */
  predicate Presents(cfg: Config, issue: Action, begin: Action, outcome: Outcome)
    requires issue.Issue? && IsBegin(begin)
  {
    match outcome
    case Registered(user, credential) =>
      && IsSound(cfg, begin.auth, begin.data, "webauthn.create", issue.challenge)
      && begin.auth.uv
      && IsRegistrationOf(begin, user, credential)
    case CounterAccepted(user, id, signCount, _) =>
      && IsSound(cfg, begin.auth, begin.data, "webauthn.get", issue.challenge)
      && begin.BeginAuthentication? && begin.user == user && begin.id == id && begin.auth.signCount == signCount
    case _ => false
  }

  /** The operation a begin asks the challenge store for. */
  function OperationOf(begin: Action): string
    requires IsBegin(begin)
  {
    if begin.BeginRegistration? then "create" else "get"
  }

  /** The challenge was issued to this very user for this very operation. */
  predicate IsIssuedFor(issue: Action, begin: Action)
    requires issue.Issue? && IsBegin(begin)
  {
    issue.user == begin.user && issue.operation == OperationOf(begin)
  }

  /**
    Challenge correspondence, in every run: each completed registration or
    authentication goes back, through its own begin, to an issued challenge that was
    still pending under its key when it was presented. The begin carried the relying
    party's hash, the required flags, the right type, that challenge and an allowed
    origin, and the outcome is about that begin's credential. The challenge was
    issued to the same user for the same operation exactly if the operation it was
    issued for holds no ':', which is to say if it was "create" or "get".
   */
  lemma CompletionHasChallenge(cfg: Config, actions: seq<Action>, n: nat) returns (b: nat, i: nat)
    requires CompletesAt(cfg, actions, n)
    ensures CompletesBegin(cfg, actions, n, b) && IsIssuer(cfg, actions, i, b)
    ensures Presents(cfg, actions[i], actions[b], OutcomeAt(cfg, actions, n))
    ensures IsIssuedFor(actions[i], actions[b]) <==> ':' !in actions[i].operation
    ensures IsIssuedFor(actions[i], actions[b]) <==> actions[i].operation == OperationOf(actions[b])
  {
    hide Step;
    b := CompletionHasBegin(cfg, actions, n);
    BeginFromOutside(cfg, actions, b);
    ChallengeAcceptedExactly(cfg, actions, b);
    i :| IsIssuer(cfg, actions, i, b);
    IssuedForExactly(cfg, actions, i, b);
  }

  lemma BeginFromOutside(cfg: Config, actions: seq<Action>, b: nat)
    requires PassesAt(cfg, actions, b)
    ensures actions[b].call !in After(cfg, actions[..b]).phases
  {
  }

  lemma IssuedForExactly(cfg: Config, actions: seq<Action>, i: nat, b: nat)
    requires IsIssuer(cfg, actions, i, b)
    ensures IsIssuedFor(actions[i], actions[b]) <==> ':' !in actions[i].operation
    ensures IsIssuedFor(actions[i], actions[b]) <==> actions[i].operation == OperationOf(actions[b])
  {
    hide Step;
    if actions[i].operation == OperationOf(actions[b]) {
      KeyTellsUsersApart(cfg, actions[i].operation, actions[i].user, actions[b].user);
    }
    if ':' !in actions[i].operation {
      PlainOperationsNeverCollide(cfg, actions[i].operation, actions[i].user, OperationOf(actions[b]), actions[b].user);
    }
  }

  /**
    The ':' matters: a user named "bob:rp:ann" registers on a challenge that was
    issued to another user, "ann", for the operation "create:rp:bob".
   */
  lemma NestedOperationRegisters()
    ensures var cfg := Config("rp", [7], ["https://rp"], 60);
            var auth := AuthenticatorData([7], true, true, 0);
            var data := Some(ClientData("webauthn.create", "c", "https://rp"));
            var begin := BeginRegistration(0, "bob:rp:ann", "c", auth, data, [1], [2], 5, false);
            var run := [Issue("ann", "create:rp:bob", "c", 0), begin, Scan(0), Push(0)];
            && OutcomeAt(cfg, run, 3) == Registered("bob:rp:ann", Credential([1], [2], 0))
            && IsIssuer(cfg, run, 0, 1) && !IsIssuedFor(run[0], run[1])
  {
    var cfg := Config("rp", [7], ["https://rp"], 60);
    var auth := AuthenticatorData([7], true, true, 0);
    var data := Some(ClientData("webauthn.create", "c", "https://rp"));
    var begin := BeginRegistration(0, "bob:rp:ann", "c", auth, data, [1], [2], 5, false);
    var run := [Issue("ann", "create:rp:bob", "c", 0), begin, Scan(0), Push(0)];
    hide Step;
    NestedKey(cfg);
    SameKeyRegisters(cfg, run[0], begin);
  }

  lemma NestedKey(cfg: Config)
    requires cfg.rpId == "rp"
    ensures Key(cfg, "create:rp:bob", "ann") == Key(cfg, CREATE, "bob:rp:ann")
    ensures "ann" != "bob:rp:ann"
  {
    NestedOperationCollides(cfg, "bob", "ann");
    assert |"ann"| == 3 && |"bob:rp:ann"| == 10;
  }

  /** On an empty table, a sound begin registers on any challenge issued under its key. */
  lemma SameKeyRegisters(cfg: Config, issue: Action, begin: Action)
    requires issue.Issue? && begin.BeginRegistration? && begin.call == 0 && BeginError(cfg, begin).None?
    requires Key(cfg, issue.operation, issue.user) == Key(cfg, CREATE, begin.user)
    requires issue.challenge == begin.challenge && begin.now < issue.now + cfg.challengeTtl
    ensures var run := [issue, begin, Scan(0), Push(0)];
            && OutcomeAt(cfg, run, 3) ==
               Registered(begin.user, Credential(begin.id, begin.publicKey, begin.auth.signCount))
            && IsIssuer(cfg, run, 0, 1)
  {
    hide Step;
    hide Key;
    var run := [issue, begin, Scan(0), Push(0)];
    AfterNext(cfg, run, 0);
    AfterNext(cfg, run, 1);
    AfterNext(cfg, run, 2);
    assert run[..0] == [];
    IssueStores(cfg, EMPTY, issue);
    BeginOpens(cfg, After(cfg, run[..1]), begin);
    ScanThenPush(cfg, After(cfg, run[..2]), 0);
  }

  lemma IssueStores(cfg: Config, s: Server, issue: Action)
    requires issue.Issue?
    ensures var stored := Issued(issue.challenge, issue.now + cfg.challengeTtl);
            Step(cfg, s, issue).0 == s.(challenges := s.challenges[Key(cfg, issue.operation, issue.user) := stored])
  {
  }

  lemma BeginOpens(cfg: Config, s: Server, begin: Action)
    requires begin.BeginRegistration? && begin.call !in s.phases && BeginError(cfg, begin).None?
    requires ChallengeMatches(s.challenges, Key(cfg, CREATE, begin.user), begin.challenge, begin.now)
    ensures var t := Step(cfg, s, begin).0;
            && t.credentials == s.credentials && begin.call in t.phases
            && t.phases[begin.call] == ToScan(begin.user, Credential(begin.id, begin.publicKey, begin.auth.signCount))
  {
  }

  lemma ScanThenPush(cfg: Config, s: Server, call: nat)
    requires call in s.phases && s.phases[call].ToScan? && s.credentials == map[]
    ensures Step(cfg, Step(cfg, s, Scan(call)).0, Push(call)).1 ==
            Registered(s.phases[call].user, s.phases[call].credential)
  {
  }

  lemma CompletionHasBegin(cfg: Config, actions: seq<Action>, n: nat) returns (b: nat)
    requires CompletesAt(cfg, actions, n)
    ensures CompletesBegin(cfg, actions, n, b)
    ensures var o := OutcomeAt(cfg, actions, n);
            if o.Registered? then IsRegistrationOf(actions[b], o.user, o.credential)
            else actions[b].BeginAuthentication? && actions[b].user == o.user && actions[b].id == o.id
                 && actions[b].auth.signCount == o.signCount
  {
    b := InFlightWasOpened(cfg, actions, n, CallOf(actions[n]));
  }

  /** The correspondence is injective: no challenge serves two completed calls. */
  lemma ChallengesServeOnce(
    cfg: Config, actions: seq<Action>, m: nat, n: nat, b: nat, c: nat, i: nat)
    requires CompletesBegin(cfg, actions, m, b) && IsIssuer(cfg, actions, i, b)
    requires CompletesBegin(cfg, actions, n, c) && IsIssuer(cfg, actions, i, c)
    ensures m == n
  {
    hide Step;
    IssuersAreDistinct(cfg, actions, i, b, c);
    CompletionsAreDistinct(cfg, actions, m, n, b);
  }
}
