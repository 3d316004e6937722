/**
  Global uniqueness of credential ids. The scan and the push of a registration
  are separate sections, so uniqueness depends on how registrations interleave;
  this module says exactly how.
 */
module WebAuthnUniqueness {
  import opened Utf8
  import opened WebAuthn
  import opened WebAuthnRuns
  import opened Wrappers

  /** No id stands twice in the table, neither within a list nor across users. */
  ghost predicate Unique(credentials: Credentials) {
    forall u, v, i, j |
      u in credentials && v in credentials && 0 <= i < |credentials[u]| && 0 <= j < |credentials[v]|
      && credentials[u][i].id == credentials[v][j].id ::
      u == v && i == j
  }

  lemma ExtendsKeepsDuplicates(before: Credentials, after: Credentials)
    requires Extends(before, after) && Unique(after)
    ensures Unique(before)
  {
    forall u, v, i, j |
      u in before && v in before && 0 <= i < |before[u]| && 0 <= j < |before[v]|
      && before[u][i].id == before[v][j].id
      ensures u == v && i == j
    {
      assert after[u][i].id == after[v][j].id;
    }
  }

  lemma ExtendsKeepsIds(before: Credentials, after: Credentials, id: seq<byte>)
    requires Extends(before, after) && IsRegistered(before, id)
    ensures IsRegistered(after, id)
  {
    var user :| user in before && HasId(before[user], id);
    var i :| 0 <= i < |before[user]| && before[user][i].id == id;
    assert after[user][i].id == id;
    assert HasId(after[user], id);
  }

  /** A push keeps uniqueness exactly when its id is not there yet. */
  lemma PushKeepsUniqueExactly(credentials: Credentials, user: string, credential: Credential)
    requires Unique(credentials)
    ensures Unique(Pushed(credentials, user, credential)) <==> !IsRegistered(credentials, credential.id)
    ensures IsRegistered(Pushed(credentials, user, credential), credential.id)
  {
    var after := Pushed(credentials, user, credential);
    var list := ListOf(credentials, user);
    assert after[user][|list|] == credential;
    assert HasId(after[user], credential.id);
    if IsRegistered(credentials, credential.id) {
      var u :| u in credentials && HasId(credentials[u], credential.id);
      var i :| 0 <= i < |credentials[u]| && credentials[u][i].id == credential.id;
      assert after[u][i].id == after[user][|list|].id;
    } else {
      forall u, v, i, j |
        u in after && v in after && 0 <= i < |after[u]| && 0 <= j < |after[v]|
        && after[u][i].id == after[v][j].id
        ensures u == v && i == j
      {
        OldOrNew(credentials, user, credential, u, i);
        OldOrNew(credentials, user, credential, v, j);
      }
    }
  }

  /** A place in the table after a push is the new one, or an old one with an id registered before. */
  lemma OldOrNew(credentials: Credentials, user: string, credential: Credential, u: string, i: nat)
    requires u in Pushed(credentials, user, credential) && i < |Pushed(credentials, user, credential)[u]|
    ensures || (u == user && i == |ListOf(credentials, user)|)
            || (u in credentials && i < |credentials[u]|
                && Pushed(credentials, user, credential)[u][i] == credentials[u][i]
                && IsRegistered(credentials, credentials[u][i].id))
  {
    if u in credentials && i < |credentials[u]| {
      assert HasId(credentials[u], credentials[u][i].id);
    }
  }

  /** An advance changes no id, so neither uniqueness nor what is registered. */
  lemma AdvanceKeepsIds(credentials: Credentials, user: string, id: seq<byte>, signCount: u32, other: seq<byte>)
    requires CounterAdvances(credentials, user, id, signCount)
    ensures Unique(credentials) ==> Unique(Advanced(credentials, user, id, signCount))
    ensures IsRegistered(Advanced(credentials, user, id, signCount), other) ==> IsRegistered(credentials, other)
  {
    var after: Credentials := Advanced(credentials, user, id, signCount);
    assert forall u :: u in after <==> u in credentials;
    assert forall u :: u in after ==> |after[u]| == |credentials[u]|;
    assert forall u: string, i :: u in after && 0 <= i < |after[u]| ==> after[u][i].id == credentials[u][i].id;
    if IsRegistered(after, other) {
      var u :| u in after && HasId(after[u], other);
      var i :| 0 <= i < |after[u]| && after[u][i].id == other;
      assert credentials[u][i].id == other;
      assert HasId(credentials[u], other);
    }
  }

  // ---------------------------------------------------------------------
  // Runs
  // ---------------------------------------------------------------------

  ghost function TableAfter(cfg: Config, actions: seq<Action>, n: nat): Credentials
    requires n <= |actions|
  {
    After(cfg, actions[..n]).credentials
  }

  /** Action `i` of the run pushes a credential with this id. */
  ghost predicate PushesAt(cfg: Config, actions: seq<Action>, i: nat, id: seq<byte>) {
    && i < |actions| && actions[i].Push?
    && OutcomeAt(cfg, actions, i).Registered? && OutcomeAt(cfg, actions, i).credential.id == id
  }

  /** After `n` actions the call waits to push a credential with this id. */
  ghost predicate WaitsToPush(cfg: Config, actions: seq<Action>, n: nat, call: nat, id: seq<byte>) {
    && n <= |actions|
    && var phases := After(cfg, actions[..n]).phases;
       call in phases && phases[call].ToPush? && phases[call].credential.id == id
  }

  /** Action `k` is the scan that let the call, waiting since then, on to push this id. */
  ghost predicate ScannedAt(cfg: Config, actions: seq<Action>, k: nat, n: nat, call: nat, id: seq<byte>) {
    && k < n <= |actions| && actions[k] == Scan(call)
    && !IsRegistered(TableAfter(cfg, actions, k), id)
    && forall m :: k < m <= n ==> WaitsToPush(cfg, actions, m, call, id)
  }

  /** Push `i` of an id falls between the scan and the push `j` of another call with the same id. */
  ghost predicate RacingPair(cfg: Config, actions: seq<Action>, i: nat, j: nat) {
    exists k: nat, id :: k < i < j && PushesAt(cfg, actions, i, id) && PushesAt(cfg, actions, j, id)
                         && ScannedAt(cfg, actions, k, j, actions[j].call, id)
  }

  lemma WaitNext(cfg: Config, actions: seq<Action>, n: nat, call: nat, id: seq<byte>)
    requires n < |actions| && WaitsToPush(cfg, actions, n + 1, call, id)
    ensures || WaitsToPush(cfg, actions, n, call, id)
            || (actions[n] == Scan(call) && !IsRegistered(TableAfter(cfg, actions, n), id))
  {
    AfterNext(cfg, actions, n);
  }

  lemma {:induction false} WaitingWasScanned(cfg: Config, actions: seq<Action>, n: nat, call: nat, id: seq<byte>)
    returns (k: nat)
    requires WaitsToPush(cfg, actions, n, call, id)
    ensures ScannedAt(cfg, actions, k, n, call, id)
    decreases n
  {
    hide Step;
    assert n > 0;
    WaitNext(cfg, actions, n - 1, call, id);
    if WaitsToPush(cfg, actions, n - 1, call, id) {
      k := WaitingWasScanned(cfg, actions, n - 1, call, id);
    } else {
      k := n - 1;
    }
  }

  lemma PushWaited(cfg: Config, actions: seq<Action>, i: nat, id: seq<byte>)
    requires PushesAt(cfg, actions, i, id)
    ensures WaitsToPush(cfg, actions, i, actions[i].call, id)
    ensures !WaitsToPush(cfg, actions, i + 1, actions[i].call, id)
    ensures TableAfter(cfg, actions, i + 1) ==
            Pushed(TableAfter(cfg, actions, i), OutcomeAt(cfg, actions, i).user, OutcomeAt(cfg, actions, i).credential)
  {
    AfterNext(cfg, actions, i);
  }

  lemma PushedIds(credentials: Credentials, user: string, credential: Credential, id: seq<byte>)
    requires IsRegistered(Pushed(credentials, user, credential), id) && id != credential.id
    ensures IsRegistered(credentials, id)
  {
    var after := Pushed(credentials, user, credential);
    var u :| u in after && HasId(after[u], id);
    var i :| 0 <= i < |after[u]| && after[u][i].id == id;
    OldOrNew(credentials, user, credential, u, i);
  }

  lemma StepIds(cfg: Config, s: Server, action: Action, id: seq<byte>)
    ensures var (t, outcome) := Step(cfg, s, action);
            && (outcome.Registered? ==> action.Push?)
            && (IsRegistered(t.credentials, id) ==>
                  IsRegistered(s.credentials, id) || (outcome.Registered? && outcome.credential.id == id))
  {
    var (t, outcome) := Step(cfg, s, action);
    if outcome.Registered? {
      if outcome.credential.id != id && IsRegistered(t.credentials, id) {
        PushedIds(s.credentials, outcome.user, outcome.credential, id);
      }
    } else if outcome.CounterAccepted? {
      AdvanceKeepsIds(s.credentials, outcome.user, outcome.id, outcome.signCount, id);
    }
  }

  lemma StepUnique(cfg: Config, s: Server, action: Action)
    requires Unique(s.credentials)
    ensures var (t, outcome) := Step(cfg, s, action);
            !Unique(t.credentials) ==>
              action.Push? && outcome.Registered? && IsRegistered(s.credentials, outcome.credential.id)
  {
    var (t, outcome) := Step(cfg, s, action);
    if outcome.Registered? {
      PushKeepsUniqueExactly(s.credentials, outcome.user, outcome.credential);
    } else if outcome.CounterAccepted? {
      AdvanceKeepsIds(s.credentials, outcome.user, outcome.id, outcome.signCount, []);
    }
  }

  /** Only a push of the id makes it registered. */
  lemma IdsNext(cfg: Config, actions: seq<Action>, n: nat, id: seq<byte>)
    requires n < |actions| && IsRegistered(TableAfter(cfg, actions, n + 1), id)
    ensures IsRegistered(TableAfter(cfg, actions, n), id) || PushesAt(cfg, actions, n, id)
  {
    hide Step;
    AfterNext(cfg, actions, n);
    StepIds(cfg, After(cfg, actions[..n]), actions[n], id);
  }

  /** Only a push of an id that is already registered ends uniqueness. */
  lemma UniqueNext(cfg: Config, actions: seq<Action>, n: nat) returns (id: seq<byte>)
    requires n < |actions|
    requires Unique(TableAfter(cfg, actions, n)) && !Unique(TableAfter(cfg, actions, n + 1))
    ensures PushesAt(cfg, actions, n, id) && IsRegistered(TableAfter(cfg, actions, n), id)
  {
    hide Step;
    AfterNext(cfg, actions, n);
    StepUnique(cfg, After(cfg, actions[..n]), actions[n]);
    id := OutcomeAt(cfg, actions, n).credential.id;
  }

  lemma PushLeavesId(cfg: Config, actions: seq<Action>, i: nat, id: seq<byte>)
    requires PushesAt(cfg, actions, i, id) && Unique(TableAfter(cfg, actions, i))
    ensures IsRegistered(TableAfter(cfg, actions, i + 1), id)
    ensures Unique(TableAfter(cfg, actions, i + 1)) ==> !IsRegistered(TableAfter(cfg, actions, i), id)
  {
    hide Step;
    PushWaited(cfg, actions, i, id);
    var o := OutcomeAt(cfg, actions, i);
    PushKeepsUniqueExactly(TableAfter(cfg, actions, i), o.user, o.credential);
  }

  /** An id absent after `k` actions and present after `n` was pushed in between. */
  lemma {:induction false} PresentWasPushed(cfg: Config, actions: seq<Action>, k: nat, n: nat, id: seq<byte>)
    returns (i: nat)
    requires k <= n <= |actions|
    requires !IsRegistered(TableAfter(cfg, actions, k), id) && IsRegistered(TableAfter(cfg, actions, n), id)
    ensures k <= i < n && PushesAt(cfg, actions, i, id)
    decreases n
  {
    hide Step;
    IdsNext(cfg, actions, n - 1, id);
    if IsRegistered(TableAfter(cfg, actions, n - 1), id) {
      i := PresentWasPushed(cfg, actions, k, n - 1, id);
    } else {
      i := n - 1;
    }
  }

  lemma PushedIsRegistered(credentials: Credentials, user: string, credential: Credential)
    ensures IsRegistered(Pushed(credentials, user, credential), credential.id)
  {
    var after := Pushed(credentials, user, credential);
    assert after[user][|ListOf(credentials, user)|] == credential;
    assert HasId(after[user], credential.id);
  }

  /** An id is registered exactly if some action of the run has pushed it. */
  lemma RegisteredExactly(cfg: Config, actions: seq<Action>, n: nat, id: seq<byte>)
    requires n <= |actions|
    ensures IsRegistered(TableAfter(cfg, actions, n), id) <==> exists i: nat :: i < n && PushesAt(cfg, actions, i, id)
  {
    hide Step;
    if IsRegistered(TableAfter(cfg, actions, n), id) {
      var i := PresentWasPushed(cfg, actions, 0, n, id);
    }
    forall i: nat | i < n && PushesAt(cfg, actions, i, id)
      ensures IsRegistered(TableAfter(cfg, actions, n), id)
    {
      PushWaited(cfg, actions, i, id);
      PushedIsRegistered(
        TableAfter(cfg, actions, i), OutcomeAt(cfg, actions, i).user, OutcomeAt(cfg, actions, i).credential);
      IdStays(cfg, actions, i + 1, n, id);
    }
  }

  lemma ScanOutcome(cfg: Config, s: Server, call: nat)
    requires call in s.phases && s.phases[call].ToScan?
    ensures Step(cfg, s, Scan(call)).1 ==
            if IsRegistered(s.credentials, s.phases[call].credential.id) then Failed(CredentialAlreadyExists)
            else IdIsNew
  {
  }

  /**
    Exactly which registrations the scan refuses, in every interleaving: those of an
    id that some call has pushed before, for whichever user.
   */
  lemma ScanRefusesExactly(cfg: Config, actions: seq<Action>, n: nat, call: nat, user: string, c: Credential)
    requires n < |actions| && actions[n] == Scan(call) && call in After(cfg, actions[..n]).phases
    requires After(cfg, actions[..n]).phases[call] == ToScan(user, c)
    ensures OutcomeAt(cfg, actions, n) == Failed(CredentialAlreadyExists) <==>
            exists i: nat :: i < n && PushesAt(cfg, actions, i, c.id)
    ensures OutcomeAt(cfg, actions, n) == IdIsNew <==> !exists i: nat :: i < n && PushesAt(cfg, actions, i, c.id)
  {
    hide Step;
    hide PushesAt;
    ScanOutcome(cfg, After(cfg, actions[..n]), call);
    RegisteredExactly(cfg, actions, n, c.id);
  }

  /** The push that follows a scan always registers exactly what the call has waited with. */
  lemma PushRegisters(cfg: Config, actions: seq<Action>, n: nat, call: nat, user: string, c: Credential)
    requires n < |actions| && actions[n] == Push(call) && call in After(cfg, actions[..n]).phases
    requires After(cfg, actions[..n]).phases[call] == ToPush(user, c)
    ensures OutcomeAt(cfg, actions, n) == Registered(user, c)
    ensures forall other :: ListOf(TableAfter(cfg, actions, n + 1), other) ==
                            ListOf(TableAfter(cfg, actions, n), other) + if other == user then [c] else []
  {
    AfterNext(cfg, actions, n);
  }

  /** A table that is not unique has seen a race. */
  lemma {:induction false} DuplicateComesFromRace(cfg: Config, actions: seq<Action>, n: nat) returns (i: nat, j: nat)
    requires n <= |actions| && !Unique(TableAfter(cfg, actions, n))
    ensures j < n && RacingPair(cfg, actions, i, j)
    decreases n
  {
    hide Step;
    assert n > 0;
    if !Unique(TableAfter(cfg, actions, n - 1)) {
      i, j := DuplicateComesFromRace(cfg, actions, n - 1);
    } else {
      j := n - 1;
      var id := UniqueNext(cfg, actions, j);
      PushWaited(cfg, actions, j, id);
      var k := WaitingWasScanned(cfg, actions, j, actions[j].call, id);
      i := PresentWasPushed(cfg, actions, k, j, id);
      assert actions[i].Push? && actions[k].Scan?;
    }
  }

  /** Two pushes of one id in a run leave it with a duplicate for good. */
  lemma TwoPushesDuplicate(cfg: Config, actions: seq<Action>, i: nat, j: nat, id: seq<byte>)
    requires i < j && PushesAt(cfg, actions, i, id) && PushesAt(cfg, actions, j, id)
    ensures !Unique(TableAfter(cfg, actions, |actions|))
  {
    hide Step;
    if Unique(TableAfter(cfg, actions, |actions|)) {
      UniqueAtPrefix(cfg, actions, i);
      UniqueAtPrefix(cfg, actions, j);
      UniqueAtPrefix(cfg, actions, j + 1);
      PushLeavesId(cfg, actions, i, id);
      PushLeavesId(cfg, actions, j, id);
      IdStays(cfg, actions, i + 1, j, id);
    }
  }

  lemma IdStays(cfg: Config, actions: seq<Action>, m: nat, n: nat, id: seq<byte>)
    requires m <= n <= |actions| && IsRegistered(TableAfter(cfg, actions, m), id)
    ensures IsRegistered(TableAfter(cfg, actions, n), id)
  {
    hide Step;
    TableOnlyGrows(cfg, actions, m, n);
    ExtendsKeepsIds(TableAfter(cfg, actions, m), TableAfter(cfg, actions, n), id);
  }

  lemma RaceLeavesDuplicate(cfg: Config, actions: seq<Action>, i: nat, j: nat)
    requires RacingPair(cfg, actions, i, j)
    ensures !Unique(TableAfter(cfg, actions, |actions|))
  {
    hide Step;
    var k: nat, id :| k < i < j && PushesAt(cfg, actions, i, id) && PushesAt(cfg, actions, j, id)
                      && ScannedAt(cfg, actions, k, j, actions[j].call, id);
    TwoPushesDuplicate(cfg, actions, i, j, id);
  }

  lemma UniqueAtPrefix(cfg: Config, actions: seq<Action>, n: nat)
    requires n <= |actions| && Unique(TableAfter(cfg, actions, |actions|))
    ensures Unique(TableAfter(cfg, actions, n))
  {
    hide Step;
    TableOnlyGrows(cfg, actions, n, |actions|);
    ExtendsKeepsDuplicates(TableAfter(cfg, actions, n), TableAfter(cfg, actions, |actions|));
  }

  /**
    Exactly when credential ids are globally unique: the table of a run holds no
    id twice if and only if no push of an id ever fell between another call's scan
    for that id and its push.
   */
  lemma UniqueExactly(cfg: Config, actions: seq<Action>)
    ensures Unique(TableAfter(cfg, actions, |actions|)) <==>
            !exists i: nat, j: nat :: RacingPair(cfg, actions, i, j)
  {
    if !Unique(TableAfter(cfg, actions, |actions|)) {
      var i, j := DuplicateComesFromRace(cfg, actions, |actions|);
    } else if exists i: nat, j: nat :: RacingPair(cfg, actions, i, j) {
      var i: nat, j: nat :| RacingPair(cfg, actions, i, j);
      RaceLeavesDuplicate(cfg, actions, i, j);
    }
  }

  // ---------------------------------------------------------------------
  // Registrations that do not overlap
  // ---------------------------------------------------------------------

  predicate IsRegistering(phases: map<nat, Phase>, call: nat) {
    call in phases && !phases[call].ToAdvance?
  }

  /** At no point of the run are two registrations in flight. */
  ghost predicate RegistrationsDoNotOverlap(cfg: Config, actions: seq<Action>) {
    forall n: nat, c: nat, d: nat {:trigger IsRegistering(After(cfg, actions[..n]).phases, c),
                                            IsRegistering(After(cfg, actions[..n]).phases, d)} ::
      n <= |actions|
      && IsRegistering(After(cfg, actions[..n]).phases, c) && IsRegistering(After(cfg, actions[..n]).phases, d) ==>
        c == d
  }

  /**
    Where registrations do not overlap one another, ids are unique across all
    users, whatever authentications and challenge issues happen in between.
   */
  lemma SerialRegistrationsAreUnique(cfg: Config, actions: seq<Action>)
    requires RegistrationsDoNotOverlap(cfg, actions)
    ensures Unique(TableAfter(cfg, actions, |actions|))
  {
    if exists i: nat, j: nat :: RacingPair(cfg, actions, i, j) {
      var i: nat, j: nat :| RacingPair(cfg, actions, i, j);
      RaceNeedsOverlap(cfg, actions, i, j);
    }
    UniqueExactly(cfg, actions);
  }

  lemma RaceNeedsOverlap(cfg: Config, actions: seq<Action>, i: nat, j: nat)
    requires RacingPair(cfg, actions, i, j)
    ensures !RegistrationsDoNotOverlap(cfg, actions)
  {
    hide Step;
    var k: nat, id :| k < i < j && PushesAt(cfg, actions, i, id) && PushesAt(cfg, actions, j, id)
                      && ScannedAt(cfg, actions, k, j, actions[j].call, id);
    PushWaited(cfg, actions, i, id);
    assert WaitsToPush(cfg, actions, i, actions[j].call, id);
    assert WaitsToPush(cfg, actions, i + 1, actions[j].call, id);
    var phases := After(cfg, actions[..i]).phases;
    assert IsRegistering(phases, actions[i].call) && IsRegistering(phases, actions[j].call);
  }

  // ---------------------------------------------------------------------
  // A race
  // ---------------------------------------------------------------------

  lemma AfterAppend(cfg: Config, actions: seq<Action>, action: Action)
    ensures After(cfg, actions + [action]) == Step(cfg, After(cfg, actions), action).0
  {
    assert (actions + [action])[..|actions|] == actions;
  }

  /** An honest registration's begin, right after its challenge was issued. */
  function OpenRegistration(cfg: Config, call: nat, user: string, id: seq<byte>): seq<Action>
    requires cfg.allowedOrigins != []
  {
    var data := ClientData("webauthn.create", "challenge", cfg.allowedOrigins[0]);
    var auth := AuthenticatorData(cfg.rpIdHash, true, true, 0);
    [Issue(user, CREATE, "challenge", 0),
     BeginRegistration(call, user, "challenge", auth, Some(data), id, [1], 0, false)]
  }

  lemma OpenRegistrationWaits(cfg: Config, actions: seq<Action>, call: nat, user: string, id: seq<byte>)
    requires cfg.allowedOrigins != [] && cfg.challengeTtl > 0
    requires call !in After(cfg, actions).phases
    ensures var before, after := After(cfg, actions), After(cfg, actions + OpenRegistration(cfg, call, user, id));
            && after.credentials == before.credentials
            && after.phases == before.phases[call := ToScan(user, Credential(id, [1], 0))]
  {
    var steps := OpenRegistration(cfg, call, user, id);
    AfterAppend(cfg, actions, steps[0]);
    AfterAppend(cfg, actions + [steps[0]], steps[1]);
    assert actions + steps == (actions + [steps[0]]) + [steps[1]];
  }

  /**
    Uniqueness can fail: when two registrations of one id both scan before either
    pushes, the id ends up with two users.
   */
  lemma OverlapCanDuplicate(cfg: Config, id: seq<byte>)
    requires cfg.allowedOrigins != [] && cfg.challengeTtl > 0
    ensures var run := OpenRegistration(cfg, 0, "alice", id) + OpenRegistration(cfg, 1, "bob", id)
                       + [Scan(0), Scan(1), Push(0), Push(1)];
            !Unique(After(cfg, run).credentials)
  {
    var credential := Credential(id, [1], 0);
    var a := OpenRegistration(cfg, 0, "alice", id);
    assert [] + a == a;
    OpenRegistrationWaits(cfg, [], 0, "alice", id);
    var b := a + OpenRegistration(cfg, 1, "bob", id);
    OpenRegistrationWaits(cfg, a, 1, "bob", id);
    ScansAndPushes(cfg, b, credential);
    assert b + [Scan(0), Scan(1), Push(0), Push(1)] == b + [Scan(0)] + [Scan(1)] + [Push(0)] + [Push(1)];
  }

  lemma ScansAndPushes(cfg: Config, b: seq<Action>, credential: Credential)
    requires After(cfg, b).credentials == map[]
    requires After(cfg, b).phases == map[0 := ToScan("alice", credential), 1 := ToScan("bob", credential)]
    ensures !Unique(After(cfg, b + [Scan(0)] + [Scan(1)] + [Push(0)] + [Push(1)]).credentials)
  {
    hide Step;
    AfterAppend(cfg, b, Scan(0));
    AfterAppend(cfg, b + [Scan(0)], Scan(1));
    AfterAppend(cfg, b + [Scan(0)] + [Scan(1)], Push(0));
    AfterAppend(cfg, b + [Scan(0)] + [Scan(1)] + [Push(0)], Push(1));
    BothScans(cfg, After(cfg, b), credential);
    BothPushes(cfg, After(cfg, b + [Scan(0)] + [Scan(1)]), credential);
  }

  lemma BothScans(cfg: Config, s: Server, credential: Credential)
    requires s.credentials == map[]
    requires s.phases == map[0 := ToScan("alice", credential), 1 := ToScan("bob", credential)]
    ensures var t := Step(cfg, Step(cfg, s, Scan(0)).0, Scan(1)).0;
            && t.credentials == map[]
            && t.phases == map[0 := ToPush("alice", credential), 1 := ToPush("bob", credential)]
  {
  }

  lemma BothPushes(cfg: Config, s: Server, credential: Credential)
    requires s.credentials == map[]
    requires s.phases == map[0 := ToPush("alice", credential), 1 := ToPush("bob", credential)]
    ensures !Unique(Step(cfg, Step(cfg, s, Push(0)).0, Push(1)).0.credentials)
  {
    var t: Credentials := Step(cfg, Step(cfg, s, Push(0)).0, Push(1)).0.credentials;
    assert "alice"[0] == 'a' && "bob"[0] == 'b';
    assert t == Pushed(Pushed(map[], "alice", credential), "bob", credential);
    assert t["alice"][0].id == t["bob"][0].id;
  }
}
