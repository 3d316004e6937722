/**
  What a whole registration and a whole authentication answer, error by error, in
  terms of what was sent and what is stored.
 */
module WebAuthnAnswers {
  import opened Utf8
  import opened WebAuthn
  import opened WebAuthnRuns
  import opened Wrappers

  lemma KeysAreWritten(cfg: Config, user: string)
    ensures Key(cfg, CREATE, user) == "webauthn:create:" + cfg.rpId + ":" + user
    ensures Key(cfg, GET, user) == "webauthn:get:" + cfg.rpId + ":" + user
  {
    assert "webauthn:" + "create" + ":" == "webauthn:create:";
    assert "webauthn:" + "get" + ":" == "webauthn:get:";
  }

  /** Some list of some user holds the id. */
  ghost predicate IsTaken(credentials: Credentials, id: seq<byte>) {
    exists user, i :: user in credentials && 0 <= i < |credentials[user]| && credentials[user][i].id == id
  }

  lemma RegisteredIsTaken(credentials: Credentials, id: seq<byte>)
    ensures IsRegistered(credentials, id) <==> IsTaken(credentials, id)
  {
    if IsRegistered(credentials, id) {
      var user :| user in credentials && HasId(credentials[user], id);
    }
    if IsTaken(credentials, id) {
      var user, i :| user in credentials && 0 <= i < |credentials[user]| && credentials[user][i].id == id;
      assert HasId(credentials[user], id);
    }
  }

  /** The challenge is stored under the key and has not expired. */
  predicate IsLive(challenges: Challenges, key: string, challenge: string, now: int) {
    key in challenges && challenges[key].challenge == challenge && now < challenges[key].expiresAt
  }

  /** Entry `i` is the first of the user's list with this id. */
  predicate IsFirstWithId(credentials: Credentials, user: string, id: seq<byte>, i: nat) {
    && user in credentials && i < |credentials[user]| && credentials[user][i].id == id
    && forall j :: 0 <= j < i ==> credentials[user][j].id != id
  }

  /**
    A registration succeeds exactly when its data is sound and user-verified, its
    challenge is the stored one and has not expired, and no user has the id. Then the
    credential is appended to the user's list; otherwise the table stays as it was.
   */
  lemma RegistrationAnswersExactly(
    cfg: Config, challenges: Challenges, credentials: Credentials,
    user: string, challenge: string, auth: AuthenticatorData, data: Option<ClientData>,
    id: seq<byte>, publicKey: seq<byte>, now: int, drop: bool)
    ensures var (left, table, r) := RegistrationAlone(
              cfg, challenges, credentials, user, challenge, auth, data, id, publicKey, now, drop);
            var key := "webauthn:create:" + cfg.rpId + ":" + user;
            var credential := Credential(id, publicKey, auth.signCount);
            var sound := auth.uv && IsSound(cfg, auth, data, "webauthn.create", challenge);
            var live := IsLive(challenges, key, challenge, now);
            && (r.Ok? <==> sound && live && !IsTaken(credentials, id))
            && (r.Ok? ==> r.value == credential
                          && table == credentials[user := ListOf(credentials, user) + [credential]])
            && (r.Err? ==> table == credentials)
            && (r == Err(CredentialAlreadyExists) <==> sound && live && IsTaken(credentials, id))
            && (r == Err(SessionStoreFailure) <==> sound && !live)
            && (forall e :: FailsFirst(cfg, auth, data, "webauthn.create", challenge, true, e) ==> r == Err(e))
            && left == if sound && (live || drop) then challenges - {key} else challenges
  {
    hide RegistrationError;
    hide Key;
    hide IsRegistered;
    hide IsTaken;
    KeysAreWritten(cfg, user);
    RegistrationErrorExactly(cfg, challenge, auth, data);
    RegisteredIsTaken(credentials, id);
  }

  /** What an authentication finds: the user's first credential with the id, with a smaller counter. */
  predicate FindsBelow(credentials: Credentials, user: string, id: seq<byte>, signCount: u32, i: nat) {
    IsFirstWithId(credentials, user, id, i) && credentials[user][i].signCount < signCount
  }

  lemma FindsBelowExactly(credentials: Credentials, user: string, id: seq<byte>, signCount: u32)
    ensures CounterAdvances(credentials, user, id, signCount) <==>
            exists i: nat :: FindsBelow(credentials, user, id, signCount, i)
    ensures forall i: nat :: FindsBelow(credentials, user, id, signCount, i) ==>
              && StoredKey(credentials, user, id) == Some(credentials[user][i].publicKey)
              && Advanced(credentials, user, id, signCount) ==
                 credentials[user := credentials[user][i := credentials[user][i].(signCount := signCount)]]
  {
    if CounterAdvances(credentials, user, id, signCount) {
      assert FindsBelow(credentials, user, id, signCount, Find(credentials[user], id).value);
    }
    forall i: nat | FindsBelow(credentials, user, id, signCount, i)
      ensures Find(ListOf(credentials, user), id) == Some(i)
    {
      FindIs(credentials[user], id, i);
    }
  }

  /**
    An authentication succeeds exactly when its data is sound, its challenge is the
    stored one and has not expired, and the user's first credential with the id has a
    smaller counter and a key that is not empty. The counter moves whatever the key.
   */
  lemma AuthenticationAnswersExactly(
    cfg: Config, challenges: Challenges, credentials: Credentials,
    user: string, challenge: string, auth: AuthenticatorData, data: Option<ClientData>,
    id: seq<byte>, now: int, drop: bool)
    ensures var (left, table, r) := AuthenticationAlone(
              cfg, challenges, credentials, user, challenge, auth, data, id, now, drop);
            var key := "webauthn:get:" + cfg.rpId + ":" + user;
            var sound := IsSound(cfg, auth, data, "webauthn.get", challenge);
            var live := IsLive(challenges, key, challenge, now);
            && (r.Ok? <==> sound && live && exists i: nat :: FindsBelow(credentials, user, id, auth.signCount, i)
                                                        && credentials[user][i].publicKey != [])
            && (r == Err(CredentialNotFound) <==>
                  sound && live && forall i: nat :: FindsBelow(credentials, user, id, auth.signCount, i) ==>
                                               credentials[user][i].publicKey == [])
            && (r == Err(SessionStoreFailure) <==> sound && !live)
            && (forall e :: FailsFirst(cfg, auth, data, "webauthn.get", challenge, false, e) ==> r == Err(e))
            && (forall i: nat :: FindsBelow(credentials, user, id, auth.signCount, i) && sound && live ==>
                  var moved := credentials[user][i].(signCount := auth.signCount);
                  table == credentials[user := credentials[user][i := moved]])
            && ((!sound || !live || forall i: nat :: !FindsBelow(credentials, user, id, auth.signCount, i)) ==>
                  table == credentials)
            && left == if sound && (live || drop) then challenges - {key} else challenges
  {
    hide AuthenticationError;
    hide Key;
    hide CounterAdvances;
    hide Advanced;
    hide StoredKey;
    hide IsFirstWithId;
    KeysAreWritten(cfg, user);
    AuthenticationErrorExactly(cfg, challenge, auth, data);
    FindsBelowExactly(credentials, user, id, auth.signCount);
  }
}
