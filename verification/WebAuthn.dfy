/**
  The WebAuthn verifier: challenge issue, registration and assertion over one
  credential table shared by all users.

  The functions describe the sections that run without interruption: the
  challenge check, the scan under the read lock and the two updates under the
  write lock. `WebAuthnVerifier` runs them in place; `Step` interleaves them.

  The verifier calls a challenge store with a TTL that consumes what it verifies,
  which is not the trait of the session store. Its contract here is only what the
  verifier relies on: a bind replaces, a verify succeeds exactly on the stored,
  unexpired challenge and then removes it, and a failed verify may keep or drop
  the entry. SHA-256 is a field of the configuration.
 */
module WebAuthn {
  import opened Utf8
  import opened Wrappers

  type u32 = x: int | 0 <= x <= U32_MAX

  const U32_MAX: int := 0xFFFF_FFFF

  datatype Error =
    | ChallengeNotFound
    | RpIdHashMismatch
    | UserPresenceNotSet
    | UserVerificationNotSet
    | CredentialAlreadyExists
    | CredentialNotFound
    | SessionStoreFailure
    | ClientDataJson

  datatype AuthenticatorData = AuthenticatorData(rpIdHash: seq<byte>, up: bool, uv: bool, signCount: u32)

  datatype ClientData = ClientData(ty: string, challenge: string, origin: string)

  datatype Credential = Credential(id: seq<byte>, publicKey: seq<byte>, signCount: u32)

  datatype Config = Config(rpId: string, rpIdHash: seq<byte>, allowedOrigins: seq<string>, challengeTtl: nat)

  datatype Issued = Issued(challenge: string, expiresAt: int)

  type Challenges = map<string, Issued>
  type Credentials = map<string, seq<Credential>>

  const CREATE: string := "create"
  const GET: string := "get"

  // ---------------------------------------------------------------------
  // Challenge check
  // ---------------------------------------------------------------------

  function Key(cfg: Config, operation: string, user: string): string {
    "webauthn:" + operation + ":" + cfg.rpId + ":" + user
  }

  /** The checks on the client data; `None` is JSON that did not parse. */
  function ClientDataError(cfg: Config, ty: string, challenge: string, data: Option<ClientData>): Option<Error> {
    if data.None? then Some(ClientDataJson)
    else if data.value.ty != ty then Some(ChallengeNotFound)
    else if data.value.challenge != challenge then Some(ChallengeNotFound)
    else if data.value.origin !in cfg.allowedOrigins then Some(ChallengeNotFound)
    else None
  }

  function RegistrationError(
    cfg: Config, challenge: string, auth: AuthenticatorData, data: Option<ClientData>): Option<Error>
  {
    if auth.rpIdHash != cfg.rpIdHash then Some(RpIdHashMismatch)
    else if !auth.up then Some(UserPresenceNotSet)
    else if !auth.uv then Some(UserVerificationNotSet)
    else ClientDataError(cfg, "webauthn.create", challenge, data)
  }

  /** User verification is not asked for here. */
  function AuthenticationError(
    cfg: Config, challenge: string, auth: AuthenticatorData, data: Option<ClientData>): Option<Error>
  {
    if auth.rpIdHash != cfg.rpIdHash then Some(RpIdHashMismatch)
    else if !auth.up then Some(UserPresenceNotSet)
    else ClientDataError(cfg, "webauthn.get", challenge, data)
  }

  /** The authenticator and client data are those of an honest ceremony for this challenge. */
  predicate IsSound(cfg: Config, auth: AuthenticatorData, data: Option<ClientData>, ty: string, challenge: string) {
    && auth.rpIdHash == cfg.rpIdHash && auth.up
    && data.Some? && data.value.ty == ty && data.value.challenge == challenge
    && data.value.origin in cfg.allowedOrigins
  }

  /** The first of the checks that fails is the one that answers `e`. */
  predicate FailsFirst(
    cfg: Config, auth: AuthenticatorData, data: Option<ClientData>, ty: string, challenge: string,
    asksUv: bool, e: Error)
  {
    var hashOk, upOk, uvOk := auth.rpIdHash == cfg.rpIdHash, auth.up, asksUv ==> auth.uv;
    match e
    case RpIdHashMismatch => !hashOk
    case UserPresenceNotSet => hashOk && !upOk
    case UserVerificationNotSet => hashOk && upOk && !uvOk
    case ClientDataJson => hashOk && upOk && uvOk && data.None?
    case ChallengeNotFound =>
      && hashOk && upOk && uvOk && data.Some?
      && (data.value.ty != ty || data.value.challenge != challenge || data.value.origin !in cfg.allowedOrigins)
    case _ => false
  }

  /** What a registration asks of its data, and the error for each check. */
  lemma RegistrationErrorExactly(cfg: Config, challenge: string, auth: AuthenticatorData, data: Option<ClientData>)
    ensures RegistrationError(cfg, challenge, auth, data).None? <==>
            auth.uv && IsSound(cfg, auth, data, "webauthn.create", challenge)
    ensures forall e :: RegistrationError(cfg, challenge, auth, data) == Some(e) <==>
                        FailsFirst(cfg, auth, data, "webauthn.create", challenge, true, e)
  {
  }

  /** The same for an authentication, which does not ask for user verification. */
  lemma AuthenticationErrorExactly(cfg: Config, challenge: string, auth: AuthenticatorData, data: Option<ClientData>)
    ensures AuthenticationError(cfg, challenge, auth, data).None? <==>
            IsSound(cfg, auth, data, "webauthn.get", challenge)
    ensures forall e :: AuthenticationError(cfg, challenge, auth, data) == Some(e) <==>
                        FailsFirst(cfg, auth, data, "webauthn.get", challenge, false, e)
  {
  }

  predicate ChallengeMatches(challenges: Challenges, key: string, challenge: string, now: int) {
    key in challenges && challenges[key].challenge == challenge && now < challenges[key].expiresAt
  }

  /** A verify of the challenge store; `drop` is its choice on failure. */
  function Consume(challenges: Challenges, key: string, challenge: string, now: int, drop: bool): Challenges {
    if ChallengeMatches(challenges, key, challenge, now) || drop then challenges - {key} else challenges
  }

  // ---------------------------------------------------------------------
  // The credential table
  // ---------------------------------------------------------------------

  ghost predicate HasId(list: seq<Credential>, id: seq<byte>) {
    exists i :: 0 <= i < |list| && list[i].id == id
  }

  /** Some user has a credential with this id. */
  ghost predicate IsRegistered(credentials: Credentials, id: seq<byte>) {
    exists user :: user in credentials && HasId(credentials[user], id)
  }

  function ListOf(credentials: Credentials, user: string): seq<Credential> {
    if user in credentials then credentials[user] else []
  }

  function Pushed(credentials: Credentials, user: string, credential: Credential): Credentials {
    credentials[user := ListOf(credentials, user) + [credential]]
  }

  /** The first credential of the list with this id. */
  function Find(list: seq<Credential>, id: seq<byte>): (i: Option<nat>)
    ensures i.Some? ==> i.value < |list| && list[i.value].id == id
    ensures i.Some? ==> forall j :: 0 <= j < i.value ==> list[j].id != id
    ensures i.None? ==> forall j :: 0 <= j < |list| ==> list[j].id != id
  {
    if |list| == 0 then None
    else if list[0].id == id then Some(0)
    else
      match Find(list[1..], id)
      case None => assert forall j :: 1 <= j < |list| ==> list[j] == list[1..][j - 1]; None
      case Some(i) => assert forall j :: 1 <= j < |list| ==> list[j] == list[1..][j - 1]; Some(i + 1)
  }

  /** The counter an assertion has to exceed. */
  function StoredCount(credentials: Credentials, user: string, id: seq<byte>): Option<u32> {
    match Find(ListOf(credentials, user), id)
    case None => None
    case Some(i) => Some(ListOf(credentials, user)[i].signCount)
  }

  predicate CounterAdvances(credentials: Credentials, user: string, id: seq<byte>, signCount: u32) {
    StoredCount(credentials, user, id).Some? && signCount > StoredCount(credentials, user, id).value
  }

  function Advanced(credentials: Credentials, user: string, id: seq<byte>, signCount: u32): Credentials
    requires CounterAdvances(credentials, user, id, signCount)
  {
    var list := ListOf(credentials, user);
    var i := Find(list, id).value;
    credentials[user := list[i := list[i].(signCount := signCount)]]
  }

  /** The public key of the credential that is found. */
  function StoredKey(credentials: Credentials, user: string, id: seq<byte>): Option<seq<byte>> {
    match Find(ListOf(credentials, user), id)
    case None => None
    case Some(i) => Some(ListOf(credentials, user)[i].publicKey)
  }

  /** The placeholder signature check: the key of the found credential is not empty. */
  function SignatureOk(credentials: Credentials, user: string, id: seq<byte>): bool {
    StoredKey(credentials, user, id) != Some([])
  }

  /** A registration that nothing interrupts: the new store, the new table and the answer. */
  ghost function RegistrationAlone(
    cfg: Config, challenges: Challenges, credentials: Credentials,
    user: string, challenge: string, auth: AuthenticatorData, data: Option<ClientData>,
    id: seq<byte>, publicKey: seq<byte>, now: int, drop: bool): (Challenges, Credentials, Result<Credential, Error>)
  {
    var failure := RegistrationError(cfg, challenge, auth, data);
    if failure.Some? then (challenges, credentials, Err(failure.value)) else
    var key := Key(cfg, CREATE, user);
    var left := Consume(challenges, key, challenge, now, drop);
    if !ChallengeMatches(challenges, key, challenge, now) then (left, credentials, Err(SessionStoreFailure))
    else if IsRegistered(credentials, id) then (left, credentials, Err(CredentialAlreadyExists))
    else
      var credential := Credential(id, publicKey, auth.signCount);
      (left, Pushed(credentials, user, credential), Ok(credential))
  }

  /** An authentication that nothing interrupts. The counter moves even if the signature then fails. */
  function AuthenticationAlone(
    cfg: Config, challenges: Challenges, credentials: Credentials,
    user: string, challenge: string, auth: AuthenticatorData, data: Option<ClientData>,
    id: seq<byte>, now: int, drop: bool): (Challenges, Credentials, Result<(), Error>)
  {
    var failure := AuthenticationError(cfg, challenge, auth, data);
    if failure.Some? then (challenges, credentials, Err(failure.value)) else
    var key := Key(cfg, GET, user);
    var left := Consume(challenges, key, challenge, now, drop);
    if !ChallengeMatches(challenges, key, challenge, now) then (left, credentials, Err(SessionStoreFailure))
    else if !CounterAdvances(credentials, user, id, auth.signCount) then (left, credentials, Err(CredentialNotFound))
    else
      (left, Advanced(credentials, user, id, auth.signCount),
       if SignatureOk(credentials, user, id) then Ok(()) else Err(CredentialNotFound))
  }

  // ---------------------------------------------------------------------
  // The verifier, in place
  // ---------------------------------------------------------------------

  class WebAuthnVerifier {
    const cfg: Config
    var challenges: Challenges
    var credentials: Credentials

    constructor (cfg: Config)
      ensures this.cfg == cfg && challenges == map[] && credentials == map[]
    {
      this.cfg := cfg;
      challenges := map[];
      credentials := map[];
    }

    /** The random challenge is a parameter. */
    method GenerateChallenge(user: string, operation: string, challenge: string, now: int)
      modifies this`challenges
      ensures forall c, t :: ChallengeMatches(challenges, Key(cfg, operation, user), c, t) <==>
                             c == challenge && t < now + cfg.challengeTtl
      ensures forall key :: key != Key(cfg, operation, user) ==>
                              && (key in challenges <==> key in old(challenges))
                              && (key in challenges ==> challenges[key] == old(challenges)[key])
    {
      challenges := challenges[Key(cfg, operation, user) := Issued(challenge, now + cfg.challengeTtl)];
    }

    method ConsumeChallenge(key: string, challenge: string, now: int, drop: bool) returns (ok: bool)
      modifies this`challenges
      ensures ok == ChallengeMatches(old(challenges), key, challenge, now)
      ensures challenges == Consume(old(challenges), key, challenge, now, drop)
    {
      ok := key in challenges && challenges[key].challenge == challenge && now < challenges[key].expiresAt;
      if ok || drop {
        challenges := challenges - {key};
      }
    }

    /** The scan over every list of every user, in whatever order the map yields them. */
    method ScanForId(id: seq<byte>) returns (found: bool)
      ensures found <==> IsRegistered(credentials, id)
    {
      var users := credentials.Keys;
      while users != {}
        invariant users <= credentials.Keys
        invariant forall u :: u in credentials && u !in users ==> !HasId(credentials[u], id)
        decreases |users|
      {
        var user :| user in users;
        var list := credentials[user];
        for i := 0 to |list|
          invariant forall j :: 0 <= j < i ==> list[j].id != id
        {
          if list[i].id == id {
            assert HasId(credentials[user], id);
            return true;
          }
        }
        users := users - {user};
      }
      return false;
    }

    method PushCredential(user: string, credential: Credential)
      modifies this`credentials
      ensures credentials == Pushed(old(credentials), user, credential)
    {
      if user !in credentials {
        credentials := credentials[user := []];
      }
      credentials := credentials[user := credentials[user] + [credential]];
    }

    /** Lookup, replay check and counter update under the write lock. */
    method AdvanceCounter(user: string, id: seq<byte>, signCount: u32) returns (ok: bool, publicKey: seq<byte>)
      modifies this`credentials
      ensures ok == CounterAdvances(old(credentials), user, id, signCount)
      ensures ok ==> credentials == Advanced(old(credentials), user, id, signCount)
      ensures ok ==> (publicKey != [] <==> SignatureOk(old(credentials), user, id))
      ensures !ok ==> credentials == old(credentials)
    {
      ok, publicKey := false, [];
      if user !in credentials {
        return;
      }
      var list := credentials[user];
      var i := 0;
      while i < |list| && list[i].id != id
        invariant i <= |list|
        invariant forall j :: 0 <= j < i ==> list[j].id != id
      {
        i := i + 1;
      }
      if i == |list| || signCount <= list[i].signCount {
        return;
      }
      credentials := credentials[user := list[i := list[i].(signCount := signCount)]];
      ok, publicKey := true, list[i].publicKey;
    }

    method VerifyRegistration(
      user: string, challenge: string, auth: AuthenticatorData, data: Option<ClientData>,
      id: seq<byte>, publicKey: seq<byte>, now: int, drop: bool)
      returns (r: Result<Credential, Error>)
      modifies this
      ensures (challenges, credentials, r) ==
              RegistrationAlone(cfg, old(challenges), old(credentials), user, challenge, auth, data,
                                id, publicKey, now, drop)
    {
      var failure := RegistrationError(cfg, challenge, auth, data);
      if failure.Some? {
        return Err(failure.value);
      }
      var live := ConsumeChallenge(Key(cfg, CREATE, user), challenge, now, drop);
      if !live {
        return Err(SessionStoreFailure);
      }
      var found := ScanForId(id);
      if found {
        return Err(CredentialAlreadyExists);
      }
      var credential := Credential(id, publicKey, auth.signCount);
      PushCredential(user, credential);
      r := Ok(credential);
    }

    method VerifyAuthentication(
      user: string, challenge: string, auth: AuthenticatorData, data: Option<ClientData>,
      id: seq<byte>, now: int, drop: bool)
      returns (r: Result<(), Error>)
      modifies this
      ensures (challenges, credentials, r) ==
              AuthenticationAlone(cfg, old(challenges), old(credentials), user, challenge, auth, data, id, now, drop)
    {
      var failure := AuthenticationError(cfg, challenge, auth, data);
      if failure.Some? {
        return Err(failure.value);
      }
      var live := ConsumeChallenge(Key(cfg, GET, user), challenge, now, drop);
      if !live {
        return Err(SessionStoreFailure);
      }
      var ok, publicKey := AdvanceCounter(user, id, auth.signCount);
      if !ok {
        return Err(CredentialNotFound);
      }
      // The counter has moved on by the time the signature is looked at.
      r := if publicKey != [] then Ok(()) else Err(CredentialNotFound);
    }

    method ListCredentials(user: string) returns (list: seq<Credential>)
      ensures list == ListOf(credentials, user)
    {
      list := if user in credentials then credentials[user] else [];
    }
  }

  // ---------------------------------------------------------------------
  // Keys
  // ---------------------------------------------------------------------

  /** What a key starts with before the user. */
  function KeyPrefix(cfg: Config, operation: string): string {
    "webauthn:" + operation + ":" + cfg.rpId + ":"
  }

  /** For one operation, keys tell users apart. */
  lemma KeyTellsUsersApart(cfg: Config, operation: string, user: string, user': string)
    requires Key(cfg, operation, user) == Key(cfg, operation, user')
    ensures user == user'
  {
    var p := KeyPrefix(cfg, operation);
    assert Key(cfg, operation, user) == p + user && Key(cfg, operation, user') == p + user';
    assert (p + user)[|p|..] == user && (p + user')[|p|..] == user';
  }

  /**
    Exactly when two operations can collide: some users give them the same key if
    and only if one prefix begins with the other.
   */
  lemma OperationsCollideExactly(cfg: Config, a: string, b: string)
    ensures (exists u, v :: Key(cfg, a, u) == Key(cfg, b, v)) <==>
            KeyPrefix(cfg, a) <= KeyPrefix(cfg, b) || KeyPrefix(cfg, b) <= KeyPrefix(cfg, a)
  {
    var p, q := KeyPrefix(cfg, a), KeyPrefix(cfg, b);
    if p <= q {
      assert p + q[|p|..] == q + "";
      assert Key(cfg, a, q[|p|..]) == Key(cfg, b, "");
    } else if q <= p {
      assert p + "" == q + p[|q|..];
      assert Key(cfg, a, "") == Key(cfg, b, p[|q|..]);
    } else if exists u, v :: Key(cfg, a, u) == Key(cfg, b, v) {
      var u, v :| Key(cfg, a, u) == Key(cfg, b, v);
      PrefixesAgree(p, u, q, v);
    }
  }

  lemma PrefixesAgree(p: string, u: string, q: string, v: string)
    requires p + u == q + v
    ensures p <= q || q <= p
  {
    if |p| <= |q| {
      assert p == (p + u)[..|p|] == (q + v)[..|p|] == q[..|p|];
    } else {
      assert q == (q + v)[..|q|] == (p + u)[..|q|] == p[..|q|];
    }
  }

  /** Operations without a ':' never collide, "create" and "get" among them. */
  lemma PlainOperationsNeverCollide(cfg: Config, a: string, u: string, b: string, v: string)
    requires ':' !in a && ':' !in b && Key(cfg, a, u) == Key(cfg, b, v)
    ensures a == b && u == v
  {
    var tailA, tailB := ":" + cfg.rpId + ":" + u, ":" + cfg.rpId + ":" + v;
    assert Key(cfg, a, u) == "webauthn:" + (a + tailA) && Key(cfg, b, v) == "webauthn:" + (b + tailB);
    assert ("webauthn:" + (a + tailA))[9..] == a + tailA && ("webauthn:" + (b + tailB))[9..] == b + tailB;
    FirstColon(a, tailA, b, tailB);
    KeyTellsUsersApart(cfg, a, u, v);
  }

  lemma FirstColon(a: string, s: string, b: string, t: string)
    requires ':' !in a && ':' !in b && a + s == b + t
    requires |s| > 0 && |t| > 0 && s[0] == ':' && t[0] == ':'
    ensures a == b
  {
    assert (a + s)[|a|] == ':' && (b + t)[|b|] == ':';
    assert forall i :: 0 <= i < |a| ==> (a + s)[i] == a[i];
    assert forall i :: 0 <= i < |b| ==> (b + t)[i] == b[i];
    assert |a| == |b|;
    assert a == (a + s)[..|a|] == (b + t)[..|b|] == b;
  }

  /** An operation that embeds the relying party id reaches another operation's keys. */
  lemma NestedOperationCollides(cfg: Config, bob: string, user: string)
    ensures Key(cfg, CREATE + ":" + cfg.rpId + ":" + bob, user) == Key(cfg, CREATE, bob + ":" + cfg.rpId + ":" + user)
  {
  }
}
