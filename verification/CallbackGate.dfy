/**
  The gate in front of an OAuth callback: it reads the `state` parameter and a
  session cookie out of the request and asks the store whether they belong
  together.
 */
module CallbackGate {
  import opened Percent
  import opened SessionStore
  import opened SessionStoreRuns
  import opened Text
  import opened Utf8
  import opened Wrappers

  /** The two parts of a request the gate looks at: the query and the Cookie headers. */
  datatype Request = Request(query: Option<string>, cookies: seq<seq<byte>>)

  datatype Outcome = Passed | Rejected

  const STATE_MAX_LEN: nat := 1024

  // ---------------------------------------------------------------------
  // Reading the request
  // ---------------------------------------------------------------------

  function NamedParam(pair: string, key: string): Option<string> {
    match SplitOnce(pair, '=')
    case None => None
    case Some((name, value)) => if name == key then Some(value) else None
  }

  function ParamReader(key: string): string -> Option<string> {
    pair => NamedParam(pair, key)
  }

  function QueryParam(query: string, key: string): Option<string> {
    FindMap(Split(query, '&'), ParamReader(key))
  }

  /** A cookie pair, its name and value trimmed. */
  function CookiePair(pair: string): Option<(string, string)> {
    match SplitOnce(Trim(pair), '=')
    case None => None
    case Some((name, value)) => Some((Trim(name), Trim(value)))
  }

  function NamedCookie(pair: string, key: string): Option<string> {
    match CookiePair(pair)
    case None => None
    case Some((name, value)) => if name == key then Some(value) else None
  }

  function CookieReader(key: string): string -> Option<string> {
    pair => NamedCookie(pair, key)
  }

  function CookieValue(header: string, key: string): Option<string> {
    FindMap(Split(header, ';'), CookieReader(key))
  }

  function OrElse<T>(a: Option<T>, b: Option<T>): Option<T> {
    if a.Some? then a else b
  }

  /** The first of the four cookie names that is present, in this order. */
  function SessionCookie(header: string): Option<string> {
    OrElse(CookieValue(header, "session_id"),
    OrElse(CookieValue(header, "authkit_session"),
    OrElse(CookieValue(header, "authvault_session"),
    CookieValue(header, "sid"))))
  }

  /** Visible ASCII, spaces and tabs. */
  predicate IsHeaderText(header: seq<byte>) {
    forall i :: 0 <= i < |header| ==> header[i] == 9 || 32 <= header[i] < 127
  }

  /** `HeaderValue::to_str`: any other byte is an error. */
  function HeaderText(header: seq<byte>): Option<string> {
    if IsHeaderText(header) then
      Some(seq(|header|, i requires 0 <= i < |header| => header[i] as char))
    else None
  }

  function ExtractSessionId(request: Request): Option<string> {
    if |request.cookies| == 0 then None else
    var header :- HeaderText(request.cookies[0]);
    SessionCookie(header)
  }

  function ExtractStateToken(request: Request): Option<string> {
    var query :- request.query;
    var raw :- QueryParam(query, "state");
    var decoded :- UrlDecode(raw);
    if |Utf8.Encode(decoded)| > STATE_MAX_LEN then None else Some(decoded)
  }

  // ---------------------------------------------------------------------
  // The decision
  // ---------------------------------------------------------------------

  function GateOutcome(cfg: Config, calls: seq<Call>, request: Request, now: int): Outcome {
    match (ExtractStateToken(request), ExtractSessionId(request))
    case (Some(token), Some(sessionId)) =>
      if AnswerTo(cfg, calls, Verify(token, sessionId, now)) == Verified(true) then Passed else Rejected
    case _ => Rejected
  }

  /** The store is asked once, and only when the request carries both parts. */
  function GateCalls(request: Request, now: int): seq<Call> {
    match (ExtractStateToken(request), ExtractSessionId(request))
    case (Some(token), Some(sessionId)) => [Verify(token, sessionId, now)]
    case _ => []
  }

  method EnforcePkceStateSession(store: InMemorySessionStore, request: Request, now: int) returns (outcome: Outcome)
    requires store.Valid()
    modifies store
    ensures store.Valid()
    ensures outcome == GateOutcome(store.cfg, old(store.calls), request, now)
    ensures store.calls == old(store.calls) + GateCalls(request, now)
    ensures |store.calls| <= |old(store.calls)| + 1
    ensures ExtractStateToken(request).None? || ExtractSessionId(request).None? ==>
              outcome == Rejected && store.calls == old(store.calls) && store.entries == old(store.entries)
  {
    var token := ExtractStateToken(request);
    if token.None? {
      return Rejected;
    }
    var sessionId := ExtractSessionId(request);
    if sessionId.None? {
      return Rejected;
    }
    var verdict := store.VerifyState(token.value, sessionId.value, now);
    outcome := if verdict == Verified(true) then Passed else Rejected;
  }

  /**
    Safety and completeness: a callback passes exactly when it carries a decoded
    state of at most 1024 bytes and a session cookie, and the last accepted bind
    or revoke of that state, in the whole history, bound it to that session less
    than a TTL ago.
   */
  lemma GateSafeAndComplete(cfg: Config, calls: seq<Call>, request: Request, now: int)
    requires ClockNeverGoesBack(calls + [Verify("", "", now)])
    ensures GateOutcome(cfg, calls, request, now) == Passed <==>
            exists token, sessionId, t0 ::
              && ExtractStateToken(request) == Some(token)
              && ExtractSessionId(request) == Some(sessionId)
              && LastEvent(LogAfter(cfg, calls), token) == Some(Inserted(token, sessionId, t0))
              && now < t0 + cfg.ttl
  {
    match (ExtractStateToken(request), ExtractSessionId(request))
    case (Some(token), Some(sessionId)) =>
      var verify := Verify(token, sessionId, now);
      ClockSplit(calls, Verify("", "", now));
      assert ReadingsOf(verify) == ReadingsOf(Verify("", "", now));
      ClockAppend(calls, verify);
      AnswersMatchLog(cfg, calls, verify);
      var e := LastEvent(LogAfter(cfg, calls), token);
      if e.Some? && e.value.Inserted? {
        assert e == Some(Inserted(token, e.value.sessionId, e.value.at));
      }
    case _ =>
  }

  /**
    The same with any clock at all: a callback passes exactly when some accepted bind
    of its state to its session has been neither replaced, revoked nor outlived by a
    reading since, and is not yet due.
   */
  lemma GatePassesExactly(cfg: Config, calls: seq<Call>, request: Request, now: int)
    ensures GateOutcome(cfg, calls, request, now) == Passed <==>
            exists token, sessionId, i: nat ::
              && ExtractStateToken(request) == Some(token)
              && ExtractSessionId(request) == Some(sessionId)
              && Holds(cfg, calls, token, i) && calls[i].sessionId == sessionId
              && now < ExpiryOf(cfg, calls[i])
  {
    hide ExtractStateToken;
    hide ExtractSessionId;
    hide Holds;
    match (ExtractStateToken(request), ExtractSessionId(request))
    case (Some(token), Some(sessionId)) =>
      VerifyExactly(cfg, calls, token, sessionId, now);
    case _ =>
  }

  // ---------------------------------------------------------------------
  // The state parameter
  // ---------------------------------------------------------------------

  lemma SafeHasNoDelimiter(s: string, c: char)
    requires AllSafe(s) && c in "&=:?;"
    ensures c !in s
  {
    assert !IsSafe(c);
  }

  /** A pair carries the value after `key` and '=', and nothing else carries one: there is no '=' to skip. */
  lemma NamedParamExactly(pair: string, key: string)
    requires '=' !in key
    ensures forall value :: NamedParam(pair, key) == Some(value) <==> pair == key + "=" + value
    ensures NamedParam(pair, key).Some? <==> key + "=" <= pair
  {
    SplitOnceExactly(pair, '=');
    if key + "=" <= pair {
      assert pair == key + "=" + pair[|key| + 1..];
    }
  }

  /** Piece `i` is the first one that starts with `key` and '=', and `value` follows. */
  predicate IsFirstNamed(pieces: seq<string>, key: string, i: nat, value: string) {
    && i < |pieces| && pieces[i] == key + "=" + value
    && forall j :: 0 <= j < i ==> !(key + "=" <= pieces[j])
  }

  lemma FirstNamedIsFound(pieces: seq<string>, key: string, i: nat, value: string)
    requires '=' !in key && IsFirstNamed(pieces, key, i, value)
    ensures FindMap(pieces, ParamReader(key)) == Some(value)
  {
    hide NamedParam;
    forall j | 0 <= j <= i
      ensures ParamReader(key)(pieces[j]) == NamedParam(pieces[j], key)
      ensures NamedParam(pieces[j], key) == if j == i then Some(value) else None
    {
      NamedParamExactly(pieces[j], key);
    }
    FindMapFirst(pieces, ParamReader(key), i);
  }

  /** A query joined from pieces answers with the first piece named `key`. */
  lemma QueryParamFirst(pieces: seq<string>, key: string, i: nat, value: string)
    requires '=' !in key && IsFirstNamed(pieces, key, i, value)
    requires forall j :: 0 <= j < |pieces| ==> '&' !in pieces[j]
    ensures QueryParam(Join(pieces, '&'), key) == Some(value)
  {
    SplitJoin(pieces, '&');
    FirstNamedIsFound(pieces, key, i, value);
  }

  lemma FirstNamedIsRead(query: string, key: string, i: nat, raw: string)
    requires '=' !in key && IsFirstNamed(Split(query, '&'), key, i, raw)
    ensures QueryParam(query, key) == Some(raw)
  {
    FirstNamedIsFound(Split(query, '&'), key, i, raw);
  }

  lemma ReadIsFirstNamed(query: string, key: string) returns (i: nat)
    requires '=' !in key && QueryParam(query, key).Some?
    ensures IsFirstNamed(Split(query, '&'), key, i, QueryParam(query, key).value)
  {
    hide NamedParam;
    var pieces := Split(query, '&');
    i := FindMapExactly(pieces, ParamReader(key));
    forall j | 0 <= j < |pieces|
      ensures ParamReader(key)(pieces[j]) == NamedParam(pieces[j], key)
      ensures NamedParam(pieces[j], key).Some? <==> key + "=" <= pieces[j]
    {
      NamedParamExactly(pieces[j], key);
    }
    NamedParamExactly(pieces[i], key);
  }

  lemma UrlDecodeExactly(raw: string, token: string)
    ensures UrlDecode(raw) == Some(token) <==> DecodeBytes(Utf8.Encode(raw)) == Utf8.Encode(token)
  {
    Utf8.DecodeEncode(token);
  }

  /** Some text `raw` is the first value named `state`, and it stands for the bytes of `token`. */
  ghost predicate StateStandsFor(query: string, token: string) {
    exists i: nat, raw: string ::
      && IsFirstNamed(Split(query, '&'), "state", i, raw)
      && DecodeBytes(Utf8.Encode(raw)) == Utf8.Encode(token)
  }

  lemma StandsForIsExtracted(query: string, cookies: seq<seq<byte>>, token: string)
    requires StateStandsFor(query, token)
    ensures ExtractStateToken(Request(Some(query), cookies)) ==
            if |Utf8.Encode(token)| <= 1024 then Some(token) else None
  {
    var i: nat, raw: string :| && IsFirstNamed(Split(query, '&'), "state", i, raw)
                               && DecodeBytes(Utf8.Encode(raw)) == Utf8.Encode(token);
    FirstNamedIsRead(query, "state", i, raw);
    UrlDecodeExactly(raw, token);
  }

  lemma ExtractedStandsFor(query: string, cookies: seq<seq<byte>>, token: string)
    requires ExtractStateToken(Request(Some(query), cookies)) == Some(token)
    ensures StateStandsFor(query, token) && |Utf8.Encode(token)| <= 1024
  {
    var raw := QueryParam(query, "state").value;
    var i := ReadIsFirstNamed(query, "state");
    UrlDecodeExactly(raw, token);
    assert IsFirstNamed(Split(query, '&'), "state", i, raw);
  }

  /**
    Exactly what the extracted state is: the token whose UTF-8 bytes are what the
    first `state` value of the query percent-decodes to, if they are at most 1024.
   */
  lemma StateTokenExactly(request: Request, token: string)
    ensures ExtractStateToken(request) == Some(token) <==>
            && request.query.Some? && |Utf8.Encode(token)| <= 1024
            && StateStandsFor(request.query.value, token)
  {
    if request.query.Some? {
      if StateStandsFor(request.query.value, token) {
        StandsForIsExtracted(request.query.value, request.cookies, token);
      }
      if ExtractStateToken(request) == Some(token) {
        ExtractedStandsFor(request.query.value, request.cookies, token);
      }
    }
  }

  lemma NamedParamOf(key: string, value: string)
    requires '=' !in key
    ensures NamedParam(key + "=" + value, key) == Some(value)
  {
    SplitOnceAt(key, '=', value);
  }

  /** Other pairs around `state`: any pieces, but none before it starts with "state=". */
  predicate AreOtherPairs(before: seq<string>, after: seq<string>) {
    && (forall i :: 0 <= i < |before| ==> '&' !in before[i] && !("state" + "=" <= before[i]))
    && (forall i :: 0 <= i < |after| ==> '&' !in after[i])
  }

  lemma EncodedPairIsRead(token: string, before: seq<string>, after: seq<string>)
    requires AreOtherPairs(before, after)
    ensures QueryParam(Join(before + ["state" + "=" + UrlEncode(token)] + after, '&'), "state") ==
            Some(UrlEncode(token))
  {
    hide UrlEncode;
    UrlDecodeEncode(token);
    SafeHasNoDelimiter(UrlEncode(token), '&');
    var pair := "state" + "=" + UrlEncode(token);
    var pieces := before + [pair] + after;
    assert pieces[|before|] == pair;
    QueryParamFirst(pieces, "state", |before|, UrlEncode(token));
  }

  /**
    State round trip: a percent-encoded token, first of its name among any other
    pairs, with or without '=', is extracted unchanged, up to 1024 bytes.
   */
  lemma StateRoundTrip(token: string, before: seq<string>, after: seq<string>, cookies: seq<seq<byte>>)
    requires AreOtherPairs(before, after)
    ensures var query := Join(before + ["state" + "=" + UrlEncode(token)] + after, '&');
            ExtractStateToken(Request(Some(query), cookies)) ==
            if |Utf8.Encode(token)| <= 1024 then Some(token) else None
  {
    hide QueryParam;
    hide Join;
    hide UrlEncode;
    hide UrlDecode;
    EncodedPairIsRead(token, before, after);
    UrlDecodeEncode(token);
  }

  // ---------------------------------------------------------------------
  // The session cookie
  // ---------------------------------------------------------------------

  ghost predicate Occurs(pieces: seq<string>, key: string) {
    exists i :: 0 <= i < |pieces| && NamedCookie(pieces[i], key).Some?
  }

  /** No two pieces give `key` different values. */
  ghost predicate AgreeOn(pieces: seq<string>, key: string) {
    forall i, j :: 0 <= i < |pieces| && 0 <= j < |pieces|
                   && NamedCookie(pieces[i], key).Some? && NamedCookie(pieces[j], key).Some? ==>
                     NamedCookie(pieces[i], key) == NamedCookie(pieces[j], key)
  }

  /** The cookie name the gate takes its session id from. */
  ghost function ChosenName(pieces: seq<string>): Option<string> {
    if Occurs(pieces, "session_id") then Some("session_id")
    else if Occurs(pieces, "authkit_session") then Some("authkit_session")
    else if Occurs(pieces, "authvault_session") then Some("authvault_session")
    else if Occurs(pieces, "sid") then Some("sid")
    else None
  }

  /** Piece `i` of a cookie header is the first one named `key`, and its value is `value`. */
  predicate IsFirstCookie(pieces: seq<string>, key: string, i: nat, value: string) {
    && i < |pieces| && NamedCookie(pieces[i], key) == Some(value)
    && forall j :: 0 <= j < i ==> NamedCookie(pieces[j], key).None?
  }

  /** The first of the pieces named `key` has this value. */
  ghost predicate FirstCookieIs(pieces: seq<string>, key: string, value: string) {
    exists i: nat :: IsFirstCookie(pieces, key, i, value)
  }

  lemma FirstCookieIsRead(header: string, key: string, i: nat, value: string)
    requires IsFirstCookie(Split(header, ';'), key, i, value)
    ensures CookieValue(header, key) == Some(value)
  {
    FindMapFirst(Split(header, ';'), CookieReader(key), i);
  }

  lemma ReadIsFirstCookie(header: string, key: string) returns (i: nat)
    requires CookieValue(header, key).Some?
    ensures IsFirstCookie(Split(header, ';'), key, i, CookieValue(header, key).value)
  {
    var pieces := Split(header, ';');
    i := FindMapExactly(pieces, CookieReader(key));
    assert forall j :: 0 <= j < |pieces| ==> CookieReader(key)(pieces[j]) == NamedCookie(pieces[j], key);
  }

  lemma ReadIffOccurs(header: string, key: string)
    ensures CookieValue(header, key).Some? <==> Occurs(Split(header, ';'), key)
  {
    var pieces := Split(header, ';');
    var i := FindMapExactly(pieces, CookieReader(key));
    assert forall j :: 0 <= j < |pieces| ==> CookieReader(key)(pieces[j]) == NamedCookie(pieces[j], key);
  }

  /** Of the pieces with one name, the first one wins. */
  lemma CookieValueExactly(header: string, key: string, value: string)
    ensures CookieValue(header, key) == Some(value) <==>
            FirstCookieIs(Split(header, ';'), key, value)
  {
    hide CookieValue;
    hide IsFirstCookie;
    if CookieValue(header, key) == Some(value) {
      var i := ReadIsFirstCookie(header, key);
    }
    if FirstCookieIs(Split(header, ';'), key, value) {
      var i: nat :| IsFirstCookie(Split(header, ';'), key, i, value);
      FirstCookieIsRead(header, key, i, value);
    }
  }

  lemma ChosenExactly(header: string)
    ensures var name := ChosenName(Split(header, ';'));
            SessionCookie(header) == if name.None? then None else CookieValue(header, name.value)
  {
    hide CookieValue;
    hide Occurs;
    ReadIffOccurs(header, "session_id");
    ReadIffOccurs(header, "authkit_session");
    ReadIffOccurs(header, "authvault_session");
    ReadIffOccurs(header, "sid");
  }

  /** Some piece of the header is the first to carry the chosen name, and carries this value. */
  ghost predicate CookieStandsFor(header: string, sessionId: string) {
    var pieces := Split(header, ';');
    ChosenName(pieces).Some? && FirstCookieIs(pieces, ChosenName(pieces).value, sessionId)
  }

  /** The text is the header's bytes, each a visible ASCII character, a space or a tab. */
  predicate IsTextOf(text: string, header: seq<byte>) {
    && |text| == |header|
    && forall i :: 0 <= i < |header| ==> text[i] as int == header[i] && (header[i] == 9 || 32 <= header[i] <= 126)
  }

  ghost predicate HeaderStandsFor(header: seq<byte>, sessionId: string) {
    exists text :: IsTextOf(text, header) && CookieStandsFor(text, sessionId)
  }

  lemma HeaderTextExactly(header: seq<byte>, text: string)
    ensures HeaderText(header) == Some(text) <==> IsTextOf(text, header)
  {
    if IsTextOf(text, header) {
      assert HeaderText(header).value == text;
    }
  }

  /**
    Exactly what the extracted session id is: the value of the first piece, in the
    first Cookie header, that carries the best-ranked name present, if that header
    is visible ASCII, spaces and tabs.
   */
  lemma SessionIdExactly(request: Request, sessionId: string)
    ensures ExtractSessionId(request) == Some(sessionId) <==>
            |request.cookies| > 0 && HeaderStandsFor(request.cookies[0], sessionId)
  {
    hide SessionCookie;
    hide HeaderText;
    hide CookieStandsFor;
    hide IsTextOf;
    if |request.cookies| > 0 {
      var header := request.cookies[0];
      forall text | IsTextOf(text, header)
        ensures HeaderText(header) == Some(text)
      {
        HeaderTextExactly(header, text);
      }
      if HeaderText(header).Some? {
        HeaderTextExactly(header, HeaderText(header).value);
        SessionCookieExactly(HeaderText(header).value, sessionId);
      }
    }
  }

  lemma SessionCookieExactly(header: string, sessionId: string)
    ensures SessionCookie(header) == Some(sessionId) <==> CookieStandsFor(header, sessionId)
  {
    hide SessionCookie;
    hide CookieValue;
    hide ChosenName;
    ChosenExactly(header);
    if ChosenName(Split(header, ';')).Some? {
      CookieValueExactly(header, ChosenName(Split(header, ';')).value, sessionId);
    }
  }

  ghost predicate ArePieces(pieces: seq<string>) {
    |pieces| > 0 && forall i :: 0 <= i < |pieces| ==> ';' !in pieces[i]
  }

  lemma CookieValuePresent(pieces: seq<string>, key: string)
    requires ArePieces(pieces)
    ensures CookieValue(Join(pieces, ';'), key).Some? <==> Occurs(pieces, key)
    ensures CookieValue(Join(pieces, ';'), key).Some? ==>
              exists i :: 0 <= i < |pieces| && NamedCookie(pieces[i], key) == CookieValue(Join(pieces, ';'), key)
    ensures NamedCookie(pieces[0], key).Some? ==> CookieValue(Join(pieces, ';'), key) == NamedCookie(pieces[0], key)
  {
    SplitJoin(pieces, ';');
    var header := Join(pieces, ';');
    ReadIffOccurs(header, key);
    if CookieValue(header, key).Some? {
      var i := ReadIsFirstCookie(header, key);
    }
    if NamedCookie(pieces[0], key).Some? {
      FirstCookieIsRead(header, key, 0, NamedCookie(pieces[0], key).value);
    }
  }

  lemma SessionCookieChosen(pieces: seq<string>)
    requires ArePieces(pieces)
    ensures SessionCookie(Join(pieces, ';')) ==
            if ChosenName(pieces).None? then None
            else CookieValue(Join(pieces, ';'), ChosenName(pieces).value)
    ensures ChosenName(pieces).Some? ==> Occurs(pieces, ChosenName(pieces).value)
  {
    hide CookieValue;
    SplitJoin(pieces, ';');
    ChosenExactly(Join(pieces, ';'));
  }

  lemma PermutationKeeps(p: seq<string>, q: seq<string>)
    requires multiset(p) == multiset(q)
    ensures |p| == |q|
    ensures ArePieces(p) ==> ArePieces(q)
    ensures forall s :: s in p <==> s in q
    ensures forall key :: Occurs(p, key) <==> Occurs(q, key)
  {
    assert |multiset(p)| == |p| && |multiset(q)| == |q|;
    assert forall s :: s in p <==> s in multiset(p);
    assert forall s :: s in q <==> s in multiset(q);
    assert forall i :: 0 <= i < |p| ==> p[i] in q;
    assert forall i :: 0 <= i < |q| ==> q[i] in p;
    forall key
      ensures Occurs(p, key) <==> Occurs(q, key)
    {
      if Occurs(p, key) {
        var i :| 0 <= i < |p| && NamedCookie(p[i], key).Some?;
        var j :| 0 <= j < |q| && q[j] == p[i];
      }
      if Occurs(q, key) {
        var i :| 0 <= i < |q| && NamedCookie(q[i], key).Some?;
        var j :| 0 <= j < |p| && p[j] == q[i];
      }
    }
  }

  lemma PermutationChoosesSame(p: seq<string>, q: seq<string>)
    requires ArePieces(p) && multiset(p) == multiset(q)
    ensures ArePieces(q) && ChosenName(p) == ChosenName(q)
  {
    PermutationKeeps(p, q);
  }

  lemma CookieValueOfPermutation(p: seq<string>, q: seq<string>, key: string)
    requires ArePieces(p) && ArePieces(q) && multiset(p) == multiset(q)
    requires AgreeOn(p, key) && Occurs(p, key)
    ensures CookieValue(Join(p, ';'), key) == CookieValue(Join(q, ';'), key)
  {
    PermutationKeeps(p, q);
    CookieValuePresent(p, key);
    CookieValuePresent(q, key);
    var i :| 0 <= i < |p| && NamedCookie(p[i], key) == CookieValue(Join(p, ';'), key);
    var j :| 0 <= j < |q| && NamedCookie(q[j], key) == CookieValue(Join(q, ';'), key);
    assert q[j] in p;
    var k :| 0 <= k < |p| && p[k] == q[j];
  }

  /** If the chosen cookie has one value, every order of the pairs gives the same session id. */
  lemma CookieOrderIsIrrelevant(p: seq<string>, q: seq<string>)
    requires ArePieces(p) && multiset(p) == multiset(q)
    requires ChosenName(p).Some? ==> AgreeOn(p, ChosenName(p).value)
    ensures SessionCookie(Join(p, ';')) == SessionCookie(Join(q, ';'))
  {
    PermutationChoosesSame(p, q);
    SessionCookieChosen(p);
    SessionCookieChosen(q);
    if ChosenName(p).Some? {
      CookieValueOfPermutation(p, q, ChosenName(p).value);
    }
  }

  /** The pieces with the one at `i` moved to the front. */
  function MovedToFront(pieces: seq<string>, i: nat): (moved: seq<string>)
    requires i < |pieces|
    ensures multiset(moved) == multiset(pieces)
  {
    assert pieces == pieces[..i] + [pieces[i]] + pieces[i + 1..];
    [pieces[i]] + (pieces[..i] + pieces[i + 1..])
  }

  lemma MovedToFrontDecides(pieces: seq<string>, i: nat)
    requires ArePieces(pieces) && i < |pieces|
    requires ChosenName(pieces).Some? && NamedCookie(pieces[i], ChosenName(pieces).value).Some?
    ensures SessionCookie(Join(MovedToFront(pieces, i), ';')) == NamedCookie(pieces[i], ChosenName(pieces).value)
  {
    var moved := MovedToFront(pieces, i);
    PermutationChoosesSame(pieces, moved);
    SessionCookieChosen(moved);
    CookieValuePresent(moved, ChosenName(pieces).value);
  }

  /**
    Exactly when the order of cookies does not matter: the session id is the same
    for every permutation of the pairs if and only if no two pairs give the chosen
    cookie different values. Distinct names are enough.
   */
  lemma CookieOrderExactly(pieces: seq<string>)
    requires ArePieces(pieces)
    ensures (forall q :: multiset(q) == multiset(pieces) ==>
                           SessionCookie(Join(q, ';')) == SessionCookie(Join(pieces, ';')))
            <==> (ChosenName(pieces).Some? ==> AgreeOn(pieces, ChosenName(pieces).value))
  {
    if ChosenName(pieces).Some? ==> AgreeOn(pieces, ChosenName(pieces).value) {
      forall q | multiset(q) == multiset(pieces)
        ensures SessionCookie(Join(q, ';')) == SessionCookie(Join(pieces, ';'))
      {
        CookieOrderIsIrrelevant(pieces, q);
      }
    } else {
      var key := ChosenName(pieces).value;
      var i, j :| 0 <= i < |pieces| && 0 <= j < |pieces|
                  && NamedCookie(pieces[i], key).Some? && NamedCookie(pieces[j], key).Some?
                  && NamedCookie(pieces[i], key) != NamedCookie(pieces[j], key);
      MovedToFrontDecides(pieces, i);
      MovedToFrontDecides(pieces, j);
      var p, q := MovedToFront(pieces, i), MovedToFront(pieces, j);
      assert multiset(p) == multiset(pieces) && multiset(q) == multiset(pieces);
    }
  }

  lemma {:induction false} TrimStartStops(front: string, c: char, back: string)
    requires !IsWhitespace(c)
    ensures TrimStart(front + [c] + back) == TrimStart(front) + [c] + back
  {
    if |front| > 0 && IsWhitespace(front[0]) {
      assert (front + [c] + back)[1..] == front[1..] + [c] + back;
      TrimStartStops(front[1..], c, back);
    }
  }

  lemma {:induction false} TrimEndStops(front: string, c: char, back: string)
    requires !IsWhitespace(c)
    ensures TrimEnd(front + [c] + back) == front + [c] + TrimEnd(back)
  {
    var s := front + [c] + back;
    if |back| > 0 && IsWhitespace(back[|back| - 1]) {
      assert s[..|s| - 1] == front + [c] + back[..|back| - 1];
      TrimEndStops(front, c, back[..|back| - 1]);
    }
  }

  /** Optional whitespace around a cookie's name and value is invisible. */
  lemma PaddedCookieParses(b0: string, name: string, b1: string, b2: string, value: string, b3: string)
    requires IsBlank(b0) && IsBlank(b1) && IsBlank(b2) && IsBlank(b3)
    requires '=' !in name && IsTrimmed(name) && IsTrimmed(value)
    ensures CookiePair(b0 + name + b1 + "=" + (b2 + value + b3)) == Some((name, value))
  {
    // '=' is not whitespace, so it stops both trims.
    var front, back := b0 + name + b1, b2 + value + b3;
    TrimStartStops(front, '=', back);
    TrimEndStops(TrimStart(front), '=', back);
    TrimStartHalf(b0, name, b1);
    TrimEndHalf(b2, value, b3);
    SplitOnceAt(TrimStart(front), '=', TrimEnd(back));
  }

  /** Spaces and tabs only. */
  predicate IsSpacing(s: string) {
    forall c :: c in s ==> c == ' ' || c == '\t'
  }

  /** Neither end is anything but a visible ASCII character. */
  predicate IsTight(s: string) {
    |s| > 0 ==> 0x21 <= s[0] as int <= 0x7E && 0x21 <= s[|s| - 1] as int <= 0x7E
  }

  /** ASCII text of visible characters, spaces and tabs. */
  predicate IsHeaderLine(s: string) {
    forall c :: c in s ==> c == '\t' || 0x20 <= c as int <= 0x7E
  }

  lemma SpacingIsBlank(s: string)
    ensures IsHeaderLine(s) ==> (IsBlank(s) <==> IsSpacing(s))
    ensures IsSpacing(s) ==> IsBlank(s)
    ensures IsHeaderLine(s) ==> (IsTrimmed(s) <==> IsTight(s))
    ensures IsTight(s) ==> IsTrimmed(s)
  {
    assert forall c :: c in s <==> exists i :: 0 <= i < |s| && s[i] == c;
    assert forall i :: 0 <= i < |s| ==> s[i] in s;
  }

  /** Spaces and tabs around a cookie's name and value are invisible. */
  lemma SpacedCookieParses(b0: string, name: string, b1: string, b2: string, value: string, b3: string)
    requires IsSpacing(b0) && IsSpacing(b1) && IsSpacing(b2) && IsSpacing(b3)
    requires '=' !in name && IsTight(name) && IsTight(value)
    ensures CookiePair(b0 + name + b1 + "=" + (b2 + value + b3)) == Some((name, value))
  {
    SpacingIsBlank(b0);
    SpacingIsBlank(b1);
    SpacingIsBlank(b2);
    SpacingIsBlank(b3);
    SpacingIsBlank(name);
    SpacingIsBlank(value);
    PaddedCookieParses(b0, name, b1, b2, value, b3);
  }

  /** `pair` is `name`, '=' and `value`, with spaces and tabs anywhere around the two. */
  ghost predicate IsSpacedPair(pair: string, name: string, value: string) {
    exists b0, b1, b2, b3 ::
      && IsSpacing(b0) && IsSpacing(b1) && IsSpacing(b2) && IsSpacing(b3)
      && pair == b0 + name + b1 + "=" + (b2 + value + b3)
  }

  lemma PartsAreLines(a: string, b: string)
    requires IsHeaderLine(a + b)
    ensures IsHeaderLine(a) && IsHeaderLine(b)
  {
    assert forall c :: c in a || c in b ==> c in a + b;
  }

  lemma TrimOfLine(s: string) returns (front: string, back: string)
    requires IsHeaderLine(s)
    ensures s == front + Trim(s) + back && IsSpacing(front) && IsSpacing(back)
    ensures IsTight(Trim(s)) && IsHeaderLine(Trim(s))
  {
    hide Trim;
    front, back := TrimDecomposes(s);
    PartsAreLines(front + Trim(s), back);
    PartsAreLines(front, Trim(s));
    SpacingIsBlank(front);
    SpacingIsBlank(back);
    SpacingIsBlank(Trim(s));
  }

  /**
    Exactly which pieces of a header carry a cookie: those that are its name, '=' and
    its value with spaces and tabs anywhere around the two.
   */
  lemma NamedCookieExactly(pair: string, name: string, value: string)
    requires IsHeaderLine(pair) && '=' !in name && IsTight(name)
    ensures NamedCookie(pair, name) == Some(value) <==> IsTight(value) && IsSpacedPair(pair, name, value)
  {
    if NamedCookie(pair, name) == Some(value) {
      CookieIsSpaced(pair, name, value);
    }
    if IsTight(value) && IsSpacedPair(pair, name, value) {
      var b0, b1, b2, b3 :|
        && IsSpacing(b0) && IsSpacing(b1) && IsSpacing(b2) && IsSpacing(b3)
        && pair == b0 + name + b1 + "=" + (b2 + value + b3);
      SpacedCookieParses(b0, name, b1, b2, value, b3);
    }
  }

  lemma CookieIsSpaced(pair: string, name: string, value: string)
    requires IsHeaderLine(pair) && NamedCookie(pair, name) == Some(value)
    ensures IsTight(value) && IsSpacedPair(pair, name, value)
  {
    hide Trim;
    hide SplitOnce;
    hide IsSpacing;
    hide IsHeaderLine;
    hide IsTight;
    var front, back := TrimOfLine(pair);
    SplitOnceExactly(Trim(pair), '=');
    var (rawName, rawValue) := SplitOnce(Trim(pair), '=').value;
    PartsAreLines(rawName + ['='], rawValue);
    PartsAreLines(rawName, ['=']);
    var f1, k1 := TrimOfLine(rawName);
    var f2, k2 := TrimOfLine(rawValue);
    SpacingAppend(front, f1);
    SpacingAppend(k2, back);
    Regroup(front, f1, name, k1, "=", f2, value, k2, back);
  }

  lemma Regroup(
    front: string, f1: string, name: string, k1: string, eq: string,
    f2: string, value: string, k2: string, back: string)
    ensures front + ((f1 + name + k1) + eq + (f2 + value + k2)) + back ==
            (front + f1) + name + k1 + eq + (f2 + value + (k2 + back))
  {
    var n, v := f1 + name + k1, f2 + value + k2;
    assert front + (n + eq + v) + back == (front + n) + eq + (v + back);
    assert front + n == (front + f1) + name + k1;
    assert v + back == f2 + value + (k2 + back);
  }

  lemma SpacingAppend(a: string, b: string)
    requires IsSpacing(a) && IsSpacing(b)
    ensures IsSpacing(a + b)
  {
  }

  lemma TrimStartHalf(pre: string, s: string, post: string)
    requires IsBlank(pre) && IsBlank(post) && IsTrimmed(s)
    ensures Trim(TrimStart(pre + s + post)) == s
    ensures forall c :: c in TrimStart(pre + s + post) ==> IsWhitespace(c) || c in s
  {
    assert pre + s + post == pre + (s + post);
    TrimStartPadded(pre, s + post);
    if |s| == 0 {
      assert s + post == post + "";
      TrimStartPadded(post, "");
    } else {
      TrimPadded("", s, post);
      assert "" + s + post == s + post;
    }
  }

  lemma TrimEndHalf(pre: string, s: string, post: string)
    requires IsBlank(pre) && IsBlank(post) && IsTrimmed(s)
    ensures Trim(TrimEnd(pre + s + post)) == s
  {
    TrimEndPadded(pre + s, post);
    if |s| == 0 {
      assert pre + s == "" + pre;
      TrimEndPadded("", pre);
    } else {
      TrimPadded(pre, s, "");
      assert pre + s + "" == pre + s;
    }
  }

  /** A cookie with optional whitespace around its name and its value. */
  datatype Cookie = Cookie(b0: string, name: string, b1: string, b2: string, value: string, b3: string)

  predicate IsCookie(c: Cookie) {
    && IsBlank(c.b0) && IsBlank(c.b1) && IsBlank(c.b2) && IsBlank(c.b3)
    && '=' !in c.name && IsTrimmed(c.name) && IsTrimmed(c.value)
  }

  function CookieText(c: Cookie): string {
    c.b0 + c.name + c.b1 + "=" + (c.b2 + c.value + c.b3)
  }

  function CookieTexts(cookies: seq<Cookie>): (pieces: seq<string>)
    ensures |pieces| == |cookies|
  {
    seq(|cookies|, i requires 0 <= i < |cookies| => CookieText(cookies[i]))
  }

  ghost predicate AreCookies(cookies: seq<Cookie>) {
    && ArePieces(CookieTexts(cookies))
    && (forall i :: 0 <= i < |cookies| ==> IsCookie(cookies[i]))
    && (forall i, j :: 0 <= i < j < |cookies| ==> cookies[i].name != cookies[j].name)
  }

  /** The place of a cookie name in the gate's order of preference. */
  function Rank(name: string): nat {
    if name == "session_id" then 0
    else if name == "authkit_session" then 1
    else if name == "authvault_session" then 2
    else if name == "sid" then 3
    else 4
  }

  lemma CookieTextNames(cookies: seq<Cookie>, i: nat, key: string)
    requires AreCookies(cookies) && i < |cookies|
    ensures NamedCookie(CookieTexts(cookies)[i], key) ==
            if cookies[i].name == key then Some(cookies[i].value) else None
  {
    var c := cookies[i];
    PaddedCookieParses(c.b0, c.name, c.b1, c.b2, c.value, c.b3);
  }

  lemma NamedOccurs(cookies: seq<Cookie>, key: string)
    requires AreCookies(cookies)
    ensures Occurs(CookieTexts(cookies), key) <==> exists i :: 0 <= i < |cookies| && cookies[i].name == key
  {
    hide NamedCookie;
    hide CookieTexts;
    var pieces := CookieTexts(cookies);
    if Occurs(pieces, key) {
      var i :| 0 <= i < |pieces| && NamedCookie(pieces[i], key).Some?;
      CookieTextNames(cookies, i, key);
    }
    if i :| 0 <= i < |cookies| && cookies[i].name == key {
      CookieTextNames(cookies, i, key);
      assert NamedCookie(pieces[i], key).Some?;
    }
  }

  lemma NamesAgree(cookies: seq<Cookie>, key: string)
    requires AreCookies(cookies)
    ensures AgreeOn(CookieTexts(cookies), key)
  {
    hide NamedCookie;
    var pieces := CookieTexts(cookies);
    forall i, j | 0 <= i < |pieces| && 0 <= j < |pieces|
                  && NamedCookie(pieces[i], key).Some? && NamedCookie(pieces[j], key).Some?
      ensures NamedCookie(pieces[i], key) == NamedCookie(pieces[j], key)
    {
      CookieTextNames(cookies, i, key);
      CookieTextNames(cookies, j, key);
      assert i == j;
    }
  }

  lemma BestRankIsChosen(cookies: seq<Cookie>, i: nat)
    requires AreCookies(cookies) && i < |cookies| && Rank(cookies[i].name) < 4
    requires forall j :: 0 <= j < |cookies| ==> Rank(cookies[i].name) <= Rank(cookies[j].name)
    ensures ChosenName(CookieTexts(cookies)) == Some(cookies[i].name)
  {
    hide Occurs;
    NamedOccurs(cookies, "session_id");
    NamedOccurs(cookies, "authkit_session");
    NamedOccurs(cookies, "authvault_session");
    NamedOccurs(cookies, "sid");
  }

  /**
    With distinct cookie names, in any order and with any whitespace around them,
    the session id is the value of the best-ranked name present.
   */
  lemma BestRankedCookieIsChosen(cookies: seq<Cookie>, i: nat, q: seq<string>)
    requires AreCookies(cookies) && i < |cookies| && Rank(cookies[i].name) < 4
    requires forall j :: 0 <= j < |cookies| ==> Rank(cookies[i].name) <= Rank(cookies[j].name)
    requires multiset(q) == multiset(CookieTexts(cookies))
    ensures SessionCookie(Join(q, ';')) == Some(cookies[i].value)
  {
    var pieces, key := CookieTexts(cookies), cookies[i].name;
    BestRankIsChosen(cookies, i);
    NamesAgree(cookies, key);
    CookieOrderIsIrrelevant(pieces, q);
    CookieTextNames(cookies, i, key);
    MovedToFrontDecides(pieces, i);
    CookieOrderIsIrrelevant(pieces, MovedToFront(pieces, i));
  }

  // ---------------------------------------------------------------------
  // End to end
  // ---------------------------------------------------------------------

  predicate IsVisibleText(text: string) {
    forall i :: 0 <= i < |text| ==> 32 <= text[i] as int < 127
  }

  /** The bytes of a visible-ASCII header. */
  function HeaderBytes(text: string): seq<byte>
    requires IsVisibleText(text)
  {
    seq(|text|, i requires 0 <= i < |text| => text[i] as int)
  }

  /** A session id a cookie can carry as it is: visible ASCII, no ';', no outer space. */
  predicate IsCookieSafe(sessionId: string) {
    IsTight(sessionId) && ';' !in sessionId && IsVisibleText(sessionId)
  }

  lemma SingleCookie(name: string, value: string)
    requires '=' !in name && ';' !in name && IsTrimmed(name)
    requires ';' !in value && IsTrimmed(value)
    ensures CookieValue(name + "=" + value, name) == Some(value)
  {
    hide CookiePair;
    var header := name + "=" + value;
    PaddedCookieParses("", name, "", "", value, "");
    assert "" + name + "" + "=" + ("" + value + "") == header;
    SplitSingle(header, ';');
    FirstCookieIsRead(header, name, 0, value);
  }

  lemma HeaderRoundTrip(text: string)
    requires IsVisibleText(text)
    ensures HeaderText(HeaderBytes(text)) == Some(text)
  {
    assert HeaderText(HeaderBytes(text)).value == text;
  }

  lemma SessionIdRoundTrip(sessionId: string, query: Option<string>)
    requires IsCookieSafe(sessionId)
    ensures ExtractSessionId(Request(query, [HeaderBytes("session_id" + "=" + sessionId)])) == Some(sessionId)
  {
    hide CookieValue;
    hide HeaderBytes;
    hide HeaderText;
    SpacingIsBlank(sessionId);
    SingleCookie("session_id", sessionId);
    HeaderRoundTrip("session_id" + "=" + sessionId);
  }

  lemma OutcomeOfPair(
    cfg: Config, calls: seq<Call>, request: Request, token: string, sessionId: string, t0: int, now: int)
    requires ClockNeverGoesBack(calls + [Verify("", "", now)])
    requires LastEvent(LogAfter(cfg, calls), token) == Some(Inserted(token, sessionId, t0))
    requires ExtractStateToken(request) == None || ExtractStateToken(request) == Some(token)
    requires ExtractSessionId(request) == Some(sessionId)
    ensures GateOutcome(cfg, calls, request, now) == Passed <==>
            ExtractStateToken(request).Some? && now < t0 + cfg.ttl
  {
    GateSafeAndComplete(cfg, calls, request, now);
  }

  /** The callback of a client that encodes its token and sends back its cookie. */
  function HonestRequest(token: string, sessionId: string, before: seq<string>, after: seq<string>): Request
    requires IsCookieSafe(sessionId)
  {
    var query := Join(before + ["state" + "=" + UrlEncode(token)] + after, '&');
    Request(Some(query), [HeaderBytes("session_id" + "=" + sessionId)])
  }

  lemma HonestRequestReads(token: string, sessionId: string, before: seq<string>, after: seq<string>)
    requires IsCookieSafe(sessionId) && AreOtherPairs(before, after)
    ensures var request := HonestRequest(token, sessionId, before, after);
            && ExtractStateToken(request) == (if |Utf8.Encode(token)| <= 1024 then Some(token) else None)
            && ExtractSessionId(request) == Some(sessionId)
  {
    var request := HonestRequest(token, sessionId, before, after);
    StateRoundTrip(token, before, after, request.cookies);
    SessionIdRoundTrip(sessionId, request.query);
  }

  /**
    The client that follows the protocol gets through exactly while its binding
    lasts: with the percent-encoded token in `state` and the session id in its
    cookie, a bound pair passes if and only if the TTL has not run out and the
    token fits in 1024 bytes.
   */
  lemma HonestCallbackPasses(
    cfg: Config, calls: seq<Call>, token: string, sessionId: string, t0: int, now: int,
    before: seq<string>, after: seq<string>)
    requires ClockNeverGoesBack(calls + [Verify("", "", now)])
    requires LastEvent(LogAfter(cfg, calls), token) == Some(Inserted(token, sessionId, t0))
    requires IsCookieSafe(sessionId) && AreOtherPairs(before, after)
    ensures GateOutcome(cfg, calls, HonestRequest(token, sessionId, before, after), now) == Passed <==>
            now < t0 + cfg.ttl && |Utf8.Encode(token)| <= 1024
  {
    HonestRequestReads(token, sessionId, before, after);
    OutcomeOfPair(cfg, calls, HonestRequest(token, sessionId, before, after), token, sessionId, t0, now);
  }
}
