/**
  The in-memory store that binds OAuth `state` tokens to sessions, with a TTL
  and a hard capacity ceiling.

  `InMemorySessionStore` is the store as written: one map, changed in place.
  Its ghost field `calls` is the history of calls, and every answer is tied to
  `AnswerTo`, the pure replay of that history. Clock readings are parameters;
  instants and durations are integers of one unit, and a TTL may be negative.
 */
module SessionStore {
  import Utf8

  datatype Entry = Entry(sessionId: string, expiresAt: int)

  datatype Config = Config(ttl: int, maxEntries: nat)

  /** One call with the clock readings it made; a bind reads the clock twice. */
  datatype Call =
    | Bind(token: string, sessionId: string, evictAt: int, insertAt: int)
    | Verify(token: string, sessionId: string, now: int)
    | Revoke(token: string)

  datatype Answer =
    | Bound
    | AtCapacity(maxEntries: nat)
    | Verified(ok: bool)
    | Revoked

  function Evict(entries: map<string, Entry>, now: int): map<string, Entry> {
    map s | s in entries && entries[s].expiresAt > now :: entries[s]
  }

  lemma IsEvicted(entries: map<string, Entry>, kept: map<string, Entry>, now: int)
    requires forall s :: s in kept <==> s in entries && now < entries[s].expiresAt
    requires forall s :: s in kept ==> kept[s] == entries[s]
    ensures kept == Evict(entries, now)
  {
  }

  predicate Refuses(cfg: Config, entries: map<string, Entry>, token: string) {
    cfg.maxEntries != 0 && |entries| >= cfg.maxEntries && token !in entries
  }

  /** What one call does to the map, and what it answers. */
  function Apply(cfg: Config, entries: map<string, Entry>, call: Call): (map<string, Entry>, Answer) {
    match call
    case Bind(token, sessionId, evictAt, insertAt) =>
      var kept := Evict(entries, evictAt);
      if Refuses(cfg, kept, token) then (kept, AtCapacity(cfg.maxEntries))
      else (kept[token := Entry(sessionId, insertAt + cfg.ttl)], Bound)
    case Verify(token, sessionId, now) =>
      var kept := Evict(entries, now);
      (kept, Verified(token in kept && kept[token].sessionId == sessionId))
    case Revoke(token) =>
      (entries - {token}, Revoked)
  }

  function StateAfter(cfg: Config, calls: seq<Call>): map<string, Entry> {
    if |calls| == 0 then map[]
    else Apply(cfg, StateAfter(cfg, calls[..|calls| - 1]), calls[|calls| - 1]).0
  }

  /** The answer to `call` when it comes after `calls`. */
  function AnswerTo(cfg: Config, calls: seq<Call>, call: Call): Answer {
    Apply(cfg, StateAfter(cfg, calls), call).1
  }

  lemma StateAfterAppend(cfg: Config, calls: seq<Call>, call: Call)
    ensures StateAfter(cfg, calls + [call]) == Apply(cfg, StateAfter(cfg, calls), call).0
  {
    assert (calls + [call])[..|calls|] == calls;
  }

  class InMemorySessionStore {
    const cfg: Config
    var entries: map<string, Entry>
    ghost var calls: seq<Call>

    ghost predicate Valid()
      reads this
    {
      entries == StateAfter(cfg, calls)
    }

    constructor WithCapacity(ttl: int, maxEntries: nat)
      ensures Valid() && calls == [] && cfg == Config(ttl, maxEntries)
    {
      cfg := Config(ttl, maxEntries);
      entries := map[];
      calls := [];
    }

    method Len() returns (n: nat)
      ensures n == |entries|
    {
      n := |entries|;
    }

    method EvictExpired(now: int)
      modifies this`entries
      ensures forall s :: s in entries <==> s in old(entries) && now < old(entries)[s].expiresAt
      ensures forall s :: s in entries ==> entries[s] == old(entries)[s]
    {
      entries := map s | s in entries && entries[s].expiresAt > now :: entries[s];
    }

    method BindState(token: string, sessionId: string, evictAt: int, insertAt: int) returns (answer: Answer)
      requires Valid()
      modifies this
      ensures Valid() && calls == old(calls) + [Bind(token, sessionId, evictAt, insertAt)]
      ensures answer == AnswerTo(cfg, old(calls), Bind(token, sessionId, evictAt, insertAt))
    {
      hide Evict;
      hide StateAfter;
      StateAfterAppend(cfg, calls, Bind(token, sessionId, evictAt, insertAt));
      calls := calls + [Bind(token, sessionId, evictAt, insertAt)];
      EvictExpired(evictAt);
      IsEvicted(old(entries), entries, evictAt);
      if cfg.maxEntries != 0 && |entries| >= cfg.maxEntries && token !in entries {
        return AtCapacity(cfg.maxEntries);
      }
      entries := entries[token := Entry(sessionId, insertAt + cfg.ttl)];
      answer := Bound;
    }

    method VerifyState(token: string, sessionId: string, now: int) returns (answer: Answer)
      requires Valid()
      modifies this
      ensures Valid() && calls == old(calls) + [Verify(token, sessionId, now)]
      ensures answer == AnswerTo(cfg, old(calls), Verify(token, sessionId, now))
    {
      StateAfterAppend(cfg, calls, Verify(token, sessionId, now));
      calls := calls + [Verify(token, sessionId, now)];
      EvictExpired(now);
      IsEvicted(old(entries), entries, now);
      if token in entries {
        // The source compares the bytes of the two ids, in constant time.
        Utf8.EncodeInjective(entries[token].sessionId, sessionId);
        answer := Verified(Utf8.Encode(entries[token].sessionId) == Utf8.Encode(sessionId));
      } else {
        answer := Verified(false);
      }
    }

    method RevokeState(token: string) returns (answer: Answer)
      requires Valid()
      modifies this
      ensures Valid() && calls == old(calls) + [Revoke(token)]
      ensures answer == AnswerTo(cfg, old(calls), Revoke(token)) == Revoked
    {
      StateAfterAppend(cfg, calls, Revoke(token));
      calls := calls + [Revoke(token)];
      entries := entries - {token};
      answer := Revoked;
    }
  }
}
