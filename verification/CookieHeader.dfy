/**
  A Cookie header as user agents send it, `a=1; session_id=x` (section 4.2.1 of
  RFC 6265), and what the callback gate reads out of it.
 */
module CookieHeader {
  import opened CallbackGate
  import opened Text
  import opened Utf8
  import opened Wrappers

  /** A cookie that needs no quoting: no ';', no '=' in its name, no space at either end. */
  predicate IsSendable(name: string, value: string) {
    && '=' !in name && ';' !in name && ';' !in value && IsTight(name) && IsTight(value)
    && (forall c :: c in name || c in value ==> 0x20 <= c as int <= 0x7E)
  }

  function PairTexts(pairs: seq<(string, string)>): (texts: seq<string>)
    ensures |texts| == |pairs|
  {
    seq(|pairs|, i requires 0 <= i < |pairs| => pairs[i].0 + "=" + pairs[i].1)
  }

  /** Each text after a semicolon and a space. */
  function Continued(texts: seq<string>): string {
    if |texts| == 0 then "" else "; " + texts[0] + Continued(texts[1..])
  }

  /** Section 4.2.1 of RFC 6265: pairs separated by a semicolon and a space. */
  function CookieString(pairs: seq<(string, string)>): string
    requires |pairs| > 0
  {
    PairTexts(pairs)[0] + Continued(PairTexts(pairs)[1..])
  }

  function Spaced(texts: seq<string>): (spaced: seq<string>)
    ensures |spaced| == |texts|
  {
    seq(|texts|, i requires 0 <= i < |texts| => " " + texts[i])
  }

  lemma {:induction false} JoinSpaced(first: string, rest: seq<string>)
    ensures Join([first] + Spaced(rest), ';') == first + Continued(rest)
    decreases |rest|
  {
    if |rest| > 0 {
      assert Spaced(rest) == [" " + rest[0]] + Spaced(rest[1..]);
      assert ([first] + Spaced(rest))[1..] == Spaced(rest);
      JoinSpaced(" " + rest[0], rest[1..]);
      assert first + [';'] + (" " + rest[0] + Continued(rest[1..])) == first + ("; " + rest[0] + Continued(rest[1..]));
    }
  }

  /** The pieces the gate splits a cookie string into. */
  function SentPieces(pairs: seq<(string, string)>): (pieces: seq<string>)
    requires |pairs| > 0
    ensures |pieces| == |pairs|
  {
    [PairTexts(pairs)[0]] + Spaced(PairTexts(pairs)[1..])
  }

  ghost predicate AreSendable(pairs: seq<(string, string)>) {
    |pairs| > 0 && forall i :: 0 <= i < |pairs| ==> IsSendable(pairs[i].0, pairs[i].1)
  }

  lemma SentPieceIs(pairs: seq<(string, string)>, i: nat)
    requires i < |pairs|
    ensures SentPieces(pairs)[i] ==
            (if i == 0 then "" else " ") + pairs[i].0 + "" + "=" + ("" + pairs[i].1 + "")
  {
    var (name, value) := pairs[i];
    assert "" + value + "" == value;
    assert " " + name + "" + "=" + value == " " + (name + "=" + value);
    assert "" + name + "" + "=" + value == name + "=" + value;
  }

  lemma SentPieceParses(pairs: seq<(string, string)>, i: nat, key: string)
    requires AreSendable(pairs) && i < |pairs|
    ensures ';' !in SentPieces(pairs)[i]
    ensures NamedCookie(SentPieces(pairs)[i], key) == if pairs[i].0 == key then Some(pairs[i].1) else None
  {
    hide CookiePair;
    hide SentPieces;
    hide IsTight;
    var b0 := if i == 0 then "" else " ";
    SentPieceIs(pairs, i);
    assert IsSendable(pairs[i].0, pairs[i].1);
    SpacedCookieParses(b0, pairs[i].0, "", "", pairs[i].1, "");
  }

  lemma CookieStringSplits(pairs: seq<(string, string)>)
    requires AreSendable(pairs)
    ensures Split(CookieString(pairs), ';') == SentPieces(pairs)
  {
    JoinSpaced(PairTexts(pairs)[0], PairTexts(pairs)[1..]);
    forall i: nat | i < |pairs|
      ensures ';' !in SentPieces(pairs)[i]
    {
      SentPieceParses(pairs, i, "");
    }
    SplitJoin(SentPieces(pairs), ';');
  }

  /** What the gate reads under one name: the first value sent under it. */
  lemma SentValue(pairs: seq<(string, string)>, key: string)
    requires AreSendable(pairs)
    ensures forall i: nat :: IsFirstSent(pairs, i, key) ==> CookieValue(CookieString(pairs), key) == Some(pairs[i].1)
    ensures IsAbsent(pairs, key) ==> CookieValue(CookieString(pairs), key).None?
  {
    hide NamedCookie;
    hide CookieValue;
    hide CookieString;
    hide SentPieces;
    CookieStringSplits(pairs);
    forall i: nat | i < |pairs|
      ensures NamedCookie(SentPieces(pairs)[i], key) == if pairs[i].0 == key then Some(pairs[i].1) else None
    {
      SentPieceParses(pairs, i, key);
    }
    forall i: nat | IsFirstSent(pairs, i, key)
      ensures CookieValue(CookieString(pairs), key) == Some(pairs[i].1)
    {
      FirstCookieIsRead(CookieString(pairs), key, i, pairs[i].1);
    }
    ReadIffOccurs(CookieString(pairs), key);
  }

  lemma {:induction false} ContinuedIsVisible(texts: seq<string>)
    requires forall i, c :: 0 <= i < |texts| && c in texts[i] ==> 0x20 <= c as int <= 0x7E
    ensures forall c :: c in Continued(texts) ==> 0x20 <= c as int <= 0x7E
  {
    if |texts| > 0 {
      forall i, c | 0 <= i < |texts[1..]| && c in texts[1..][i]
        ensures 0x20 <= c as int <= 0x7E
      {
        assert c in texts[i + 1];
      }
      ContinuedIsVisible(texts[1..]);
    }
  }

  lemma CookieStringIsVisible(pairs: seq<(string, string)>)
    requires AreSendable(pairs)
    ensures IsVisibleText(CookieString(pairs))
  {
    var texts := PairTexts(pairs);
    forall i, c | 0 <= i < |texts| && c in texts[i]
      ensures 0x20 <= c as int <= 0x7E
    {
      assert IsSendable(pairs[i].0, pairs[i].1);
    }
    forall i, c | 0 <= i < |texts[1..]| && c in texts[1..][i]
      ensures 0x20 <= c as int <= 0x7E
    {
      assert c in texts[i + 1];
    }
    ContinuedIsVisible(texts[1..]);
    assert forall i :: 0 <= i < |CookieString(pairs)| ==> CookieString(pairs)[i] in CookieString(pairs);
  }

  /** No pair is sent under this name. */
  predicate IsAbsent(pairs: seq<(string, string)>, key: string) {
    forall i :: 0 <= i < |pairs| ==> pairs[i].0 != key
  }

  /** Pair `i` is the first one sent under this name. */
  predicate IsFirstSent(pairs: seq<(string, string)>, i: nat, key: string) {
    i < |pairs| && pairs[i].0 == key && forall j :: 0 <= j < i ==> pairs[j].0 != key
  }

  lemma SessionCookieSent(pairs: seq<(string, string)>, i: nat)
    requires AreSendable(pairs) && IsBestSent(pairs, i)
    ensures SessionCookie(CookieString(pairs)) == Some(pairs[i].1)
  {
    hide CookieValue;
    hide CookieString;
    hide IsSendable;
    var name := pairs[i].0;
    assert IsFirstSent(pairs, i, name);
    SentValue(pairs, name);
    if name != "session_id" {
      RankedBelow(pairs, i, "session_id");
      SentValue(pairs, "session_id");
      if name != "authkit_session" {
        RankedBelow(pairs, i, "authkit_session");
        SentValue(pairs, "authkit_session");
        if name != "authvault_session" {
          RankedBelow(pairs, i, "authvault_session");
          SentValue(pairs, "authvault_session");
        }
      }
    }
  }

  lemma RankedBelow(pairs: seq<(string, string)>, i: nat, key: string)
    requires IsBestSent(pairs, i) && Rank(key) < Rank(pairs[i].0)
    ensures IsAbsent(pairs, key)
  {
  }

  lemma NoSessionCookieSent(pairs: seq<(string, string)>)
    requires AreSendable(pairs) && forall i :: 0 <= i < |pairs| ==> Rank(pairs[i].0) == 4
    ensures SessionCookie(CookieString(pairs)) == None
  {
    hide CookieValue;
    hide CookieString;
    hide IsSendable;
    SentValue(pairs, "session_id");
    SentValue(pairs, "authkit_session");
    SentValue(pairs, "authvault_session");
    SentValue(pairs, "sid");
  }

  /**
    The header that user agents send, `a=1; session_id=x`: the session id is the
    first value under the best-ranked of the four names that is present, and there
    is none if none of the four is.
   */
  lemma SentCookiesAreRead(query: Option<string>, pairs: seq<(string, string)>)
    requires AreSendable(pairs)
    ensures IsVisibleText(CookieString(pairs))
    ensures var request := Request(query, [HeaderBytes(CookieString(pairs))]);
            && (forall i: nat :: IsBestSent(pairs, i) ==> ExtractSessionId(request) == Some(pairs[i].1))
            && ((forall i :: 0 <= i < |pairs| ==> Rank(pairs[i].0) == 4) ==> ExtractSessionId(request) == None)
  {
    hide SessionCookie;
    hide CookieString;
    hide HeaderText;
    hide HeaderBytes;
    hide Rank;
    hide IsSendable;
    CookieStringIsVisible(pairs);
    HeaderRoundTrip(CookieString(pairs));
    forall i: nat | IsBestSent(pairs, i)
      ensures SessionCookie(CookieString(pairs)) == Some(pairs[i].1)
    {
      SessionCookieSent(pairs, i);
    }
    if forall i :: 0 <= i < |pairs| ==> Rank(pairs[i].0) == 4 {
      NoSessionCookieSent(pairs);
    }
  }

  /** Pair `i` is the first of its name, and no pair has a better-ranked one. */
  predicate IsBestSent(pairs: seq<(string, string)>, i: nat) {
    && i < |pairs| && Rank(pairs[i].0) < 4
    && (forall j :: 0 <= j < |pairs| ==> Rank(pairs[i].0) <= Rank(pairs[j].0))
    && IsFirstSent(pairs, i, pairs[i].0)
  }
}
