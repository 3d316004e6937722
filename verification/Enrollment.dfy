/** The `otpauth` URI that enrols a TOTP secret, and its reader. */
module Enrollment {
  import opened Base32
  import opened CallbackGate
  import opened Decimal
  import opened Percent
  import opened Text
  import opened Utf8
  import opened Wrappers

  const PREFIX: string := "otpauth://totp/"

  /** The query's fields, in the order they are written. */
  function Fields(secret: seq<byte>, issuer: string, period: nat, digits: nat): seq<(string, string)>
    requires |secret| == SECRET_LEN
  {
    [("secret", ToBase32(secret)),
     ("issuer", UrlEncode(issuer)),
     ("period", ToDecimal(period)),
     ("digits", ToDecimal(digits)),
     ("algorithm", "SHA1")]
  }

  /** The `name=value` texts of the fields. */
  function Pieces(fields: seq<(string, string)>): (pieces: seq<string>)
    ensures |pieces| == |fields|
  {
    seq(|fields|, i requires 0 <= i < |fields| => fields[i].0 + "=" + fields[i].1)
  }

  function Query(secret: seq<byte>, issuer: string, period: nat, digits: nat): string
    requires |secret| == SECRET_LEN
  {
    Join(Pieces(Fields(secret, issuer, period, digits)), '&')
  }

  function Path(issuer: string, account: string): string {
    UrlEncode(issuer) + ":" + UrlEncode(account)
  }

  function EnrollmentUri(secret: seq<byte>, account: string, issuer: string, period: nat, digits: nat): string
    requires |secret| == SECRET_LEN
  {
    PREFIX + (Path(issuer, account) + "?" + Query(secret, issuer, period, digits))
  }

  // ---------------------------------------------------------------------
  // Reading the URI
  // ---------------------------------------------------------------------

  /** The label, split at its first ':', and the query of an enrolment URI. */
  function SplitUri(uri: string): Option<(string, string, string)> {
    if !(PREFIX <= uri) then None else
    match SplitOnce(uri[|PREFIX|..], '?')
    case None => None
    case Some((path, query)) =>
      match SplitOnce(path, ':')
      case None => None
      case Some((issuer, account)) => Some((issuer, account, query))
  }

  ghost predicate AreFields(fields: seq<(string, string)>) {
    && (forall i :: 0 <= i < |fields| ==>
          '=' !in fields[i].0 && '&' !in fields[i].0 && '&' !in fields[i].1)
    && (forall i, j :: 0 <= i < j < |fields| ==> fields[i].0 != fields[j].0)
  }

  /** Fields with distinct names are all read back, each by its own name. */
  lemma FieldReadsBack(fields: seq<(string, string)>, i: nat)
    requires AreFields(fields) && i < |fields|
    ensures QueryParam(Join(Pieces(fields), '&'), fields[i].0) == Some(fields[i].1)
  {
    var pieces := Pieces(fields);
    forall j | 0 <= j < i
      ensures !(fields[i].0 + "=" <= pieces[j])
    {
      NamedParamOf(fields[j].0, fields[j].1);
      NamedParamExactly(pieces[j], fields[i].0);
    }
    QueryParamFirst(pieces, fields[i].0, i, fields[i].1);
  }

  lemma ValuesHaveNoSeparator(secret: seq<byte>, issuer: string, n: nat)
    requires |secret| == 20
    ensures '&' !in ToBase32(secret) && '&' !in UrlEncode(issuer) && '&' !in ToDecimal(n)
  {
    hide ToDecimal;
    hide UrlEncode;
    Base32.DecodeEncode(secret);
    UrlDecodeEncode(issuer);
    SafeHasNoDelimiter(UrlEncode(issuer), '&');
  }

  lemma NamesAreDistinct()
    ensures "secret" != "issuer" && "secret" != "period" && "secret" != "digits" && "secret" != "algorithm"
    ensures "issuer" != "period" && "issuer" != "digits" && "issuer" != "algorithm"
    ensures "period" != "digits" && "period" != "algorithm" && "digits" != "algorithm"
  {
    assert "secret"[0] == 's' && "issuer"[0] == 'i' && "period"[0] == 'p';
    assert "digits"[0] == 'd' && "algorithm"[0] == 'a';
  }

  lemma FieldsAreFields(secret: seq<byte>, issuer: string, period: nat, digits: nat)
    requires |secret| == 20
    ensures AreFields(Fields(secret, issuer, period, digits))
  {
    ValuesHaveNoSeparator(secret, issuer, period);
    ValuesHaveNoSeparator(secret, issuer, digits);
    FiveFields(ToBase32(secret), UrlEncode(issuer), ToDecimal(period), ToDecimal(digits));
  }

  lemma FiveFields(secret: string, issuer: string, period: string, digits: string)
    requires '&' !in secret && '&' !in issuer && '&' !in period && '&' !in digits
    ensures AreFields([("secret", secret), ("issuer", issuer), ("period", period), ("digits", digits),
                       ("algorithm", "SHA1")])
  {
    NamesAreDistinct();
  }

  // ---------------------------------------------------------------------
  // Round trip
  // ---------------------------------------------------------------------

  /** What an authenticator app reads out of the URI, decoded. */
  datatype Reading = Reading(
    issuer: string, account: string, secret: string,
    issuerParam: string, period: nat, digits: nat, algorithm: string)

  function ReadQuery(issuer: string, account: string, query: string): Option<Reading> {
    var secret :- QueryParam(query, "secret");
    var rawIssuer :- QueryParam(query, "issuer");
    var issuerParam :- UrlDecode(rawIssuer);
    var period :- QueryParam(query, "period");
    var digits :- QueryParam(query, "digits");
    var algorithm :- QueryParam(query, "algorithm");
    Some(Reading(issuer, account, secret, issuerParam, Parse(period), Parse(digits), algorithm))
  }

  function ReadUri(uri: string): Option<Reading> {
    var (rawIssuer, rawAccount, query) :- SplitUri(uri);
    var issuer :- UrlDecode(rawIssuer);
    var account :- UrlDecode(rawAccount);
    ReadQuery(issuer, account, query)
  }

  lemma QueryReadsBack(
    secret: seq<byte>, issuer: string, period: nat, digits: nat, labelIssuer: string, account: string)
    requires |secret| == 20
    ensures ReadQuery(labelIssuer, account, Query(secret, issuer, period, digits)) ==
            Some(Reading(labelIssuer, account, ToBase32(secret), issuer, period, digits, "SHA1"))
  {
    var fields := Fields(secret, issuer, period, digits);
    FieldsAreFields(secret, issuer, period, digits);
    FieldReadsBack(fields, 0);
    FieldReadsBack(fields, 1);
    FieldReadsBack(fields, 2);
    FieldReadsBack(fields, 3);
    FieldReadsBack(fields, 4);
    UrlDecodeEncode(issuer);
    ParseToDecimal(period);
    ParseToDecimal(digits);
  }

  lemma UriSplits(secret: seq<byte>, account: string, issuer: string, period: nat, digits: nat)
    requires |secret| == 20
    ensures SplitUri(EnrollmentUri(secret, account, issuer, period, digits)) ==
            Some((UrlEncode(issuer), UrlEncode(account), Query(secret, issuer, period, digits)))
  {
    var i, a, q := UrlEncode(issuer), UrlEncode(account), Query(secret, issuer, period, digits);
    UrlDecodeEncode(issuer);
    UrlDecodeEncode(account);
    SafeHasNoDelimiter(i, ':');
    SafeHasNoDelimiter(i, '?');
    SafeHasNoDelimiter(a, '?');
    SplitPath(i, a, q);
  }

  lemma SplitPath(i: string, a: string, q: string)
    requires ':' !in i && '?' !in i && '?' !in a
    ensures SplitUri(PREFIX + ((i + ":" + a) + "?" + q)) == Some((i, a, q))
  {
    var rest := (i + ":" + a) + "?" + q;
    assert (PREFIX + rest)[|PREFIX|..] == rest && PREFIX <= PREFIX + rest;
    SplitOnceAt(i + ":" + a, '?', q);
    SplitOnceAt(i, ':', a);
  }

  /**
    Every field of an enrolment URI reads back unchanged, whatever characters the
    issuer and the account hold: no field can disturb another.
   */
  lemma EnrollmentReadsBack(secret: seq<byte>, account: string, issuer: string, period: nat, digits: nat)
    requires |secret| == 20
    ensures ReadUri(EnrollmentUri(secret, account, issuer, period, digits)) ==
            Some(Reading(issuer, account, ToBase32(secret), issuer, period, digits, "SHA1"))
  {
    UriSplits(secret, account, issuer, period, digits);
    UrlDecodeEncode(issuer);
    UrlDecodeEncode(account);
    QueryReadsBack(secret, issuer, period, digits, issuer, account);
  }

  /** Two enrolments with the same URI are the same enrolment. */
  lemma EnrollmentInjective(
    secret: seq<byte>, account: string, issuer: string, period: nat, digits: nat,
    secret': seq<byte>, account': string, issuer': string, period': nat, digits': nat)
    requires |secret| == 20 && |secret'| == 20
    requires EnrollmentUri(secret, account, issuer, period, digits) ==
             EnrollmentUri(secret', account', issuer', period', digits')
    ensures secret == secret' && account == account' && issuer == issuer'
    ensures period == period' && digits == digits'
  {
    EnrollmentReadsBack(secret, account, issuer, period, digits);
    EnrollmentReadsBack(secret', account', issuer', period', digits');
    ToBase32Injective(secret, secret');
  }

  lemma FieldIsWritten(front: seq<string>, before: string, name: string, value: string)
    requires |front| > 0 && Join(front, '&') == before
    ensures Join(front + [name + "=" + value], '&') == before + ("&" + name + "=") + value
  {
    JoinSnoc(front, name + "=" + value, '&');
  }

  /** The URI as it is written, in full. */
  lemma UriIsWritten(secret: seq<byte>, account: string, issuer: string, period: nat, digits: nat)
    requires |secret| == 20
    ensures EnrollmentUri(secret, account, issuer, period, digits) ==
            "otpauth://totp/" + UrlEncode(issuer) + ":" + UrlEncode(account)
            + "?" + Query(secret, issuer, period, digits)
    ensures Query(secret, issuer, period, digits) ==
            "secret=" + ToBase32(secret) + "&issuer=" + UrlEncode(issuer)
            + "&period=" + ToDecimal(period) + "&digits=" + ToDecimal(digits) + "&algorithm=" + "SHA1"
  {
    hide UrlEncode;
    hide ToBase32;
    hide ToDecimal;
    QueryIsWritten(ToBase32(secret), UrlEncode(issuer), ToDecimal(period), ToDecimal(digits));
  }

  lemma QueryIsWritten(s: string, i: string, p: string, d: string)
    ensures Join(Pieces([("secret", s), ("issuer", i), ("period", p), ("digits", d), ("algorithm", "SHA1")]), '&') ==
            "secret=" + s + "&issuer=" + i + "&period=" + p + "&digits=" + d + "&algorithm=" + "SHA1"
  {
    var a, b, c, e, f := "secret" + "=" + s, "issuer" + "=" + i, "period" + "=" + p, "digits" + "=" + d,
      "algorithm" + "=" + "SHA1";
    var t1 := "secret=" + s;
    var t2 := t1 + "&issuer=" + i;
    var t3 := t2 + "&period=" + p;
    var t4 := t3 + "&digits=" + d;
    assert "secret" + "=" == "secret=";
    assert "&" + "issuer" + "=" == "&issuer=" && "&" + "period" + "=" == "&period=";
    assert "&" + "digits" + "=" == "&digits=" && "&" + "algorithm" + "=" == "&algorithm=";
    FieldIsWritten([a], t1, "issuer", i);
    FieldIsWritten([a] + [b], t2, "period", p);
    FieldIsWritten([a] + [b] + [c], t3, "digits", d);
    FieldIsWritten([a] + [b] + [c] + [e], t4, "algorithm", "SHA1");
    assert Pieces([("secret", s), ("issuer", i), ("period", p), ("digits", d), ("algorithm", "SHA1")]) ==
      [a] + [b] + [c] + [e] + [f];
  }
}
