/**
 * The bearer-token middleware: taking the token out of the Authorization
 * header, the 401/403/proceed decision around the token verifier, and the
 * key under which a verified claim looks its account up.
 */
module Tokens {
  import opened Records

  /** `s.split(sep)`: the pieces between separators, in order; never empty. */
  function Split(s: string, sep: char): (parts: seq<string>)
    ensures |parts| >= 1
    ensures forall i :: 0 <= i < |parts| ==> sep !in parts[i]
    ensures |parts| == 1 <==> sep !in s
  {
    if |s| == 0 then [""]
    else
      var rest := Split(s[1..], sep);
      if s[0] == sep then [""] + rest
      else [[s[0]] + rest[0]] + rest[1..]
  }

  /** `parts.join(sep)`. */
  function Join(parts: seq<string>, sep: char): string
    requires |parts| >= 1
    decreases |parts|
  {
    if |parts| == 1 then parts[0] else parts[0] + [sep] + Join(parts[1..], sep)
  }

  /** Joining the pieces back with the separator restores the string: splitting loses nothing. */
  lemma {:induction false} JoinSplit(s: string, sep: char)
    ensures Join(Split(s, sep), sep) == s
  {
    if |s| > 0 {
      var rest := Split(s[1..], sep);
      JoinSplit(s[1..], sep);
      if s[0] == sep {
        assert ([""] + rest)[1..] == rest;
      } else {
        var parts := Split(s, sep);
        assert parts[1..] == rest[1..];
        if |rest| == 1 {
          assert s == [s[0]] + rest[0];
        } else {
          assert Join(rest, sep) == rest[0] + [sep] + Join(rest[1..], sep);
          assert s == [s[0]] + s[1..];
        }
      }
    }
  }

  /** Splitting a piece free of the separator, then the separator, then the rest. */
  lemma {:induction false} SplitCons(a: string, b: string, sep: char)
    requires sep !in a
    ensures Split(a + [sep] + b, sep) == [a] + Split(b, sep)
  {
    if |a| == 0 {
      assert a + [sep] + b == [sep] + b;
      assert ([sep] + b)[1..] == b;
    } else {
      assert (a + [sep] + b)[1..] == a[1..] + [sep] + b;
      assert a == [a[0]] + a[1..];
      SplitCons(a[1..], b, sep);
    }
  }

  /**
   * `authHeader && authHeader.split(' ')[1]`: a missing header gives no token;
   * the empty header is falsy and is itself the token; otherwise the text
   * between the first and the second space, or no token without a space.
   */
  function ExtractToken(header: Option<string>): (token: Option<string>)
    ensures header.None? ==> token.None?
    ensures header == Some("") ==> token == Some("")
    ensures header.Some? && header.value != "" ==> (token.None? <==> ' ' !in header.value)
    ensures token.Some? && header.value != "" ==> ' ' !in token.value
  {
    match header
    case None => None
    case Some(h) =>
      if h == "" then Some(h)
      else
        var parts := Split(h, ' ');
        if |parts| >= 2 then Some(parts[1]) else None
  }

  /** A header built as `<scheme> <token>` gives back exactly that token. */
  lemma BearerRoundTrip(scheme: string, token: string)
    requires ' ' !in scheme && ' ' !in token
    ensures ExtractToken(Some(scheme + " " + token)) == Some(token)
  {
    assert scheme + " " + token == scheme + [' '] + token;
    SplitCons(scheme, token, ' ');
    JoinSplit(token, ' ');
    assert Split(scheme + " " + token, ' ')[1] == Split(token, ' ')[0] == token;
  }

  /** For any header `<first> <rest>`, the token is the piece of `<rest>` before its first space (empty when `<rest>` starts with a space). */
  lemma SecondPiece(first: string, rest: string)
    requires ' ' !in first
    ensures ExtractToken(Some(first + " " + rest)) == Some(Split(rest, ' ')[0])
  {
    assert first + " " + rest == first + [' '] + rest;
    SplitCons(first, rest, ' ');
  }

  /** The decoded payload of a verified token; `username` is None when the payload lacks it. */
  datatype Claim = Claim(username: Option<string>)

  datatype AuthOutcome = Unauthorized | Forbidden | Proceed(claim: Claim)

  /** The status the middleware answers with when it stops the request. */
  function AuthStatus(a: AuthOutcome): (code: int)
    requires !a.Proceed?
    ensures code == (if a.Unauthorized? then 401 else 403)
  {
    match a
    case Unauthorized => 401
    case Forbidden => 403
  }

  /**
   * The middleware: no token gives 401 before the verifier is consulted; a
   * token the verifier rejects (bad signature, expired, empty) gives 403;
   * otherwise the request proceeds with the verified claim.
   */
  function Authenticate(header: Option<string>, verify: string -> Option<Claim>): (r: AuthOutcome)
    ensures r.Unauthorized? <==> ExtractToken(header).None?
    ensures r.Forbidden? <==> ExtractToken(header).Some? && verify(ExtractToken(header).value).None?
    ensures r.Proceed? ==> ExtractToken(header).Some? && verify(ExtractToken(header).value) == Some(r.claim)
  {
    match ExtractToken(header)
    case None => Unauthorized
    case Some(token) =>
      match verify(token)
      case None => Forbidden
      case Some(claim) => Proceed(claim)
  }

  /** Without a token the outcome is 401 whatever the verifier would say. */
  lemma NoTokenIgnoresVerifier(header: Option<string>, v1: string -> Option<Claim>, v2: string -> Option<Claim>)
    requires header.None? || (header.value != "" && ' ' !in header.value)
    ensures Authenticate(header, v1) == Authenticate(header, v2) == Unauthorized
  {
  }

  /** The empty header is a token, not a missing one: it gets 403 from a verifier that rejects the empty token, as `jwt.verify` does. */
  lemma EmptyHeaderForbidden(verify: string -> Option<Claim>)
    requires verify("") == None
    ensures Authenticate(Some(""), verify) == Forbidden
    ensures AuthStatus(Authenticate(Some(""), verify)) == 403
  {
  }

  /** The status of a stopped request: 401 exactly when there is no token, 403 exactly when the verifier rejects it. */
  lemma AuthenticateStatus(header: Option<string>, verify: string -> Option<Claim>)
    requires !Authenticate(header, verify).Proceed?
    ensures AuthStatus(Authenticate(header, verify)) == 401 <==> ExtractToken(header).None?
    ensures AuthStatus(Authenticate(header, verify)) == 403 <==>
      ExtractToken(header).Some? && verify(ExtractToken(header).value).None?
  {
  }

  /** A well-formed `Bearer <token>` header proceeds exactly when the verifier accepts the token, else 403. */
  lemma BearerHeaderOutcome(token: string, verify: string -> Option<Claim>)
    requires ' ' !in token
    ensures var r := Authenticate(Some("Bearer " + token), verify);
      && (verify(token).None? ==> r == Forbidden)
      && (verify(token).Some? ==> r == Proceed(verify(token).value))
  {
    BearerRoundTrip("Bearer", token);
    assert "Bearer" + " " + token == "Bearer " + token;
  }

  /**
   * `db.users[req.user.username]`: JavaScript turns the property name into a
   * string, so a claim without a username looks up the key "undefined".
   */
  function UserKey(claim: Claim): (key: string)
    ensures claim.username.Some? ==> key == claim.username.value
    ensures claim.username.None? ==> key == "undefined"
  {
    match claim.username
    case Some(u) => u
    case None => "undefined"
  }
}
