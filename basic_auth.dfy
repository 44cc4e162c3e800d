/**
 * The Basic-authentication gate in front of the site-info tool
 * (functions/tools/site-info/_middleware.js): it reads the `Authorization`
 * header and the configured credential pair and either hands the request
 * on, answers with one fixed 401 response, or throws when `atob` rejects
 * the credential text.
 */
module BasicAuth {
  import opened Wrappers
  import opened Strings
  import Base64
  import Utf8
  import opened Http

  const DefaultUsername: string := "admin"
  const DefaultPassword: string := "password"

  /** The challenge every rejection carries. */
  const Challenge: string := "Basic realm=\"Site Info Tool\", charset=\"UTF-8\""

  /** `env.X || fallback`: an unset or empty variable falls back. */
  function OrDefault(v: Option<string>, fallback: string): string
  {
    if v.Some? && v.value != "" then v.value else fallback
  }

  function ExpectedUsername(env: Option<string>): string
  {
    OrDefault(env, DefaultUsername)
  }

  function ExpectedPassword(env: Option<string>): string
  {
    OrDefault(env, DefaultPassword)
  }

  /** Why a request was turned away; all three give the same response. */
  datatype Rejection = MissingAuthorization | NotBasic | WrongCredentials

  /** The decision of the guards: hand on, reject, or `atob` threw. */
  datatype Verdict = Granted | Denied(reason: Rejection) | Undecodable

  /**
   * `const [scheme, encoded] = authorization.split(' ')`: the first two
   * pieces of a split on every space. A missing second piece is
   * `undefined`, which `atob` later reads as the text "undefined".
   */
  function SchemeAndCredential(authorization: string): (string, string)
  {
    var parts := Split(authorization, ' ');
    (parts[0], if |parts| > 1 then parts[1] else "undefined")
  }

  /**
   * `const [username, password] = decoded.split(':')` and the comparison
   * with the expected pair: only the first two pieces of a split on every
   * ':' count, and a missing second piece (`undefined`) never matches.
   */
  predicate CredentialsMatch(decoded: string, username: string, password: string)
  {
    var fields := Split(decoded, ':');
    fields[0] == username && |fields| > 1 && fields[1] == password
  }

  /**
   * The guards of `onRequest`, in order. `authorization` is what
   * `request.headers.get('Authorization')` returns (`None` for `null`).
   */
  function Authorize(authorization: Option<string>, envUsername: Option<string>,
                     envPassword: Option<string>): Verdict
  {
    if authorization.None? || authorization.value == "" then Denied(MissingAuthorization)
    else
      var (scheme, encoded) := SchemeAndCredential(authorization.value);
      if scheme == "" || scheme != "Basic" then Denied(NotBasic)
      else
        match Base64.Atob(encoded)
        case None => Undecodable
        case Some(bytes) =>
          if CredentialsMatch(Utf8.TextDecode(bytes), ExpectedUsername(envUsername), ExpectedPassword(envPassword))
          then Granted
          else Denied(WrongCredentials)
  }

  /** What the middleware does with the request. */
  datatype Outcome =
    | Next                      // `return next()`
    | Respond(response: Response)
    | Throw(exception: string)  // an uncaught DOMException from `atob`

  /** `unauthorizedResponse()`. */
  function Unauthorized(): Response
  {
    Response(401, Text("Unauthorized"), [("WWW-Authenticate", Challenge)])
  }

  /** `onRequest` of the middleware. */
  function OnRequest(authorization: Option<string>, envUsername: Option<string>,
                     envPassword: Option<string>): (o: Outcome)
    ensures o.Respond? ==> o.response == Unauthorized()
    ensures o.Next? <==> Authorize(authorization, envUsername, envPassword) == Granted
    ensures o.Throw? <==> Authorize(authorization, envUsername, envPassword) == Undecodable
  {
    match Authorize(authorization, envUsername, envPassword)
    case Granted => Next
    case Denied(_) => Respond(Unauthorized())
    case Undecodable => Throw("InvalidCharacterError")
  }

  /** The header a client sends for a user name and password. */
  function BasicHeader(username: string, password: string): string
  {
    "Basic " + Base64.Encode(Utf8.Encode(username + ":" + password))
  }

  /** An absent or empty header is rejected with the fixed 401. */
  lemma MissingHeaderRejected(envUsername: Option<string>, envPassword: Option<string>)
    ensures OnRequest(None, envUsername, envPassword) == Respond(Unauthorized())
    ensures OnRequest(Some(""), envUsername, envPassword) == Respond(Unauthorized())
  {
  }

  /** An empty environment value counts as unset. */
  lemma EmptyEnvironmentUsesDefaults(authorization: Option<string>, u: Option<string>, p: Option<string>)
    ensures ExpectedUsername(None) == ExpectedUsername(Some("")) == "admin"
    ensures ExpectedPassword(None) == ExpectedPassword(Some("")) == "password"
    ensures Authorize(authorization, Some(""), p) == Authorize(authorization, None, p)
    ensures Authorize(authorization, u, Some("")) == Authorize(authorization, u, None)
  {
  }

  /** The first piece of a split is the text before the first separator. */
  lemma FirstPiece(s: string, sep: char)
    ensures Split(s, sep)[0] == if sep in s then s[..IndexOf(s, sep)] else s
  {
  }

  /**
   * The scheme check: a non-empty header passes it exactly when it is
   * "Basic" or starts with "Basic " (case matters; a tab is not a separator).
   */
  lemma SchemeMustBeBasic(h: string, envUsername: Option<string>, envPassword: Option<string>)
    requires h != ""
    ensures Authorize(Some(h), envUsername, envPassword) == Denied(NotBasic)
            <==> !(h == "Basic" || "Basic " <= h)
  {
    var scheme := SchemeAndCredential(h).0;
    FirstPiece(h, ' ');
    if h == "Basic" {
      assert ' ' !in h;
    } else if "Basic " <= h {
      assert h[5] == ' ' && ' ' !in h[..5];
      assert IndexOf(h, ' ') == 5;
    } else if ' ' in h {
      var i := IndexOf(h, ' ');
      if i == 5 {
        assert h[..6] == h[..5] + [' '];
      }
      assert scheme != "Basic";
    }
  }

  /** A client's "Basic" header, with a space-free credential part, splits into its two parts. */
  lemma BasicParts(e: string, t: string)
    requires ' ' !in e
    ensures SchemeAndCredential("Basic " + e) == ("Basic", e)
    ensures SchemeAndCredential("Basic " + e + " " + t) == ("Basic", e)
  {
    assert "Basic " + e + " " + t == "Basic" + [' '] + (e + [' '] + t);
    assert "Basic " + e == "Basic" + [' '] + e;
    SplitAt("Basic", e + [' '] + t, ' ');
    SplitAt("Basic", e, ' ');
    SplitAt(e, t, ' ');
    assert Split(e, ' ') == [e];
  }

  /** Text after a second space is ignored. */
  lemma TrailingTextIgnored(e: string, t: string, envUsername: Option<string>, envPassword: Option<string>)
    requires ' ' !in e
    ensures Authorize(Some("Basic " + e + " " + t), envUsername, envPassword)
            == Authorize(Some("Basic " + e), envUsername, envPassword)
  {
    BasicParts(e, t);
  }

  /** A "Bearer" header, whatever its token, is rejected with the fixed 401. */
  lemma BearerRejected(token: string, envUsername: Option<string>, envPassword: Option<string>)
    ensures OnRequest(Some("Bearer " + token), envUsername, envPassword) == Respond(Unauthorized())
  {
    SchemeMustBeBasic("Bearer " + token, envUsername, envPassword);
    assert ("Bearer " + token)[1] == 'e';
  }

  /**
   * "Basic" with no credential part passes `atob` the text "undefined",
   * which it rejects: the middleware throws instead of answering 401.
   */
  lemma MissingCredentialThrows(envUsername: Option<string>, envPassword: Option<string>)
    ensures OnRequest(Some("Basic"), envUsername, envPassword) == Throw("InvalidCharacterError")
  {
    assert ' ' !in "Basic";
    assert SchemeAndCredential("Basic") == ("Basic", "undefined");
    Base64.AtobUndefined();
  }

  /**
   * The credential comparison on a decoded text "u:p" (no ':' in `u` or
   * `p`) holds exactly when both fields equal the expected ones.
   */
  lemma CredentialsMatchPair(u: string, p: string, username: string, password: string)
    requires ':' !in u && ':' !in p
    ensures CredentialsMatch(u + ":" + p, username, password) <==> u == username && p == password
  {
    assert u + ":" + p == u + [':'] + p;
    SplitAt(u, p, ':');
    assert Split(p, ':') == [p];
  }

  /** Only the first two ':'-separated fields count. */
  lemma CredentialsMatchIgnoresRest(u: string, p: string, q: string, username: string, password: string)
    requires ':' !in u && ':' !in p
    ensures CredentialsMatch(u + ":" + p + ":" + q, username, password)
            <==> CredentialsMatch(u + ":" + p, username, password)
  {
    assert u + ":" + p + ":" + q == u + [':'] + (p + [':'] + q);
    SplitAt(u, p + [':'] + q, ':');
    SplitAt(p, q, ':');
    CredentialsMatchPair(u, p, username, password);
  }

  /** Text without ':' has no password field and never matches. */
  lemma CredentialsMatchNeedsColon(c: string, username: string, password: string)
    requires ':' !in c
    ensures !CredentialsMatch(c, username, password)
  {
    assert Split(c, ':') == [c];
  }

  /** The outcome for a "Basic" header whose credential part is the encoding of `bytes`. */
  lemma EncodedHeader(bytes: seq<byte>, envUsername: Option<string>, envPassword: Option<string>)
    ensures var h := "Basic " + Base64.Encode(bytes);
      OnRequest(Some(h), envUsername, envPassword)
      == if CredentialsMatch(Utf8.TextDecode(bytes), ExpectedUsername(envUsername), ExpectedPassword(envPassword))
         then Next else Respond(Unauthorized())
  {
    EncodedCredential(bytes);
  }

  /** An encoded credential survives the split on spaces and decodes back in `atob`. */
  lemma EncodedCredential(bytes: seq<byte>)
    ensures SchemeAndCredential("Basic " + Base64.Encode(bytes)) == ("Basic", Base64.Encode(bytes))
    ensures Base64.Atob(Base64.Encode(bytes)) == Some(bytes)
  {
    var e := Base64.Encode(bytes);
    Base64.AtobEncode(bytes);
    assert ' ' !in e by {
      assert Base64.AllAlphabet(Base64.EncodeUnpadded(bytes));
    }
    BasicParts(e, "");
  }

  /** Removing a byte order mark from "u:p" only touches `u`. */
  lemma StripBomPair(u: string, rest: string)
    ensures Utf8.StripBom(u + ":" + rest) == Utf8.StripBom(u) + ":" + rest
  {
    if |u| > 0 {
      assert (u + ":" + rest)[0] == u[0];
      assert (u + ":" + rest)[1..] == u[1..] + ":" + rest;
    }
  }

  /** The outcome for the header a client builds from `u` and the text after the first ':'. */
  lemma HeaderOutcome(u: string, rest: string, envUsername: Option<string>, envPassword: Option<string>)
    ensures OnRequest(Some(BasicHeader(u, rest)), envUsername, envPassword)
            == if CredentialsMatch(Utf8.StripBom(u) + ":" + rest, ExpectedUsername(envUsername), ExpectedPassword(envPassword))
               then Next else Respond(Unauthorized())
  {
    var text := u + ":" + rest;
    EncodedHeader(Utf8.Encode(text), envUsername, envPassword);
    Utf8.TextDecodeEncode(text);
    StripBomPair(u, rest);
  }

  /**
   * Round trip: the header a client builds from `u` and `p` (neither with
   * ':') is handed on exactly when the pair matches the configured one,
   * and otherwise gets the fixed 401; it never makes `atob` throw. A
   * leading U+FEFF in `u` is lost on the way, because the decoder takes it
   * for a byte order mark.
   */
  lemma BasicHeaderRoundTrip(u: string, p: string, envUsername: Option<string>, envPassword: Option<string>)
    requires ':' !in u && ':' !in p
    ensures OnRequest(Some(BasicHeader(u, p)), envUsername, envPassword)
            == if Utf8.StripBom(u) == ExpectedUsername(envUsername) && p == ExpectedPassword(envPassword)
               then Next else Respond(Unauthorized())
  {
    HeaderOutcome(u, p, envUsername, envPassword);
    assert ':' !in Utf8.StripBom(u);
    CredentialsMatchPair(Utf8.StripBom(u), p, ExpectedUsername(envUsername), ExpectedPassword(envPassword));
  }

  /** For a user name without a leading U+FEFF: handed on exactly when both fields match. */
  lemma ForwardedIffCredentialsMatch(u: string, p: string, envUsername: Option<string>, envPassword: Option<string>)
    requires ':' !in u && ':' !in p
    requires u == [] || u[0] != Utf8.Bom
    ensures OnRequest(Some(BasicHeader(u, p)), envUsername, envPassword) == Next
            <==> u == ExpectedUsername(envUsername) && p == ExpectedPassword(envPassword)
  {
    BasicHeaderRoundTrip(u, p, envUsername, envPassword);
  }

  /**
   * Only the first two ':'-separated fields count: a password that itself
   * holds ':' is judged by its part before the first ':'.
   */
  lemma PasswordTruncatedAtColon(u: string, p: string, q: string,
                                 envUsername: Option<string>, envPassword: Option<string>)
    requires ':' !in u && ':' !in p
    ensures OnRequest(Some(BasicHeader(u, p + ":" + q)), envUsername, envPassword)
            == OnRequest(Some(BasicHeader(u, p)), envUsername, envPassword)
  {
    var v := Utf8.StripBom(u);
    var username, password := ExpectedUsername(envUsername), ExpectedPassword(envPassword);
    assert CredentialsMatch(v + ":" + (p + ":" + q), username, password)
           <==> CredentialsMatch(v + ":" + p, username, password) by {
      assert ':' !in v;
      assert v + ":" + (p + ":" + q) == v + ":" + p + ":" + q;
      CredentialsMatchIgnoresRest(v, p, q, username, password);
    }
    HeaderOutcome(u, p + ":" + q, envUsername, envPassword);
    HeaderOutcome(u, p, envUsername, envPassword);
  }

  /** A credential with no ':' has no password field and is always rejected. */
  lemma CredentialWithoutColonRejected(c: string, envUsername: Option<string>, envPassword: Option<string>)
    requires ':' !in c
    ensures OnRequest(Some("Basic " + Base64.Encode(Utf8.Encode(c))), envUsername, envPassword)
            == Respond(Unauthorized())
  {
    EncodedHeader(Utf8.Encode(c), envUsername, envPassword);
    Utf8.TextDecodeEncode(c);
    assert ':' !in Utf8.StripBom(c);
    CredentialsMatchNeedsColon(Utf8.StripBom(c), ExpectedUsername(envUsername), ExpectedPassword(envPassword));
  }
}
