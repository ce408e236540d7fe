/** Token handling shared by the tenant handlers: the `Authorization` header is stripped of a
    `Bearer` prefix and the rest is verified as a JSON web token. The cryptography (`jwt.sign`,
    `jwt.verify`, `bcrypt.hash`, `bcrypt.compare`) and the environment variables are not
    modelled; a handler receives them as the fields of an `Env`. */
module Auth {
  import opened Wrappers
  import opened Text

  /** The second claim of a school token, under the property name the issuing handler uses. */
  datatype CodeClaim = LoginCodeClaim(loginCode: Option<string>) | CodeOnlyClaim(code: Option<string>)

  /** The payload of a school token. */
  datatype Claims = Claims(schoolId: nat, code: CodeClaim)

  /** The foreign functions and the configuration a handler runs with.
      `verify(t)` is `jwt.verify(t, JWT_SECRET)`: the payload, or the message it throws;
      `sign(c, e)` is `jwt.sign(c, JWT_SECRET, { expiresIn: e })`;
      `hash(p)` is `bcrypt.hash(p, 10)`; `compare(p, h)` is `bcrypt.compare(p, h)`;
      the last two are `ADMIN_USERNAME` and `ADMIN_PASSWORD`, which may be unset. */
  datatype Env = Env(
    verify: string -> Result<Claims>,
    sign: (Claims, string) -> string,
    hash: string -> string,
    compare: (string, string) -> bool,
    adminUsername: Option<string>,
    adminPassword: Option<string>)

  /** The expiry every school token is signed with. */
  const TokenLifetime: string := "12h"

  const NoToken: string := "No token"

  /** The header starts with `Bearer` in any letter case followed by at least one white-space character. */
  predicate HasBearerPrefix(header: string) {
    |header| > 6 && Lower(header[..6]) == "bearer" && IsSpace(header[6])
  }

  /** `header.replace(/^Bearer\s+/i, "")`: the prefix and all the white space after it are
      removed; a header without the prefix is left as it is. */
  function StripBearer(header: string): (token: string)
    ensures !HasBearerPrefix(header) ==> token == header
    ensures HasBearerPrefix(header) ==> |token| < |header| - 6 && token == header[|header| - |token|..]
    ensures HasBearerPrefix(header) ==> token == [] || !IsSpace(token[0])
  {
    if HasBearerPrefix(header) then TrimStart(header[7..]) else header
  }

  /** For any spelling of `Bearer`, any non-empty run of white space and a token that does not
      itself start with white space, exactly that token is left. */
  lemma StripBearerExact(bearer: string, spaces: string, token: string)
    requires Lower(bearer) == "bearer" && |spaces| > 0
    requires forall i :: 0 <= i < |spaces| ==> IsSpace(spaces[i])
    requires token == [] || !IsSpace(token[0])
    ensures StripBearer(bearer + spaces + token) == token
  {
    BearerHeader(bearer, spaces, token);
    TrimStartSpaces(spaces[1..], token);
  }

  /** Such a header has the prefix, and after its first white-space character come the rest of
      the white space and the token. */
  lemma BearerHeader(bearer: string, spaces: string, token: string)
    requires Lower(bearer) == "bearer" && |spaces| > 0 && IsSpace(spaces[0])
    ensures HasBearerPrefix(bearer + spaces + token)
    ensures (bearer + spaces + token)[7..] == spaces[1..] + token
  {
    var h := bearer + spaces + token;
    assert |bearer| == 6;
    assert h[..6] == bearer;
    assert h[6] == spaces[0];
  }

  lemma {:induction false} TrimStartSpaces(spaces: string, rest: string)
    requires forall i :: 0 <= i < |spaces| ==> IsSpace(spaces[i])
    requires rest == [] || !IsSpace(rest[0])
    ensures TrimStart(spaces + rest) == rest
  {
    if spaces == [] {
      assert spaces + rest == rest;
    } else {
      assert (spaces + rest)[1..] == spaces[1..] + rest;
      TrimStartSpaces(spaces[1..], rest);
    }
  }

  /** `event.headers.authorization || ""` after the prefix is stripped. */
  function TokenOf(authorization: Option<string>): string {
    StripBearer(authorization.GetOr(""))
  }

  /** The `verifyToken` helper of the tenant handlers: an empty token fails with "No token";
      any other token is the verifier's verdict on exactly the stripped header. */
  function VerifyToken(env: Env, authorization: Option<string>): (r: Result<Claims>)
    ensures TokenOf(authorization) == "" ==> r == Failure(NoToken)
    ensures TokenOf(authorization) != "" ==> r == env.verify(TokenOf(authorization))
  {
    var token := TokenOf(authorization);
    if token == "" then Failure(NoToken) else env.verify(token)
  }

  /** A missing header, an empty one, and one that is only the prefix and white space all fail with "No token". */
  lemma NoHeaderNoToken(env: Env, bearer: string, spaces: string)
    requires Lower(bearer) == "bearer" && |spaces| > 0
    requires forall i :: 0 <= i < |spaces| ==> IsSpace(spaces[i])
    ensures VerifyToken(env, None) == Failure(NoToken)
    ensures VerifyToken(env, Some("")) == Failure(NoToken)
    ensures VerifyToken(env, Some(bearer + spaces)) == Failure(NoToken)
  {
    StripBearerExact(bearer, spaces, "");
    assert bearer + spaces + "" == bearer + spaces;
  }
}
