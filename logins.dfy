/** The school login the client calls: look the school up by its login code, compare the
    password with the stored hash, and sign a token for it. The two failures have different
    messages. Nothing in the store changes. */
module Login {
  import opened Wrappers
  import opened Requests
  import opened Schema
  import opened Auth
  import opened Http

  const MissingCredentials: string := "Missing login_code or password_hash"
  const UnknownCode: string := "Invalid credentials1"
  const WrongPassword: string := "Invalid credentials2"

  /** The body of a login request; `password_hash` carries the plain password. */
  datatype Credentials = Credentials(loginCode: Field<string>, password: Field<string>)

  /** `SELECT ... FROM schools WHERE login_code = $1 LIMIT 1`. */
  function FindByCode(ss: seq<School>, code: string): (r: Option<School>)
    ensures r.Some? ==> r.value in ss && r.value.loginCode == Some(code)
    ensures r.None? <==> !HasLoginCode(ss, code)
  {
    if ss == [] then None
    else if ss[0].loginCode == Some(code) then Some(ss[0])
    else
      assert forall s :: s in ss <==> s == ss[0] || s in ss[1..];
      FindByCode(ss[1..], code)
  }

  /** The login code is unique, so the school the lookup finds is the only one with that code. */
  lemma FoundIsOnly(schools: seq<School>, wrestlers: seq<Wrestler>, weights: seq<Weight>, code: string, s: School)
    requires Valid(schools, wrestlers, weights)
    requires s in schools && s.loginCode == Some(code)
    ensures FindByCode(schools, code) == Some(s)
  {
    var f := FindByCode(schools, code).value;
    var i :| 0 <= i < |schools| && schools[i] == s;
    var j :| 0 <= j < |schools| && schools[j] == f;
    assert i == j;
  }

  /** The school as the response shows it: every column the query returns but the hash. */
  function ProfileOf(s: School): (p: Profile)
    ensures p.id == s.id && p.code == LoginCodeClaim(s.loginCode) && p.name == s.name
    ensures p.primaryColor == s.primaryColor && p.secondaryColor == s.secondaryColor
  {
    Profile(s.id, LoginCodeClaim(s.loginCode), s.name, s.primaryColor, s.secondaryColor)
  }

  /** The handler over the school table. A body that does not parse or a connection failure is
      caught and answered with 500 and its message. */
  function HandleLogin(env: Env, body: Parsed<Credentials>, fault: Option<string>, schools: seq<School>): (reply: Reply)
    ensures body.Malformed? ==> reply == Error(500, body.message)
    ensures body.Body? && (!TruthyText(body.fields.loginCode) || !TruthyText(body.fields.password)) ==>
      reply == Error(400, MissingCredentials)
    ensures body.Body? && TruthyText(body.fields.loginCode) && TruthyText(body.fields.password) && fault.Some? ==>
      reply == Error(500, fault.value)
  {
    if body.Malformed? then Error(500, body.message)
    else
      var c := body.fields;
      if !TruthyText(c.loginCode) || !TruthyText(c.password) then Error(400, MissingCredentials)
      else if fault.Some? then Error(500, fault.value)
      else match FindByCode(schools, c.loginCode.value)
        case None => Error(401, UnknownCode)
        case Some(s) =>
          if !env.compare(c.password.value, s.passwordHash) then Error(401, WrongPassword)
          else Answer(200, LoggedIn(env.sign(Claims(s.id, LoginCodeClaim(s.loginCode)), TokenLifetime), ProfileOf(s)))
  }

  /** With both credentials present and the store reachable, the outcome is decided by the
      school that owns the code: the login succeeds exactly when the password matches that
      school's hash, the token is signed for that school's id and code with the 12h lifetime, and
      the profile is that school without its hash. */
  lemma LoginOutcome(env: Env, schools: seq<School>, wrestlers: seq<Wrestler>, weights: seq<Weight>,
                     code: string, password: string, s: School)
    requires Valid(schools, wrestlers, weights)
    requires code != "" && password != ""
    requires s in schools && s.loginCode == Some(code)
    ensures var reply := HandleLogin(env, Body(Credentials(Given(code), Given(password))), None, schools);
      if env.compare(password, s.passwordHash) then
        reply == Answer(200, LoggedIn(env.sign(Claims(s.id, LoginCodeClaim(Some(code))), TokenLifetime), ProfileOf(s)))
      else reply == Error(401, WrongPassword)
  {
    FoundIsOnly(schools, wrestlers, weights, code, s);
  }

  /** The two failures can be told apart: a caller learns whether a login code exists. */
  lemma LoginRevealsCodes(env: Env, schools: seq<School>, code: string, password: string)
    requires code != "" && password != ""
    ensures var reply := HandleLogin(env, Body(Credentials(Given(code), Given(password))), None, schools);
      (reply == Error(401, UnknownCode) <==> !HasLoginCode(schools, code)) &&
      (reply == Error(401, WrongPassword) ==> HasLoginCode(schools, code))
  {
  }

  /** A successful login always signs the claims of a school that has the code and whose hash
      accepts the password. */
  lemma LoginSignsOwner(env: Env, schools: seq<School>, code: string, password: string)
    requires code != "" && password != ""
    requires HandleLogin(env, Body(Credentials(Given(code), Given(password))), None, schools).Answer?
    requires HandleLogin(env, Body(Credentials(Given(code), Given(password))), None, schools).status == 200
    ensures exists s :: (s in schools && s.loginCode == Some(code) && env.compare(password, s.passwordHash) &&
      HandleLogin(env, Body(Credentials(Given(code), Given(password))), None, schools) ==
        Answer(200, LoggedIn(env.sign(Claims(s.id, LoginCodeClaim(s.loginCode)), TokenLifetime), ProfileOf(s))))
  {
    var s := FindByCode(schools, code).value;
    assert s in schools;
  }
}

/** The second login handler: the same lookup, comparison and token, but the lookup key and the
    claim are named `code`, and both failures give one message. */
module CodeLogin {
  import opened Wrappers
  import opened Requests
  import opened Schema
  import opened Auth
  import opened Http
  import Login

  const MissingCredentials: string := "Missing code or password"
  const InvalidCredentials: string := "Invalid credentials"

  datatype Credentials = Credentials(code: Field<string>, password: Field<string>)

  function ProfileOf(s: School): (p: Profile)
    ensures p.id == s.id && p.code == CodeOnlyClaim(s.loginCode) && p.name == s.name
    ensures p.primaryColor == s.primaryColor && p.secondaryColor == s.secondaryColor
  {
    Profile(s.id, CodeOnlyClaim(s.loginCode), s.name, s.primaryColor, s.secondaryColor)
  }

  /** The handler over the school table; the `code` column is read as the login code. */
  function HandleCodeLogin(env: Env, body: Parsed<Credentials>, fault: Option<string>, schools: seq<School>): (reply: Reply)
    ensures body.Malformed? ==> reply == Error(500, body.message)
    ensures body.Body? && (!TruthyText(body.fields.code) || !TruthyText(body.fields.password)) ==>
      reply == Error(400, MissingCredentials)
    ensures body.Body? && TruthyText(body.fields.code) && TruthyText(body.fields.password) && fault.Some? ==>
      reply == Error(500, fault.value)
  {
    if body.Malformed? then Error(500, body.message)
    else
      var c := body.fields;
      if !TruthyText(c.code) || !TruthyText(c.password) then Error(400, MissingCredentials)
      else if fault.Some? then Error(500, fault.value)
      else match Login.FindByCode(schools, c.code.value)
        case None => Error(401, InvalidCredentials)
        case Some(s) =>
          if !env.compare(c.password.value, s.passwordHash) then Error(401, InvalidCredentials)
          else Answer(200, LoggedIn(env.sign(Claims(s.id, CodeOnlyClaim(s.loginCode)), TokenLifetime), ProfileOf(s)))
  }

  /** The failure does not reveal whether the code exists: the answer is the one shared 401
      exactly when no school with that code accepts the password, and success signs the
      claims of the school that owns the code. */
  lemma CodeLoginOutcome(env: Env, schools: seq<School>, wrestlers: seq<Wrestler>, weights: seq<Weight>,
                         code: string, password: string)
    requires Valid(schools, wrestlers, weights)
    requires code != "" && password != ""
    ensures var reply := HandleCodeLogin(env, Body(Credentials(Given(code), Given(password))), None, schools);
      (reply == Error(401, InvalidCredentials) <==>
        !exists s :: s in schools && s.loginCode == Some(code) && env.compare(password, s.passwordHash)) &&
      (forall s :: s in schools && s.loginCode == Some(code) && env.compare(password, s.passwordHash) ==>
        reply == Answer(200, LoggedIn(env.sign(Claims(s.id, CodeOnlyClaim(Some(code))), TokenLifetime), ProfileOf(s))))
  {
    forall s | s in schools && s.loginCode == Some(code)
      ensures Login.FindByCode(schools, code) == Some(s)
    {
      Login.FoundIsOnly(schools, wrestlers, weights, code, s);
    }
  }

  /** An unknown code and a wrong password give the same status and the same body. */
  lemma FailuresIdentical(env: Env, schools: seq<School>, code: string, password: string, other: string, s: School)
    requires code != "" && password != "" && other != ""
    requires !HasLoginCode(schools, other)
    requires s in schools && s.loginCode == Some(code) && Login.FindByCode(schools, code) == Some(s)
    requires !env.compare(password, s.passwordHash)
    ensures HandleCodeLogin(env, Body(Credentials(Given(other), Given(password))), None, schools) ==
            HandleCodeLogin(env, Body(Credentials(Given(code), Given(password))), None, schools)
  {
  }
}

/** The token check endpoint: the stripped header is verified and the payload echoed back. */
module Verify {
  import opened Wrappers
  import opened Text
  import opened Auth
  import opened Http

  const InvalidToken: string := "Invalid token"

  /** `verify` failing for any reason is answered with one fixed message, not the library's. */
  function HandleVerify(env: Env, authorization: Option<string>): (reply: Reply)
    ensures TokenOf(authorization) == "" ==> reply == Error(401, NoToken)
  {
    var token := TokenOf(authorization);
    if token == "" then Error(401, NoToken)
    else match env.verify(token)
      case Failure(_) => Error(401, InvalidToken)
      case Success(payload) => Answer(200, TokenValid(payload))
  }

  /** The endpoint agrees with the helper every tenant handler uses: it answers 200 exactly
      when the helper accepts, with the payload unchanged, and otherwise 401 with "No token" or
      "Invalid token", which are never confused. */
  lemma VerifyAgreesWithHelper(env: Env, authorization: Option<string>)
    ensures var reply := HandleVerify(env, authorization);
      var auth := VerifyToken(env, authorization);
      (auth.Success? ==> reply == Answer(200, TokenValid(auth.value))) &&
      (auth.Failure? ==> reply == Error(401, if auth.error == NoToken && TokenOf(authorization) == "" then NoToken else InvalidToken)) &&
      (reply == Error(401, NoToken) <==> TokenOf(authorization) == "")
  {
  }

  /** For any letter case of `Bearer`, any white space after it and a token that does not start
      with white space, exactly that token is verified. */
  lemma VerifiesStrippedToken(env: Env, bearer: string, spaces: string, token: string)
    requires Lower(bearer) == "bearer" && |spaces| > 0
    requires forall i :: 0 <= i < |spaces| ==> IsSpace(spaces[i])
    requires token != [] && !IsSpace(token[0])
    ensures HandleVerify(env, Some(bearer + spaces + token)) ==
      match env.verify(token)
      case Failure(_) => Error(401, InvalidToken)
      case Success(payload) => Answer(200, TokenValid(payload))
  {
    StripBearerExact(bearer, spaces, token);
  }

  /** A non-empty header without the prefix is verified whole. */
  lemma VerifiesWholeHeader(env: Env, header: string)
    requires header != "" && !HasBearerPrefix(header)
    ensures HandleVerify(env, Some(header)) ==
      match env.verify(header)
      case Failure(_) => Error(401, InvalidToken)
      case Success(payload) => Answer(200, TokenValid(payload))
  {
  }
}

/** The administrator login: the body is compared with two environment variables, and on a
    match the fixed administrator token is returned. The body is parsed outside any handler of
    errors. */
module AdminLogin {
  import opened Wrappers
  import opened Requests
  import opened Auth
  import opened Http

  const MasterToken: string := "MASTER_ADMIN"
  const InvalidCredentials: string := "Invalid credentials"

  datatype AdminCredentials = AdminCredentials(username: Field<string>, password: Field<string>)

  function HandleAdminLogin(env: Env, body: Parsed<AdminCredentials>): (reply: Reply)
    ensures body.Malformed? ==> reply == Thrown(body.message)
  {
    match body
    case Malformed(message) => Thrown(message)
    case Body(c) =>
      if StrictEquals(c.username, env.adminUsername) && StrictEquals(c.password, env.adminPassword)
      then Answer(200, AdminToken(MasterToken))
      else Error(401, InvalidCredentials)
  }

  /** A parsed body gets one of exactly two answers: the fixed token, the same whatever was
      sent, when both properties equal the configured values; otherwise the same 401 whichever
      of the two differs. */
  lemma AdminOutcome(env: Env, c: AdminCredentials)
    ensures var reply := HandleAdminLogin(env, Body(c));
      (reply == Answer(200, AdminToken(MasterToken)) <==>
        StrictEquals(c.username, env.adminUsername) && StrictEquals(c.password, env.adminPassword)) &&
      (reply == Answer(200, AdminToken(MasterToken)) || reply == Error(401, InvalidCredentials))
  {
  }

  /** Set values are matched by exactly equal strings. */
  lemma ConfiguredMatch(env: Env, username: string, password: string)
    requires env.adminUsername.Some? && env.adminPassword.Some?
    ensures HandleAdminLogin(env, Body(AdminCredentials(Given(username), Given(password)))).Answer?
    ensures HandleAdminLogin(env, Body(AdminCredentials(Given(username), Given(password)))).status == 200 <==>
      username == env.adminUsername.value && password == env.adminPassword.value
  {
  }

  /** With neither variable set, a body that omits both properties is let in, while one that
      sends any value is refused. */
  lemma UnsetAcceptsEmptyBody(env: Env, username: string)
    requires env.adminUsername.None? && env.adminPassword.None?
    ensures HandleAdminLogin(env, Body(AdminCredentials(Undefined, Undefined))) == Answer(200, AdminToken(MasterToken))
    ensures HandleAdminLogin(env, Body(AdminCredentials(Given(username), Undefined))) == Error(401, InvalidCredentials)
  {
  }
}
