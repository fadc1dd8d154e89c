/**
 * Account rules (packages/backend/src/auth/auth.service.ts): registration
 * with a domain allow-list, login with a fixed order of checks, and password
 * change.
 *
 * The user table is a map keyed by email, with an index from id to email.
 * `bcrypt.compare` and `jwtService.sign` are passed in as functions the
 * model knows nothing about. What `bcrypt.hash` returns is passed in as a
 * value, since bcrypt salts every call and the same password need not hash
 * the same way twice. Each exception the service throws is an `AuthError`
 * value.
 */
module Auth {
  import opened Wrappers

  datatype User = User(
    id: int,
    email: string,
    password: string,
    name: string,
    role: string,
    isApproved: bool)

  /** The three exceptions the service throws, each with its message. */
  datatype AuthError =
    | BadRequest(message: string)
    | Unauthorized(message: string)
    | Forbidden(message: string)

  datatype LoginDto = LoginDto(email: string, password: string)
  datatype CreateAuthDto = CreateAuthDto(email: string, password: string, name: string)
  /** Both fields may be absent from the request body. */
  datatype UpdateAuthDto = UpdateAuthDto(currentPassword: Option<string>, newPassword: Option<string>)

  /** What the access token is signed over. */
  datatype TokenPayload = TokenPayload(sub: int, email: string, role: string)
  /** The user as login returns it: there is no password field. */
  datatype PublicUser = PublicUser(name: string, email: string, role: string)
  datatype LoginResponse = LoginResponse(accessToken: string, user: PublicUser)
  datatype MessageResponse = MessageResponse(message: string)

  const AllowedDomains: seq<string> := ["@outlook.com", "@hotmail.com", "@gmail.com"]
  const NewUserRole: string := "USER"

  const BadCredentialsMessage: string := "Email ou senha incorretos."
  const PendingLoginMessage: string := "Cadastro enviado, esperando aprovação."
  const DomainMessage: string :=
    "O email deve ser de um domínio permitido: @outlook.com, @hotmail.com, @gmail.com"
  const AwaitingApprovalMessage: string := "Este email já foi cadastrado e está aguardando aprovação."
  const AlreadyRegisteredMessage: string := "Este email já está cadastrado."
  const RegisteredMessage: string :=
    "Cadastro enviado para análise. Aguarde a aprovação do administrador para logar."
  const MissingPasswordsMessage: string := "Senha atual e nova senha são obrigatórias."
  const UserNotFoundMessage: string := "Usuário não encontrado."
  const WrongCurrentPasswordMessage: string := "A senha atual está incorreta."
  const PasswordUpdatedMessage: string := "Senha atualizada com sucesso."

  // ---------------------------------------------------------------------
  // Lowercasing and the domain allow-list

  predicate IsUpperAscii(c: char) {
    'A' <= c <= 'Z'
  }

  /** A string with no upper-case letter, as `toLowerCase` leaves it. */
  ghost predicate IsLower(s: string) {
    forall k :: 0 <= k < |s| ==> !IsUpperAscii(s[k])
  }

  function LowerChar(c: char): (d: char)
    ensures !IsUpperAscii(d)
    ensures IsUpperAscii(c) ==> d as int == c as int + 32
    ensures !IsUpperAscii(c) ==> d == c
  {
    if IsUpperAscii(c) then (c as int + 32) as char else c
  }

  /** `toLowerCase()`: each letter mapped to lower case, nothing else changed. */
  function Lower(s: string): (r: string)
    ensures |r| == |s| && IsLower(r)
    ensures forall k :: 0 <= k < |s| ==> r[k] == LowerChar(s[k])
  {
    if s == [] then [] else [LowerChar(s[0])] + Lower(s[1..])
  }

  /** A string that is already lower case is its own lower case. */
  lemma {:induction false} LowerOfLower(s: string)
    requires IsLower(s)
    ensures Lower(s) == s
  {
    if s != [] {
      LowerOfLower(s[1..]);
    }
  }

  /** Lowercasing twice is lowercasing once. */
  lemma LowerIdempotent(s: string)
    ensures Lower(Lower(s)) == Lower(s)
  {
    LowerOfLower(Lower(s));
  }

  /** `s.endsWith(suffix)` */
  predicate EndsWith(s: string, suffix: string) {
    |suffix| <= |s| && s[|s| - |suffix|..] == suffix
  }

  /** `endsWith` holds exactly when the string is some prefix followed by the suffix. */
  lemma EndsWithMeansSuffix(s: string, suffix: string)
    ensures EndsWith(s, suffix) <==> exists p :: p + suffix == s
  {
    if EndsWith(s, suffix) {
      assert s[..|s| - |suffix|] + suffix == s;
    }
    if exists p :: p + suffix == s {
      var p :| p + suffix == s;
      assert s[|p|..] == suffix;
    }
  }

  /** `domains.some(domain => email.endsWith(domain))` */
  function AnyEndsWith(email: string, domains: seq<string>): (b: bool)
    ensures b <==> exists k :: 0 <= k < |domains| && EndsWith(email, domains[k])
  {
    if domains == [] then false
    else if EndsWith(email, domains[0]) then true
    else
      var b := AnyEndsWith(email, domains[1..]);
      assert forall k :: 1 <= k < |domains| ==> domains[k] == domains[1..][k - 1];
      b
  }

  /**
   * The allow-list test `register` applies to the lowercased email: it ends
   * with one of the three allowed suffixes.
   */
  function IsDomainValid(email: string): (b: bool)
    ensures b <==>
      EndsWith(email, "@outlook.com") || EndsWith(email, "@hotmail.com") || EndsWith(email, "@gmail.com")
  {
    assert AllowedDomains[0] == "@outlook.com";
    assert AllowedDomains[1] == "@hotmail.com";
    assert AllowedDomains[2] == "@gmail.com";
    AnyEndsWith(email, AllowedDomains)
  }

  /** The allowed suffixes contain no upper-case letter. */
  lemma AllowedDomainsAreLower()
    ensures forall k :: 0 <= k < |AllowedDomains| ==> IsLower(AllowedDomains[k])
  {
  }

  /** Lowercasing keeps a lower-case suffix in place. */
  lemma LowerKeepsLowerSuffix(email: string, d: string)
    requires IsLower(d) && EndsWith(email, d)
    ensures EndsWith(Lower(email), d)
  {
    var off := |email| - |d|;
    var low := Lower(email);
    assert |low| == |email|;
    forall j | 0 <= j < |d| ensures low[off + j] == d[j] {
      assert email[off + j] == email[off..][j] == d[j];
      assert !IsUpperAscii(d[j]);
      assert low[off + j] == LowerChar(email[off + j]);
    }
    assert low[off..] == d;
  }

  /**
   * Lowercasing before the allow-list test never rejects an address that
   * already ends with an allowed suffix: the suffixes are lower case, so
   * lowercasing leaves them in place.
   */
  lemma LoweringKeepsAllowedDomain(email: string)
    requires IsDomainValid(email)
    ensures IsDomainValid(Lower(email))
  {
    var k :| 0 <= k < |AllowedDomains| && EndsWith(email, AllowedDomains[k]);
    AllowedDomainsAreLower();
    LowerKeepsLowerSuffix(email, AllowedDomains[k]);
  }

  /** An address outside the allowed domains is refused. */
  lemma ForeignDomainRefused()
    ensures !IsDomainValid("hacker@virus.com")
  {
    assert "hacker@virus.com"[6..] != "@gmail.com";
    assert "hacker@virus.com"[4..] != "@outlook.com";
    assert "hacker@virus.com"[4..] != "@hotmail.com";
  }

  /** An address in an allowed domain is accepted. */
  lemma GmailAccepted()
    ensures IsDomainValid("novo@gmail.com")
  {
    assert "novo@gmail.com"[4..] == "@gmail.com";
  }

  /** So is one in another allowed domain. */
  lemma HotmailAccepted()
    ensures IsDomainValid("test@hotmail.com")
  {
    assert "test@hotmail.com"[4..] == "@hotmail.com";
  }

  // ---------------------------------------------------------------------
  // Login

  /**
   * `login`: the email is looked up exactly as given. An unknown email or a
   * password that does not match is refused first; only then is an
   * unapproved account refused; otherwise a token is signed.
   */
  function Login(
    users: map<string, User>, dto: LoginDto,
    compare: (string, string) -> bool, sign: TokenPayload -> string)
    : (r: Result<LoginResponse, AuthError>)
    ensures r.Err? ==> r.error in {Unauthorized(BadCredentialsMessage), Forbidden(PendingLoginMessage)}
    ensures r == Err(Unauthorized(BadCredentialsMessage)) <==>
      dto.email !in users || !compare(dto.password, users[dto.email].password)
    ensures r.Ok? <==>
      dto.email in users && compare(dto.password, users[dto.email].password) && users[dto.email].isApproved
    ensures r.Ok? ==>
      var u := users[dto.email];
      r.value.accessToken == sign(TokenPayload(u.id, u.email, u.role))
      && r.value.user == PublicUser(u.name, u.email, u.role)
  {
    if dto.email !in users || !compare(dto.password, users[dto.email].password) then
      Err(Unauthorized(BadCredentialsMessage))
    else
      var u := users[dto.email];
      if !u.isApproved then Err(Forbidden(PendingLoginMessage))
      else
        Ok(LoginResponse(
          sign(TokenPayload(u.id, u.email, u.role)),
          PublicUser(u.name, u.email, u.role)))
  }

  /** The password is checked before approval: a wrong password on a pending account is Unauthorized, not Forbidden. */
  lemma WrongPasswordBeforeApproval(
    users: map<string, User>, dto: LoginDto,
    compare: (string, string) -> bool, sign: TokenPayload -> string)
    requires dto.email in users && !users[dto.email].isApproved
    requires !compare(dto.password, users[dto.email].password)
    ensures Login(users, dto, compare, sign) == Err(Unauthorized(BadCredentialsMessage))
  {
  }

  /**
   * Login does not lowercase: when every stored email is lower case, an
   * email given with an upper-case letter matches no account, whatever the
   * password.
   */
  lemma LoginIsCaseSensitive(
    users: map<string, User>, dto: LoginDto,
    compare: (string, string) -> bool, sign: TokenPayload -> string, k: nat)
    requires forall e :: e in users ==> IsLower(e)
    requires k < |dto.email| && IsUpperAscii(dto.email[k])
    ensures Login(users, dto, compare, sign) == Err(Unauthorized(BadCredentialsMessage))
  {
    assert !IsLower(dto.email);
  }

  // ---------------------------------------------------------------------
  // Registration

  /**
   * The checks `register` makes on the lowercased email, in order: the
   * domain allow-list, then an existing account, whose approval state picks
   * the message. None means the account may be created.
   */
  function RegisterCheck(users: map<string, User>, email: string): (r: Option<AuthError>)
    ensures r.None? <==> IsDomainValid(email) && email !in users
    ensures r.Some? ==> r.value.BadRequest?
    ensures !IsDomainValid(email) ==> r == Some(BadRequest(DomainMessage))
    ensures IsDomainValid(email) && email in users ==>
      r == Some(BadRequest(if users[email].isApproved then AlreadyRegisteredMessage else AwaitingApprovalMessage))
  {
    if !IsDomainValid(email) then Some(BadRequest(DomainMessage))
    else if email in users then
      if !users[email].isApproved then Some(BadRequest(AwaitingApprovalMessage))
      else Some(BadRequest(AlreadyRegisteredMessage))
    else None
  }

  /** The table after a successful registration: one new pending `USER` under the lowercased email. */
  function Registered(users: map<string, User>, id: int, dto: CreateAuthDto, hashed: string)
    : (r: map<string, User>)
    ensures Lower(dto.email) in r && r.Keys == users.Keys + {Lower(dto.email)}
    ensures Lower(dto.email) !in users ==> |r| == |users| + 1
    ensures var u := r[Lower(dto.email)];
      u.id == id && u.email == Lower(dto.email) && u.password == hashed && u.name == dto.name
      && u.role == NewUserRole && !u.isApproved
    ensures forall e :: e in users && e != Lower(dto.email) ==> r[e] == users[e]
  {
    var email := Lower(dto.email);
    users[email := User(id, email, hashed, dto.name, NewUserRole, false)]
  }

  /** A fresh account cannot log in: with the right password it is Forbidden until approved. */
  lemma FreshAccountIsPending(
    users: map<string, User>, id: int, dto: CreateAuthDto, hashed: string,
    compare: (string, string) -> bool, sign: TokenPayload -> string)
    requires compare(dto.password, hashed)
    ensures var after := Registered(users, id, dto, hashed);
      Login(after, LoginDto(Lower(dto.email), dto.password), compare, sign) == Err(Forbidden(PendingLoginMessage))
  {
  }

  /**
   * As written, an account registered with an upper-case letter in its
   * email cannot log in with the email it registered with: the table holds
   * the lowercased email and login looks up the string as given.
   */
  lemma MixedCaseRegistrationCannotLogIn(
    users: map<string, User>, id: int, dto: CreateAuthDto, hashed: string,
    compare: (string, string) -> bool, sign: TokenPayload -> string, k: nat)
    requires forall e :: e in users ==> IsLower(e)
    requires k < |dto.email| && IsUpperAscii(dto.email[k])
    ensures var after := Registered(users, id, dto, hashed);
      Login(after, LoginDto(dto.email, dto.password), compare, sign) == Err(Unauthorized(BadCredentialsMessage))
  {
    var after := Registered(users, id, dto, hashed);
    forall e | e in after ensures IsLower(e) {
      if e == Lower(dto.email) {
        assert IsLower(Lower(dto.email));
      } else {
        assert e in users;
      }
    }
    LoginIsCaseSensitive(after, LoginDto(dto.email, dto.password), compare, sign, k);
  }

  /**
   * Login as evidently intended: the email is lowercased before the lookup,
   * as `register` does before storing it.
   */
  function LoginNormalized(
    users: map<string, User>, dto: LoginDto,
    compare: (string, string) -> bool, sign: TokenPayload -> string)
    : (r: Result<LoginResponse, AuthError>)
    ensures r.Ok? <==>
      var e := Lower(dto.email);
      e in users && compare(dto.password, users[e].password) && users[e].isApproved
    ensures r.Err? ==> r.error in {Unauthorized(BadCredentialsMessage), Forbidden(PendingLoginMessage)}
  {
    Login(users, dto.(email := Lower(dto.email)), compare, sign)
  }

  /** The corrected login ignores the case of the email it is given. */
  lemma LoginNormalizedIgnoresCase(
    users: map<string, User>, dto: LoginDto,
    compare: (string, string) -> bool, sign: TokenPayload -> string)
    ensures LoginNormalized(users, dto, compare, sign)
         == LoginNormalized(users, dto.(email := Lower(dto.email)), compare, sign)
  {
    LowerIdempotent(dto.email);
  }

  /** On a lower-case email the corrected login is the login as written. */
  lemma LoginNormalizedAgreesOnLowerCase(
    users: map<string, User>, dto: LoginDto,
    compare: (string, string) -> bool, sign: TokenPayload -> string)
    requires IsLower(dto.email)
    ensures LoginNormalized(users, dto, compare, sign) == Login(users, dto, compare, sign)
  {
    LowerOfLower(dto.email);
    assert dto.(email := Lower(dto.email)) == dto;
  }

  /**
   * With the corrected login, an account logs in with the very email string
   * it registered with: it is refused only as pending, never as unknown.
   */
  lemma RegisteredAccountIsFoundByNormalizedLogin(
    users: map<string, User>, id: int, dto: CreateAuthDto, hashed: string,
    compare: (string, string) -> bool, sign: TokenPayload -> string)
    requires compare(dto.password, hashed)
    ensures var after := Registered(users, id, dto, hashed);
      LoginNormalized(after, LoginDto(dto.email, dto.password), compare, sign)
      == Err(Forbidden(PendingLoginMessage))
  {
    FreshAccountIsPending(users, id, dto, hashed, compare, sign);
  }

  // ---------------------------------------------------------------------
  // Password change

  /** JavaScript's `!value` on an optional string: absent or empty. */
  predicate Missing(s: Option<string>) {
    s.None? || s.value == ""
  }

  /**
   * The checks `updatePassword` makes, in order: both fields present, the
   * user found, the current password matching. None means the change goes
   * ahead.
   */
  function PasswordChangeCheck(user: Option<User>, dto: UpdateAuthDto, compare: (string, string) -> bool)
    : (r: Option<AuthError>)
    ensures Missing(dto.currentPassword) || Missing(dto.newPassword) ==>
      r == Some(BadRequest(MissingPasswordsMessage))
    ensures r.None? <==>
      && !Missing(dto.currentPassword) && !Missing(dto.newPassword)
      && user.Some? && compare(dto.currentPassword.value, user.value.password)
    ensures r.Some? && !r.value.BadRequest? ==> r.value.Unauthorized?
    ensures !Missing(dto.currentPassword) && !Missing(dto.newPassword) && user.None? ==>
      r == Some(Unauthorized(UserNotFoundMessage))
    ensures (!Missing(dto.currentPassword) && !Missing(dto.newPassword) && user.Some?
             && !compare(dto.currentPassword.value, user.value.password)) ==>
      r == Some(Unauthorized(WrongCurrentPasswordMessage))
    ensures r.Some? && r.value.BadRequest? ==> Missing(dto.currentPassword) || Missing(dto.newPassword)
    ensures dto.currentPassword == Some("") || dto.newPassword == Some("") ==>
      r == Some(BadRequest(MissingPasswordsMessage))
  {
    if Missing(dto.currentPassword) || Missing(dto.newPassword) then Some(BadRequest(MissingPasswordsMessage))
    else if user.None? then Some(Unauthorized(UserNotFoundMessage))
    else if !compare(dto.currentPassword.value, user.value.password) then
      Some(Unauthorized(WrongCurrentPasswordMessage))
    else None
  }

  /** The table after a password change: only that user's password is replaced. */
  function WithPassword(users: map<string, User>, email: string, hashed: string): (r: map<string, User>)
    requires email in users
    ensures r.Keys == users.Keys
    ensures r[email] == users[email].(password := hashed)
    ensures forall e :: e in users && e != email ==> r[e] == users[e]
  {
    users[email := users[email].(password := hashed)]
  }

  /** After a password change, an approved user logs in with the new password. */
  lemma NewPasswordLogsIn(
    users: map<string, User>, email: string, newPassword: string, hashed: string,
    compare: (string, string) -> bool, sign: TokenPayload -> string)
    requires email in users && users[email].isApproved
    requires compare(newPassword, hashed)
    ensures Login(WithPassword(users, email, hashed), LoginDto(email, newPassword), compare, sign).Ok?
  {
  }

  // ---------------------------------------------------------------------
  // The service object

  class AuthService {
    /** The `user` table, keyed by email. */
    var users: map<string, User>
    /** The table's id index: id to email. */
    var emailById: map<int, string>
    /** The next id the table's autoincrement hands out. */
    var nextId: int

    ghost predicate Valid()
      reads this
    {
      && nextId >= 1
      && (forall e :: e in users ==>
            && users[e].email == e && IsLower(e)
            && 1 <= users[e].id < nextId
            && users[e].id in emailById && emailById[users[e].id] == e)
      && (forall id :: id in emailById ==> emailById[id] in users && users[emailById[id]].id == id)
    }

    constructor ()
      ensures Valid() && users == map[] && emailById == map[]
    {
      users := map[];
      emailById := map[];
      nextId := 1;
    }

    /** The user `findUnique({ where: { id } })` returns. */
    function FindById(id: int): (r: Option<User>)
      reads this
      requires Valid()
      ensures r.None? <==> id !in emailById
      ensures r.Some? ==> r.value.id == id && r.value.email in users && users[r.value.email] == r.value
    {
      if id in emailById then Some(users[emailById[id]]) else None
    }

    /**
     * `register`: lowercase the email, apply `RegisterCheck`, and on success
     * add one pending `USER` with a fresh id and `hashed`, the value
     * `bcrypt.hash` returned for the password.
     */
    method Register(dto: CreateAuthDto, hashed: string) returns (r: Result<MessageResponse, AuthError>)
      requires Valid()
      modifies this
      ensures Valid()
      ensures var check := RegisterCheck(old(users), Lower(dto.email));
        && (check.Some? ==>
              r == Err(check.value)
              && users == old(users) && emailById == old(emailById) && nextId == old(nextId))
        && (check.None? ==>
              r == Ok(MessageResponse(RegisteredMessage))
              && users == Registered(old(users), old(nextId), dto, hashed)
              && emailById == old(emailById)[old(nextId) := Lower(dto.email)]
              && nextId == old(nextId) + 1)
    {
      var email := Lower(dto.email);
      if !IsDomainValid(email) {
        return Err(BadRequest(DomainMessage));
      }
      if email in users {
        if !users[email].isApproved {
          return Err(BadRequest(AwaitingApprovalMessage));
        }
        return Err(BadRequest(AlreadyRegisteredMessage));
      }
      assert nextId !in emailById;
      users := users[email := User(nextId, email, hashed, dto.name, NewUserRole, false)];
      emailById := emailById[nextId := email];
      nextId := nextId + 1;
      r := Ok(MessageResponse(RegisteredMessage));
    }

    /**
     * `updatePassword`: apply `PasswordChangeCheck` to the user with that
     * id and, on success, replace only that user's password with `hashed`,
     * the value `bcrypt.hash` returned for the new one.
     */
    method UpdatePassword(
      userId: int, dto: UpdateAuthDto,
      compare: (string, string) -> bool, hashed: string)
      returns (r: Result<MessageResponse, AuthError>)
      requires Valid()
      modifies this
      ensures Valid() && emailById == old(emailById) && nextId == old(nextId)
      ensures var check := PasswordChangeCheck(old(FindById(userId)), dto, compare);
        && (check.Some? ==> r == Err(check.value) && users == old(users))
        && (check.None? ==>
              r == Ok(MessageResponse(PasswordUpdatedMessage))
              && users == WithPassword(old(users), old(emailById)[userId], hashed))
    {
      if Missing(dto.currentPassword) || Missing(dto.newPassword) {
        return Err(BadRequest(MissingPasswordsMessage));
      }
      var user := FindById(userId);
      if user.None? {
        return Err(Unauthorized(UserNotFoundMessage));
      }
      var isMatch := compare(dto.currentPassword.value, user.value.password);
      if !isMatch {
        return Err(Unauthorized(WrongCurrentPasswordMessage));
      }
      var email := emailById[userId];
      users := users[email := users[email].(password := hashed)];
      r := Ok(MessageResponse(PasswordUpdatedMessage));
    }
  }
}
