/** The decisions of the password authentication endpoints (routes/auth.js):
    registration with its ordered input checks, enumeration-safe login, the
    profile lookup and logout. The user collection is an in-memory table of
    records; the password check of a stored record and the token signer are
    abstracted: `matchPassword` is a parameter and a token carries only the id
    it was issued for. */
module AuthRoutes {
  import opened Wrappers

  type UserId = nat

  /** A stored user; `password` is what registration handed to the collection. */
  datatype UserRecord = UserRecord(id: UserId, name: string, email: string, password: string)

  /** The user object a response carries: `{ id, name, email }`. */
  datatype PublicUser = PublicUser(id: UserId, name: string, email: string)

  /** `generateToken(id)`: a signed, expiring token; only its subject is modelled. */
  datatype Token = Token(subject: UserId)

  datatype Body =
    | ErrorBody(error: string)                  // { error }
    | AuthBody(token: Token, user: PublicUser)  // { success: true, token, user }
    | UserBody(user: PublicUser)                // { success: true, user }
    | AckBody(message: string)                  // { success: true, message }

  datatype Response = Response(status: int, body: Body)

  /** The fields of a request body; a field the client left out is `None`. */
  datatype RegisterRequest = RegisterRequest(name: Option<string>, email: Option<string>, password: Option<string>)
  datatype LoginRequest = LoginRequest(email: Option<string>, password: Option<string>)

  const MinPasswordLength: int := 6

  const MissingRegisterFields: string := "Please provide all fields"
  const PasswordTooShort: string := "Password must be at least 6 characters"
  const UserAlreadyExists: string := "User already exists with this email"
  const MissingLoginFields: string := "Please provide email and password"
  const InvalidCredentials: string := "Invalid credentials"
  const LoggedOut: string := "Logged out successfully"
  const ServerError: string := "Server error"

  function PublicView(user: UserRecord): PublicUser
  {
    PublicUser(user.id, user.name, user.email)
  }

  /** No two records share an e-mail address. */
  ghost predicate UniqueEmails(users: seq<UserRecord>)
  {
    forall i, j :: 0 <= i < j < |users| ==> users[i].email != users[j].email
  }

  /** The first record, in table order, that satisfies `matches`, if there is one. */
  function Find(users: seq<UserRecord>, matches: UserRecord -> bool): (found: Option<UserRecord>)
    ensures found.None? <==> forall i :: 0 <= i < |users| ==> !matches(users[i])
    ensures found.Some? ==> found.value in users && matches(found.value)
  {
    if users == [] then None
    else if matches(users[0]) then Some(users[0])
    else Find(users[1..], matches)
  }

  function HasEmail(email: string): UserRecord -> bool
  {
    (user: UserRecord) => user.email == email
  }

  function HasId(id: UserId): UserRecord -> bool
  {
    (user: UserRecord) => user.id == id
  }

  /** `User.findOne({ email })`: a record with exactly this address. */
  function FindOne(users: seq<UserRecord>, email: string): Option<UserRecord>
  {
    Find(users, HasEmail(email))
  }

  /** `User.findById(id)`: the record with this id. */
  function FindById(users: seq<UserRecord>, id: UserId): Option<UserRecord>
  {
    Find(users, HasId(id))
  }

  /** The input checks of `/register`, in their order: every field present and
      non-empty first, then the password length. `None` means both passed. */
  function ValidateRegistration(req: RegisterRequest): (failure: Option<string>)
    ensures failure == Some(MissingRegisterFields)
            <==> !(Truthy(req.name) && Truthy(req.email) && Truthy(req.password))
    ensures failure == Some(PasswordTooShort)
            <==> Truthy(req.name) && Truthy(req.email) && Truthy(req.password)
                 && |req.password.value| < MinPasswordLength
    ensures failure.None?
            <==> Truthy(req.name) && Truthy(req.email) && Truthy(req.password)
                 && |req.password.value| >= MinPasswordLength
  {
    if !Truthy(req.name) || !Truthy(req.email) || !Truthy(req.password) then Some(MissingRegisterFields)
    else if |req.password.value| < MinPasswordLength then Some(PasswordTooShort)
    else None
  }

  /** `/login`: missing fields are refused before the table is consulted; an unknown
      address and a wrong password get the same 401; otherwise the stored user's
      token and public fields. */
  function Login(users: seq<UserRecord>, req: LoginRequest,
                 matchPassword: (UserRecord, string) -> bool): (resp: Response)
    ensures resp.status == 400 <==> !Truthy(req.email) || !Truthy(req.password)
    ensures resp.status == 400 ==> resp.body == ErrorBody(MissingLoginFields)
    ensures resp.status == 401 ==> resp.body == ErrorBody(InvalidCredentials)
    ensures resp.status == 200 || resp.status == 400 || resp.status == 401
    ensures resp.status == 200 ==>
              exists user :: user in users && user.email == req.email.value
                             && matchPassword(user, req.password.value)
                             && resp.body == AuthBody(Token(user.id), PublicView(user))
    ensures resp.status == 401 <==>
              Truthy(req.email) && Truthy(req.password)
              && (FindOne(users, req.email.value).None?
                  || !matchPassword(FindOne(users, req.email.value).value, req.password.value))
  {
    if !Truthy(req.email) || !Truthy(req.password) then Response(400, ErrorBody(MissingLoginFields))
    else
      match FindOne(users, req.email.value)
      case None => Response(401, ErrorBody(InvalidCredentials))
      case Some(user) =>
        if !matchPassword(user, req.password.value) then Response(401, ErrorBody(InvalidCredentials))
        else Response(200, AuthBody(Token(user.id), PublicView(user)))
  }

  /** `/me`, for a request whose token named `id`: the user's public fields; a token
      whose user no longer exists fails with a server error, since reading the
      fields of the missing record throws. */
  function Me(users: seq<UserRecord>, id: UserId): (resp: Response)
    ensures resp.status == 200 <==> exists i :: 0 <= i < |users| && users[i].id == id
    ensures resp.status != 200 ==> resp == Response(500, ErrorBody(ServerError))
    ensures resp.status == 200 ==>
              exists user :: user in users && user.id == id && resp.body == UserBody(PublicView(user))
  {
    match FindById(users, id)
    case None => Response(500, ErrorBody(ServerError))
    case Some(user) => Response(200, UserBody(PublicView(user)))
  }

  /** The user collection and the endpoints that use it. `nextId` stands for the
      identifiers the collection hands out: always fresh. */
  class UserTable {
    var users: seq<UserRecord>
    var nextId: UserId

    ghost predicate Valid()
      reads this
    {
      && (forall i :: 0 <= i < |users| ==> users[i].id < nextId)
      && (forall i, j :: 0 <= i < j < |users| ==> users[i].id < users[j].id)
    }

    constructor ()
      ensures Valid() && users == []
    {
      users := [];
      nextId := 0;
    }

    /** `/register`. */
    method Register(req: RegisterRequest) returns (resp: Response)
      requires Valid()
      modifies this
      ensures Valid()
      ensures ValidateRegistration(req).Some? ==>
                resp == Response(400, ErrorBody(ValidateRegistration(req).value))
                && users == old(users) && nextId == old(nextId)
      ensures ValidateRegistration(req).None? && FindOne(old(users), req.email.value).Some? ==>
                resp == Response(400, ErrorBody(UserAlreadyExists))
                && users == old(users) && nextId == old(nextId)
      ensures ValidateRegistration(req).None? && FindOne(old(users), req.email.value).None? ==>
                var created := UserRecord(old(nextId), req.name.value, req.email.value, req.password.value);
                && users == old(users) + [created]
                && nextId == old(nextId) + 1
                && resp == Response(201, AuthBody(Token(created.id), PublicView(created)))
      ensures resp.status == 201 || resp.status == 400
      ensures UniqueEmails(old(users)) ==> UniqueEmails(users)
    {
      var failure := ValidateRegistration(req);
      if failure.Some? {
        return Response(400, ErrorBody(failure.value));
      }
      var email := req.email.value;
      var existing := FindOne(users, email);
      if existing.Some? {
        return Response(400, ErrorBody(UserAlreadyExists));
      }
      var user := UserRecord(nextId, req.name.value, email, req.password.value);
      users := users + [user];
      nextId := nextId + 1;
      resp := Response(201, AuthBody(Token(user.id), PublicView(user)));
    }

    /** `/logout`: acknowledges and changes nothing (no `modifies` clause). */
    method Logout() returns (resp: Response)
      ensures resp.status == 200 && resp.body == AckBody(LoggedOut)
    {
      resp := Response(200, AckBody(LoggedOut));
    }
  }

  // ---------------------------------------------------------------------------
  // Properties relating several calls.

  /** An unknown address and a wrong password are answered identically, so a
      caller cannot tell which accounts exist. */
  lemma LoginIsEnumerationSafe(users: seq<UserRecord>, otherUsers: seq<UserRecord>, req: LoginRequest,
                               matchPassword: (UserRecord, string) -> bool)
    requires Truthy(req.email) && Truthy(req.password)
    requires forall i :: 0 <= i < |users| ==> users[i].email != req.email.value
    requires FindOne(otherUsers, req.email.value).Some?
    requires !matchPassword(FindOne(otherUsers, req.email.value).value, req.password.value)
    ensures Login(users, req, matchPassword) == Login(otherUsers, req, matchPassword)
    ensures Login(users, req, matchPassword) == Response(401, ErrorBody(InvalidCredentials))
  {
  }

  /** A login with a missing field is decided without the table or the password check. */
  lemma LoginValidationIgnoresTable(users: seq<UserRecord>, otherUsers: seq<UserRecord>, req: LoginRequest,
                                    matchPassword: (UserRecord, string) -> bool,
                                    otherMatch: (UserRecord, string) -> bool)
    requires !Truthy(req.email) || !Truthy(req.password)
    ensures Login(users, req, matchPassword) == Login(otherUsers, req, otherMatch)
  {
  }

  /** With unique addresses, the right password for a stored user logs in as exactly
      that user. */
  lemma LoginFindsTheUser(users: seq<UserRecord>, k: nat, password: string,
                          matchPassword: (UserRecord, string) -> bool)
    requires UniqueEmails(users) && k < |users|
    requires users[k].email != "" && password != ""
    requires matchPassword(users[k], password)
    ensures Login(users, LoginRequest(Some(users[k].email), Some(password)), matchPassword)
            == Response(200, AuthBody(Token(users[k].id), PublicView(users[k])))
  {
    FindOneIsTheUser(users, k);
  }

  /** With unique addresses, looking a stored user's address up finds that user. */
  lemma {:induction false} FindOneIsTheUser(users: seq<UserRecord>, k: nat)
    requires UniqueEmails(users) && k < |users|
    ensures FindOne(users, users[k].email) == Some(users[k])
  {
    if k > 0 {
      assert users[0].email != users[k].email;
      assert UniqueEmails(users[1..]) by {
        forall i, j | 0 <= i < j < |users[1..]| ensures users[1..][i].email != users[1..][j].email {
          assert users[1..][i] == users[i + 1] && users[1..][j] == users[j + 1];
        }
      }
      FindOneIsTheUser(users[1..], k - 1);
    }
  }

  /** A response's user object depends on the record only through its id, name and
      address: the stored password never reaches a client. */
  lemma PublicViewHidesPassword(user: UserRecord, other: UserRecord)
    requires user.id == other.id && user.name == other.name && user.email == other.email
    ensures PublicView(user) == PublicView(other)
    ensures PublicView(user).id == user.id && PublicView(user).name == user.name
            && PublicView(user).email == user.email
  {
  }

  /** A six-character password passes the length check and a five-character one does not. */
  lemma PasswordLengthBoundary(name: string, email: string, password: string)
    requires name != "" && email != ""
    requires |password| == 6 || |password| == 5
    ensures ValidateRegistration(RegisterRequest(Some(name), Some(email), Some(password)))
            == if |password| == 6 then None else Some(PasswordTooShort)
  {
  }
}
