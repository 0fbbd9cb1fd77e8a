/** The account routes: `POST /register`, `POST /login`, `GET /auth`,
    `GET /` and `DELETE /`. Each handler is a chain of early returns that
    ends in one response; the decisions are pure functions of the request
    and the collection, and `UserStore` runs them against the collection
    it owns. */
module UserRoutes {

  import opened Wrappers
  import opened Crypto
  import opened Users

  const HttpOk: nat := 200
  const HttpBadRequest: nat := 400
  const HttpNotFound: nat := 404
  const HttpInternalError: nat := 500

  /** Shortest password `/register` accepts. */
  const MinPasswordLength: nat := 5

  /** The kinds of `message` the handlers send back. */
  datatype Message =
    | FillAllFields
    | PasswordsDiffer
    | PasswordTooShort
    | LoginTaken
    | Registered
    | UserNotFound
    | WrongPassword
    | SomethingWentWrong

  /** A JSON body the handlers send. */
  datatype Body =
    | Notice(message: Message)
    | Session(token: string, user: PublicUser, note: Option<Message>)
    | Records(users: seq<User>)
    | Deleted(record: Option<User>)

  datatype Response = Response(status: nat, body: Body)

  /** A string field of `req.body`; `None` when it was not sent. */
  type Field = Option<string>

  /** The claim the auth middleware puts in `req.user` once it has
      verified the bearer token. */
  datatype Claim = Claim(id: UserId, login: string)

  /** JavaScript truthiness of a string field: sent and not empty. */
  predicate Truthy(f: Field)
  {
    f.Some? && f.value != ""
  }

  /** The session every successful handler answers with: a fresh token
      and the public view `{ id, login }`. */
  function Issue(id: UserId, login: string, now: nat, note: Option<Message>): Body
  {
    Session(BearerToken(id, login, now), PublicUser(id, login), note)
  }

  /** The document `/register` creates: the login as sent and a hash the
      password verifies against, never the password itself. */
  function NewRecord(id: UserId, login: string, password: string, salt: Salt): (u: User)
    ensures u.id == id && u.login == login
    ensures Verify(password, u.passwordHash)
  {
    User(id, login, Hash(password, salt))
  }

  /** The checks of `/register` that read only the request body. */
  function RegisterValidation(login: Field, password: Field, passwordCheck: Field): (r: Option<Message>)
    ensures r.None? <==>
      && Truthy(login) && Truthy(password) && Truthy(passwordCheck)
      && password.value == passwordCheck.value
      && |password.value| >= MinPasswordLength
  {
    if !Truthy(login) || !Truthy(password) || !Truthy(passwordCheck) then Some(FillAllFields)
    else if password.value != passwordCheck.value then Some(PasswordsDiffer)
    else if |password.value| < MinPasswordLength then Some(PasswordTooShort)
    else None
  }

  /** The message `/register` rejects the request with, if any: the body
      checks first, then the login lookup. */
  function RegisterRejection(records: seq<User>, login: Field, password: Field, passwordCheck: Field): (r: Option<Message>)
    ensures r.None? ==> Truthy(login) && Truthy(password) && Truthy(passwordCheck)
  {
    var invalid := RegisterValidation(login, password, passwordCheck);
    if invalid.Some? then invalid
    else if FindByLogin(records, login.value).Some? then Some(LoginTaken)
    else None
  }

  /** `POST /login`. It answers 200, 400 or 404, and a 200 always
      carries a token and public view for a stored document that holds
      the login and whose hash the password verifies against. */
  function LoginResponse(records: seq<User>, login: Field, password: Field, now: nat): (r: Response)
    ensures r.status in {HttpOk, HttpBadRequest, HttpNotFound}
    ensures r.status == HttpOk ==>
      && Truthy(login) && Truthy(password)
      && exists u :: u in records && u.login == login.value && Verify(password.value, u.passwordHash)
           && r == Response(HttpOk, Issue(u.id, u.login, now, None))
  {
    if !Truthy(login) || !Truthy(password) then Response(HttpBadRequest, Notice(FillAllFields))
    else match FindByLogin(records, login.value)
      case None => Response(HttpNotFound, Notice(UserNotFound))
      case Some(user) =>
        if !Verify(password.value, user.passwordHash) then Response(HttpBadRequest, Notice(WrongPassword))
        else Response(HttpOk, Issue(user.id, login.value, now, None))
  }

  /** `GET /auth`: signs a new token from the claim, then reads `user._id`
      of `findById`'s result, which throws on `null`. */
  function AuthResponse(records: seq<User>, claim: Claim, now: nat): (r: Response)
    ensures r.status == HttpOk || r.status == HttpInternalError
    ensures r.status == HttpOk <==> exists u :: u in records && u.id == claim.id
  {
    match FindById(records, claim.id)
    case None => Response(HttpInternalError, Notice(SomethingWentWrong))
    case Some(user) =>
      Response(HttpOk, Session(BearerToken(claim.id, claim.login, now), PublicUser(user.id, claim.login), None))
  }

  /** `GET /`: every document, hashes included. */
  function ListResponse(records: seq<User>): Response
  {
    Response(HttpOk, Records(records))
  }

  /** `DELETE /`: the deleted document, or `null`. */
  function DeleteResponse(records: seq<User>, claim: Claim): Response
  {
    Response(HttpOk, Deleted(FindById(records, claim.id)))
  }

  // ---------------------------------------------------------------- /register

  /** A missing or empty field is reported first, whatever the rest. */
  lemma RegisterMissingField(records: seq<User>, login: Field, password: Field, passwordCheck: Field)
    requires !Truthy(login) || !Truthy(password) || !Truthy(passwordCheck)
    ensures RegisterRejection(records, login, password, passwordCheck) == Some(FillAllFields)
  {
  }

  /** The body checks run in order presence, match, length, and while one
      fails the collection is not consulted: the outcome is the same for
      every collection. */
  lemma RegisterCheckOrder(records: seq<User>, other: seq<User>, login: Field, password: Field, passwordCheck: Field)
    requires Truthy(login) && Truthy(password) && Truthy(passwordCheck)
    ensures password.value != passwordCheck.value ==>
      RegisterRejection(records, login, password, passwordCheck) == Some(PasswordsDiffer)
    ensures password.value == passwordCheck.value && |password.value| < MinPasswordLength ==>
      RegisterRejection(records, login, password, passwordCheck) == Some(PasswordTooShort)
    ensures RegisterValidation(login, password, passwordCheck).Some? ==>
      RegisterRejection(records, login, password, passwordCheck) == RegisterRejection(other, login, password, passwordCheck)
  {
  }

  /** A password of four characters is too short; one of five passes the
      body checks. */
  lemma RegisterLengthBoundary(login: Field, password: Field)
    requires Truthy(login) && password.Some?
    ensures |password.value| == 4 ==> RegisterValidation(login, password, password) == Some(PasswordTooShort)
    ensures |password.value| == 5 ==> RegisterValidation(login, password, password) == None
  {
  }

  /** A login that a document already holds is refused once the body
      checks pass. */
  lemma RegisterLoginTaken(records: seq<User>, login: Field, password: Field, passwordCheck: Field, u: User)
    requires RegisterValidation(login, password, passwordCheck).None?
    requires u in records && u.login == login.value
    ensures RegisterRejection(records, login, password, passwordCheck) == Some(LoginTaken)
  {
  }

  /** `/register` inserts exactly when every check passes. */
  lemma RegisterAcceptedIff(records: seq<User>, login: Field, password: Field, passwordCheck: Field)
    ensures RegisterRejection(records, login, password, passwordCheck).None? <==>
      && Truthy(login) && Truthy(password) && Truthy(passwordCheck)
      && password.value == passwordCheck.value
      && |password.value| >= MinPasswordLength
      && forall u :: u in records ==> u.login != login.value
  {
  }

  /** After `/register` succeeds, `/login` with the same credentials
      succeeds and issues a token for the new document. */
  lemma RegisterThenLogin(records: seq<User>, id: UserId, login: Field, password: Field, passwordCheck: Field, salt: Salt, now: nat)
    requires RegisterRejection(records, login, password, passwordCheck).None?
    ensures LoginResponse(records + [NewRecord(id, login.value, password.value, salt)], login, password, now)
         == Response(HttpOk, Issue(id, login.value, now, None))
  {
    var u := NewRecord(id, login.value, password.value, salt);
    FindByLoginAppend(records, u);
  }

  /** After `/register` succeeds, `/login` with any other password fails
      with the wrong-password message. */
  lemma RegisterThenWrongPassword(records: seq<User>, id: UserId, login: Field, password: Field, passwordCheck: Field, salt: Salt, wrong: Field, now: nat)
    requires RegisterRejection(records, login, password, passwordCheck).None?
    requires Truthy(wrong) && wrong.value != password.value
    ensures LoginResponse(records + [NewRecord(id, login.value, password.value, salt)], login, wrong, now)
         == Response(HttpBadRequest, Notice(WrongPassword))
  {
    var u := NewRecord(id, login.value, password.value, salt);
    FindByLoginAppend(records, u);
    VerifyOnlyHashedPassword(password.value, wrong.value, salt);
  }

  // ---------------------------------------------------------------- /login

  /** Every failure of `/login`, in the order the handler checks. */
  lemma LoginFailures(records: seq<User>, login: Field, password: Field, now: nat)
    ensures !Truthy(login) || !Truthy(password) ==>
      LoginResponse(records, login, password, now) == Response(HttpBadRequest, Notice(FillAllFields))
    ensures Truthy(login) && Truthy(password) && (forall u :: u in records ==> u.login != login.value) ==>
      LoginResponse(records, login, password, now) == Response(HttpNotFound, Notice(UserNotFound))
    ensures (Truthy(login) && Truthy(password) && FindByLogin(records, login.value).Some?
             && !Verify(password.value, FindByLogin(records, login.value).value.passwordHash)) ==>
      LoginResponse(records, login, password, now) == Response(HttpBadRequest, Notice(WrongPassword))
  {
  }

  /** With unique logins, `/login` succeeds exactly when the password
      verifies against the document holding the login, and then issues a
      token for that document's id. */
  lemma LoginSucceedsIff(records: seq<User>, login: Field, password: Field, u: User, now: nat)
    requires UniqueLogins(records)
    requires Truthy(login) && Truthy(password)
    requires u in records && u.login == login.value
    ensures LoginResponse(records, login, password, now).status == HttpOk <==> Verify(password.value, u.passwordHash)
    ensures Verify(password.value, u.passwordHash) ==>
      LoginResponse(records, login, password, now) == Response(HttpOk, Issue(u.id, u.login, now, None))
  {
    FindByLoginUnique(records, u);
  }

  // ---------------------------------------------------------------- /auth

  /** `/auth` re-signs the claim when its document exists, and answers 500
      when it does not. */
  lemma AuthOutcome(records: seq<User>, claim: Claim, now: nat)
    ensures FindById(records, claim.id).Some? ==>
      AuthResponse(records, claim, now) == Response(HttpOk, Issue(claim.id, claim.login, now, None))
    ensures (forall u :: u in records ==> u.id != claim.id) ==>
      AuthResponse(records, claim, now) == Response(HttpInternalError, Notice(SomethingWentWrong))
  {
  }

  // ---------------------------------------------------------------- GET /

  /** `GET /` hands out every document, password hash included. */
  lemma ListExposesHashes(records: seq<User>, u: User)
    requires u in records
    ensures ListResponse(records).status == HttpOk
    ensures u in ListResponse(records).body.users
  {
  }

  // ---------------------------------------------------------------- DELETE /

  /** `DELETE /` answers with the document holding the claim's id. */
  lemma DeleteReturnsRecord(records: seq<User>, claim: Claim)
    ensures DeleteResponse(records, claim).status == HttpOk
    ensures DeleteResponse(records, claim).body.record.Some? ==>
      DeleteResponse(records, claim).body.record.value in records &&
      DeleteResponse(records, claim).body.record.value.id == claim.id
    ensures DeleteResponse(records, claim).body.record.None? ==>
      forall u :: u in records ==> u.id != claim.id
  {
  }

  /** After `DELETE /`, `/auth` with the same still-valid claim answers
      500: the gate trusts the token, the handler dereferences `null`. */
  lemma DeleteThenAuth(records: seq<User>, claim: Claim, now: nat)
    requires UniqueIds(records)
    ensures AuthResponse(DeleteById(records, claim.id), claim, now)
         == Response(HttpInternalError, Notice(SomethingWentWrong))
  {
    DeleteByIdRemovesId(records, claim.id);
  }

  /** After `DELETE /`, `/login` with the deleted document's login finds
      no user. */
  lemma DeleteThenLogin(records: seq<User>, claim: Claim, password: Field, now: nat)
    requires UniqueIds(records) && UniqueLogins(records)
    requires FindById(records, claim.id).Some?
    requires FindById(records, claim.id).value.login != "" && Truthy(password)
    ensures LoginResponse(DeleteById(records, claim.id), Some(FindById(records, claim.id).value.login), password, now)
         == Response(HttpNotFound, Notice(UserNotFound))
  {
    var u := FindById(records, claim.id).value;
    var rest := DeleteById(records, claim.id);
    DeleteByIdRemovesId(records, claim.id);
    forall v | v in rest ensures v.login != u.login {
      if v.login == u.login {
        FindByLoginUnique(records, u);
        FindByLoginUnique(records, v);
      }
    }
  }

  /** The collection behind the routes: its documents and the counter the
      next `_id` is drawn from. */
  class UserStore {
    var records: seq<User>
    var nextId: UserId

    ghost predicate Valid()
      reads this
    {
      ValidRecords(records, nextId)
    }

    constructor ()
      ensures Valid()
      ensures records == [] && nextId == 0
    {
      records := [];
      nextId := 0;
    }

    /** `new User(...)`: draws the new document's `_id`. */
    method FreshId() returns (id: UserId)
      modifies this`nextId
      ensures id == old(nextId) && nextId == id + 1
    {
      id := nextId;
      nextId := nextId + 1;
    }

    /** `user.save()`: appends the document. */
    method Save(user: User)
      modifies this`records
      ensures records == old(records) + [user]
    {
      records := records + [user];
    }

    /** `POST /register`: on a rejection the collection is untouched;
        otherwise it gains exactly the new document and the answer carries
        a token for it and its public view. */
    method Register(login: Field, password: Field, passwordCheck: Field, salt: Salt, now: nat) returns (r: Response)
      requires Valid()
      modifies this
      ensures Valid()
      ensures RegisterRejection(old(records), login, password, passwordCheck).Some? ==>
        && r == Response(HttpBadRequest, Notice(RegisterRejection(old(records), login, password, passwordCheck).value))
        && records == old(records) && nextId == old(nextId)
      ensures RegisterRejection(old(records), login, password, passwordCheck).None? ==>
        && records == old(records) + [NewRecord(old(nextId), login.value, password.value, salt)]
        && nextId == old(nextId) + 1
        && r == Response(HttpOk, Issue(old(nextId), login.value, now, Some(Registered)))
    {
      var rejection := RegisterRejection(records, login, password, passwordCheck);
      if rejection.Some? {
        return Response(HttpBadRequest, Notice(rejection.value));
      }
      var id := FreshId();
      var user := NewRecord(id, login.value, password.value, salt);
      var token := BearerToken(id, login.value, now);
      AppendKeepsValid(records, id, user);
      Save(user);
      r := Response(HttpOk, Session(token, PublicUser(id, login.value), Some(Registered)));
    }

    /** `POST /login`; reads the collection only. */
    method Login(login: Field, password: Field, now: nat) returns (r: Response)
      ensures r == LoginResponse(records, login, password, now)
    {
      r := LoginResponse(records, login, password, now);
    }

    /** `GET /auth` behind the auth middleware; reads the collection only. */
    method Auth(claim: Claim, now: nat) returns (r: Response)
      ensures r == AuthResponse(records, claim, now)
    {
      r := AuthResponse(records, claim, now);
    }

    /** `GET /`; reads the collection only. */
    method List() returns (r: Response)
      ensures r == ListResponse(records)
    {
      r := ListResponse(records);
    }

    /** `DELETE /` behind the auth middleware: removes the caller's own
        document and answers with it. */
    method DeleteSelf(claim: Claim) returns (r: Response)
      requires Valid()
      modifies this`records
      ensures Valid()
      ensures records == DeleteById(old(records), claim.id)
      ensures r == DeleteResponse(old(records), claim)
    {
      r := DeleteResponse(records, claim);
      DeleteByIdKeepsValid(records, nextId, claim.id);
      records := DeleteById(records, claim.id);
    }
  }

  /** The account life cycle end to end: register, a listing, a second
      register under the same login, a wrong and a right password, a
      refresh, a self-delete, a listing, and a refresh with the old claim. */
  method AccountLifeCycle(salt: Salt, now: nat)
  {
    var store := new UserStore();
    var r := store.Register(Some("alice"), Some("secret"), Some("secret"), salt, now);
    assert r == Response(HttpOk, Issue(0, "alice", now, Some(Registered)));
    assert store.records == [NewRecord(0, "alice", "secret", salt)];
    r := store.List();
    assert r == Response(HttpOk, Records([NewRecord(0, "alice", "secret", salt)]));
    r := store.Register(Some("alice"), Some("secret"), Some("secret"), salt, now);
    assert r == Response(HttpBadRequest, Notice(LoginTaken));
    RegisterThenWrongPassword([], 0, Some("alice"), Some("secret"), Some("secret"), salt, Some("wrong"), now);
    r := store.Login(Some("alice"), Some("wrong"), now);
    assert r == Response(HttpBadRequest, Notice(WrongPassword));
    r := store.Login(Some("alice"), Some("secret"), now + 1);
    assert r == Response(HttpOk, Issue(0, "alice", now + 1, None));
    var claim := Claim(0, "alice");
    r := store.Auth(claim, now + 2);
    assert r == Response(HttpOk, Issue(0, "alice", now + 2, None));
    r := store.DeleteSelf(claim);
    assert r.body.record == Some(NewRecord(0, "alice", "secret", salt));
    assert store.records == [];
    r := store.List();
    assert r == Response(HttpOk, Records([]));
    r := store.Auth(claim, now + 3);
    assert r.status == HttpInternalError;
  }
}
