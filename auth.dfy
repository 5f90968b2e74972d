/**
 * The account routes of app/routes/auth.py: create_account, login (with the
 * user's earlier recommendations) and update_password, over the shared
 * session of the application. The password hash (PBKDF2 in the application)
 * and the fresh salt (a random uuid) are parameters.
 */
module Auth {
  import opened Optional
  import opened Http
  import opened Db

  /** `hash_password(password, salt)` */
  type Hasher = (string, string) -> string

  const CredentialsRequired := "Username and password are required."
  const UsernameTaken := "Username already exists."
  const AccountCreated := "Account created successfully."
  const InvalidLogin := "Invalid username or password."
  const LoginSuccessful := "Login successful."
  const UpdateFieldsRequired := "Username, old_password, and new_password are required."
  const UnknownUsername := "Invalid username."
  const WrongCurrentPassword := "Invalid current password."
  const PasswordUpdated := "Password updated successfully."

  /** One entry of `previous_recommendations` in the login reply. */
  datatype PreviousRec = PreviousRec(
    movieId: int,
    title: string,
    overview: string,
    releaseDate: string,
    posterPath: Option<string>,
    watchProviders: seq<string>,
    trailerUrl: Option<string>,
    recommendedAt: int)

  datatype AuthBody =
    | Message(text: string)
    | Error(text: string)
    | LoggedIn(text: string, previous: seq<PreviousRec>)
    | ServerError   // an exception escaped the route

  /** Whether `password` matches the stored salt and hash. */
  predicate PasswordMatches(hash: Hasher, user: User, password: string) {
    hash(password, user.salt) == user.passwordHash
  }

  // ------------------------------------------------------------------
  // create_account

  /** The reply and the committed user table after create_account. */
  function CreateAccountSpec(users: seq<User>, hash: Hasher, salt: string,
                             username: Option<string>, password: Option<string>)
    : (out: (Reply<AuthBody>, seq<User>))
    ensures out.0.status != 201 ==> out.1 == users
  {
    if !Present(username) || !Present(password) then (Reply(400, Error(CredentialsRequired)), users)
    else if FindUser(users, username.value).Some? then (Reply(409, Error(UsernameTaken)), users)
    else
      (Reply(201, Message(AccountCreated)),
       users + [User(NextId(users), username.value, salt, hash(password.value, salt))])
  }

  /**
   * A missing or empty field gives 400 and a taken name 409, both without a
   * new row; any other request gives 201, and exactly one user is appended, holding the name, the
   * fresh salt and the hash of the password under it, and the table stays valid.
   */
  lemma CreateAccountOutcomes(users: seq<User>, hash: Hasher, salt: string,
                              username: Option<string>, password: Option<string>)
    requires UsersValid(users)
    ensures var (reply, next) := CreateAccountSpec(users, hash, salt, username, password);
      && UsersValid(next)
      && (!Present(username) || !Present(password) <==> reply == Reply(400, Error(CredentialsRequired)))
      && ((Present(username) && Present(password) && FindUser(users, username.value).Some?)
            <==> reply == Reply(409, Error(UsernameTaken)))
      && ((Present(username) && Present(password) && FindUser(users, username.value).None?)
            <==> reply == Reply(201, Message(AccountCreated)))
      && (reply.status == 201 <==> |next| == |users| + 1)
      && (reply.status == 201 ==>
            && next[..|users|] == users
            && next[|users|].username == username.value
            && next[|users|].salt == salt
            && next[|users|].passwordHash == hash(password.value, salt))
  {
    var (reply, next) := CreateAccountSpec(users, hash, salt, username, password);
    if reply.status == 201 {
      InsertFreshUser(users, next[|users|]);
      assert next[..|users|] == users;
    }
  }

  /**
   * create_account: looks the name up through the session, adds the new user
   * and commits. The commit always succeeds because the name was free.
   */
  method CreateAccount(s: Session, hash: Hasher, salt: string,
                       username: Option<string>, password: Option<string>)
    returns (reply: Reply<AuthBody>)
    requires s.open && s.Synced() && s.db.Valid()
    modifies s, s.db
    ensures (reply, s.db.users) == CreateAccountSpec(old(s.db.users), hash, salt, username, password)
    ensures s.db.recs == old(s.db.recs)
    ensures s.open && s.Synced() && s.db.Valid()
  {
    CreateAccountOutcomes(s.users, hash, salt, username, password);
    if !Present(username) || !Present(password) {
      return Reply(400, Error(CredentialsRequired));
    }
    if FindUser(s.users, username.value).Some? {
      return Reply(409, Error(UsernameTaken));
    }
    var user := User(NextId(s.users), username.value, salt, hash(password.value, salt));
    s.AddUser(user);
    var ok := s.Commit();
    return Reply(201, Message(AccountCreated));
  }

  // ------------------------------------------------------------------
  // login

  /** A stored row as login lists it; None where decoding its providers raises. */
  function PreviousOf(row: RecRow): (entry: Option<PreviousRec>)
    ensures entry.None? <==> LoadProviders(row.watchProviders).None?
    ensures (row.watchProviders.None? || row.watchProviders == Some("")) ==>
      entry.Some? && entry.value.watchProviders == []
    ensures entry.Some? ==>
      && entry.value.movieId == row.movieId && entry.value.title == row.title
      && entry.value.overview == row.overview && entry.value.releaseDate == row.releaseDate
      && entry.value.posterPath == row.posterPath && entry.value.trailerUrl == row.trailerUrl
      && entry.value.recommendedAt == row.recommendedAt
  {
    match LoadProviders(row.watchProviders)
    case None => None
    case Some(providers) =>
      Some(PreviousRec(row.movieId, row.title, row.overview, row.releaseDate, row.posterPath,
                       providers, row.trailerUrl, row.recommendedAt))
  }

  /** All rows as login lists them; None as soon as one of them cannot be decoded. */
  function PreviousAll(rows: seq<RecRow>): (r: Option<seq<PreviousRec>>)
    ensures r.None? <==> exists k :: 0 <= k < |rows| && PreviousOf(rows[k]).None?
    ensures r.Some? ==> |r.value| == |rows|
    ensures r.Some? ==> forall k :: 0 <= k < |rows| ==> PreviousOf(rows[k]) == Some(r.value[k])
  {
    if rows == [] then Some([])
    else
      match PreviousOf(rows[0])
      case None => None
      case Some(p) =>
        match PreviousAll(rows[1..])
        case None =>
          var k :| 0 <= k < |rows| - 1 && PreviousOf(rows[1..][k]).None?;
          assert PreviousOf(rows[k + 1]).None?;
          None
        case Some(ps) =>
          assert forall k :: 1 <= k < |rows| ==> rows[k] == rows[1..][k - 1];
          Some([p] + ps)
  }

  /** The reply of login against the session's view of the tables. */
  function LoginSpec(users: seq<User>, recs: seq<RecRow>, hash: Hasher,
                     username: Option<string>, password: Option<string>): (reply: Reply<AuthBody>)
    ensures reply.status in {200, 400, 401, 500}
    ensures reply.status == 400 <==> !Present(username) || !Present(password)
    ensures reply.status == 200 ==>
      && Present(username) && FindUser(users, username.value).Some?
      && PasswordMatches(hash, users[FindUser(users, username.value).value], password.value)
      && reply.body.LoggedIn?
    ensures reply.status == 500 ==> reply.body == ServerError
  {
    if !Present(username) || !Present(password) then Reply(400, Error(CredentialsRequired))
    else
      match FindUser(users, username.value)
      case None => Reply(401, Error(InvalidLogin))
      case Some(k) =>
        if !PasswordMatches(hash, users[k], password.value) then Reply(401, Error(InvalidLogin))
        else
          match PreviousAll(NewestFirst(UserRecs(recs, users[k].id)))
          case None => Reply(500, ServerError)
          case Some(previous) => Reply(200, LoggedIn(LoginSuccessful, previous))
  }

  /** An unknown user and a wrong password get the identical reply. */
  lemma LoginFailsClosed(users: seq<User>, recs: seq<RecRow>, hash: Hasher, username: string, password: string)
    requires username != "" && password != ""
    ensures var reply := LoginSpec(users, recs, hash, Some(username), Some(password));
      reply.status == 401 <==>
        (FindUser(users, username).None? || !PasswordMatches(hash, users[FindUser(users, username).value], password))
    ensures var reply := LoginSpec(users, recs, hash, Some(username), Some(password));
      reply.status == 401 ==> reply == Reply(401, Error(InvalidLogin))
  {
  }

  /**
   * A successful login lists exactly the user's rows, newest first: each row
   * of the user occurs as often as in the table and no row of another user
   * occurs; when every provider column decodes, a correct password always
   * logs in.
   */
  lemma LoginListsOwnRows(users: seq<User>, recs: seq<RecRow>, hash: Hasher, username: string, password: string)
    requires username != "" && password != ""
    requires FindUser(users, username).Some?
    requires PasswordMatches(hash, users[FindUser(users, username).value], password)
    ensures var uid := users[FindUser(users, username).value].id;
      var rows := NewestFirst(UserRecs(recs, uid));
      && Descending(rows)
      && (forall r :: multiset(rows)[r] == if r.userId == uid then multiset(recs)[r] else 0)
      && (ProvidersDecodable(recs) ==>
            LoginSpec(users, recs, hash, Some(username), Some(password)).status == 200)
      && (forall previous ::
            LoginSpec(users, recs, hash, Some(username), Some(password)) == Reply(200, LoggedIn(LoginSuccessful, previous))
            ==> PreviousAll(rows) == Some(previous))
  {
    var uid := users[FindUser(users, username).value].id;
    if ProvidersDecodable(recs) {
      OwnRowsDecodable(recs, uid);
    }
  }

  /** The rows listed for a user come from the table, so they decode when the whole table does. */
  lemma OwnRowsDecodable(recs: seq<RecRow>, uid: nat)
    requires ProvidersDecodable(recs)
    ensures PreviousAll(NewestFirst(UserRecs(recs, uid))).Some?
  {
    var rows := NewestFirst(UserRecs(recs, uid));
    OwnRowsFromTable(recs, uid);
    forall k | 0 <= k < |rows|
      ensures PreviousOf(rows[k]).Some?
    {
      DecodableMember(recs, rows[k]);
    }
  }

  lemma OwnRowsFromTable(recs: seq<RecRow>, uid: nat)
    ensures forall r :: r in NewestFirst(UserRecs(recs, uid)) ==> r in recs
  {
    var mine := UserRecs(recs, uid);
    var rows := NewestFirst(mine);
    forall r | r in rows
      ensures r in recs
    {
      assert multiset(rows)[r] > 0;
      assert multiset(mine)[r] > 0;
      assert multiset(recs)[r] > 0;
    }
  }

  lemma DecodableMember(recs: seq<RecRow>, r: RecRow)
    requires ProvidersDecodable(recs) && r in recs
    ensures PreviousOf(r).Some?
  {
    var j :| 0 <= j < |recs| && recs[j] == r;
  }

  /**
   * login: validates the fields, checks the password, then walks the user's
   * rows newest first and builds the listing. Only queries: nothing changes.
   */
  method Login(s: Session, hash: Hasher, username: Option<string>, password: Option<string>)
    returns (reply: Reply<AuthBody>)
    requires s.open
    ensures reply == LoginSpec(s.users, s.recs, hash, username, password)
  {
    if !Present(username) || !Present(password) {
      return Reply(400, Error(CredentialsRequired));
    }
    var found := FindUser(s.users, username.value);
    if found.None? {
      return Reply(401, Error(InvalidLogin));
    }
    var user := s.users[found.value];
    if hash(password.value, user.salt) != user.passwordHash {
      return Reply(401, Error(InvalidLogin));
    }
    var listed := ListPrevious(NewestFirst(UserRecs(s.recs, user.id)));
    if listed.None? {
      return Reply(500, ServerError);
    }
    return Reply(200, LoggedIn(LoginSuccessful, listed.value));
  }

  /** The loop that builds `previous_recommendations`; None where decoding a row raises. */
  method ListPrevious(rows: seq<RecRow>) returns (listed: Option<seq<PreviousRec>>)
    ensures listed == PreviousAll(rows)
  {
    var previous: seq<PreviousRec> := [];
    var i := 0;
    while i < |rows|
      invariant 0 <= i <= |rows|
      invariant |previous| == i
      invariant forall k :: 0 <= k < i ==> PreviousOf(rows[k]) == Some(previous[k])
    {
      var entry := PreviousOf(rows[i]);
      if entry.None? {
        return None;
      }
      previous := previous + [entry.value];
      i := i + 1;
    }
    assert PreviousAll(rows).Some?;
    assert PreviousAll(rows).value == previous;
    return Some(previous);
  }

  /** For any free name and non-empty password, create_account then login succeeds. */
  lemma CreateThenLogin(users: seq<User>, recs: seq<RecRow>, hash: Hasher, salt: string,
                        username: string, password: string)
    requires UsersValid(users) && ProvidersDecodable(recs)
    requires username != "" && password != "" && FindUser(users, username).None?
    ensures CreateAccountSpec(users, hash, salt, Some(username), Some(password)).0.status == 201
    ensures LoginSpec(CreateAccountSpec(users, hash, salt, Some(username), Some(password)).1, recs, hash,
                      Some(username), Some(password)).status == 200
  {
    var next := CreateAccountSpec(users, hash, salt, Some(username), Some(password)).1;
    InsertFreshUser(users, next[|users|]);
    LoginListsOwnRows(next, recs, hash, username, password);
  }

  // ------------------------------------------------------------------
  // update_password

  /** The reply and the committed user table after update_password. */
  function UpdatePasswordSpec(users: seq<User>, hash: Hasher, salt: string, username: Option<string>,
                              oldPassword: Option<string>, newPassword: Option<string>)
    : (out: (Reply<AuthBody>, seq<User>))
    ensures out.0.status != 200 ==> out.1 == users
  {
    if !Present(username) || !Present(oldPassword) || !Present(newPassword) then
      (Reply(400, Error(UpdateFieldsRequired)), users)
    else
      match FindUser(users, username.value)
      case None => (Reply(404, Error(UnknownUsername)), users)
      case Some(k) =>
        if !PasswordMatches(hash, users[k], oldPassword.value) then
          (Reply(401, Error(WrongCurrentPassword)), users)
        else
          (Reply(200, Message(PasswordUpdated)),
           users[k := users[k].(salt := salt, passwordHash := hash(newPassword.value, salt))])
  }

  /**
   * update_password answers 404 for an unknown name and 401 for a wrong
   * current password, changing nothing; a correct current password always
   * succeeds, and then it replaces exactly the
   * user's salt and hash, together, and no other user changes.
   */
  lemma UpdatePasswordOutcomes(users: seq<User>, hash: Hasher, salt: string, username: Option<string>,
                               oldPassword: Option<string>, newPassword: Option<string>)
    requires UsersValid(users)
    ensures var (reply, next) := UpdatePasswordSpec(users, hash, salt, username, oldPassword, newPassword);
      && UsersValid(next)
      && |next| == |users|
      && (Present(username) && Present(oldPassword) && Present(newPassword) ==>
            && (FindUser(users, username.value).None? <==> reply == Reply(404, Error(UnknownUsername)))
            && (FindUser(users, username.value).Some? ==>
                  var k := FindUser(users, username.value).value;
                  && ((!PasswordMatches(hash, users[k], oldPassword.value))
                        <==> reply == Reply(401, Error(WrongCurrentPassword)))
                  && ((PasswordMatches(hash, users[k], oldPassword.value))
                        <==> reply == Reply(200, Message(PasswordUpdated)))
                  && (reply.status == 200 ==>
                        && next[k] == users[k].(salt := salt, passwordHash := hash(newPassword.value, salt))
                        && forall j :: 0 <= j < |users| && j != k ==> next[j] == users[j])))
  {
    var (reply, next) := UpdatePasswordSpec(users, hash, salt, username, oldPassword, newPassword);
    if reply.status == 200 {
      var k := FindUser(users, username.value).value;
      UpdateKeepsUsers(users, k, salt, hash(newPassword.value, salt));
    }
  }

  /**
   * For a known user and the correct current password the update succeeds;
   * afterwards login with the new password succeeds, and
   * login with the old one fails unless both hash alike under the new salt.
   */
  lemma UpdateThenLogin(users: seq<User>, recs: seq<RecRow>, hash: Hasher, salt: string, username: string,
                        oldPassword: string, newPassword: string)
    requires UsersValid(users) && ProvidersDecodable(recs)
    requires username != "" && oldPassword != "" && newPassword != ""
    requires FindUser(users, username).Some?
    requires PasswordMatches(hash, users[FindUser(users, username).value], oldPassword)
    ensures UpdatePasswordSpec(users, hash, salt, Some(username), Some(oldPassword), Some(newPassword)).0.status == 200
    ensures var next := UpdatePasswordSpec(users, hash, salt, Some(username), Some(oldPassword), Some(newPassword)).1;
      && LoginSpec(next, recs, hash, Some(username), Some(newPassword)).status == 200
      && ((LoginSpec(next, recs, hash, Some(username), Some(oldPassword)).status == 200)
            <==> hash(oldPassword, salt) == hash(newPassword, salt))
  {
    var next := UpdatePasswordSpec(users, hash, salt, Some(username), Some(oldPassword), Some(newPassword)).1;
    var k := FindUser(users, username).value;
    UpdateKeepsUsers(users, k, salt, hash(newPassword, salt));
    assert FindUser(next, username) == Some(k);
    LoginListsOwnRows(next, recs, hash, username, newPassword);
    if hash(oldPassword, salt) == hash(newPassword, salt) {
      LoginListsOwnRows(next, recs, hash, username, oldPassword);
    }
  }

  /**
   * update_password: assigns the new salt and hash on the loaded user and
   * commits; the commit succeeds because no username changes.
   */
  method UpdatePassword(s: Session, hash: Hasher, salt: string, username: Option<string>,
                        oldPassword: Option<string>, newPassword: Option<string>)
    returns (reply: Reply<AuthBody>)
    requires s.open && s.Synced() && s.db.Valid()
    modifies s, s.db
    ensures (reply, s.db.users)
            == UpdatePasswordSpec(old(s.db.users), hash, salt, username, oldPassword, newPassword)
    ensures s.db.recs == old(s.db.recs)
    ensures s.open && s.Synced() && s.db.Valid()
  {
    UpdatePasswordOutcomes(s.users, hash, salt, username, oldPassword, newPassword);
    if !Present(username) || !Present(oldPassword) || !Present(newPassword) {
      return Reply(400, Error(UpdateFieldsRequired));
    }
    var found := FindUser(s.users, username.value);
    if found.None? {
      return Reply(404, Error(UnknownUsername));
    }
    var user := s.users[found.value];
    if hash(oldPassword.value, user.salt) != user.passwordHash {
      return Reply(401, Error(WrongCurrentPassword));
    }
    s.SetCredentials(found.value, salt, hash(newPassword.value, salt));
    var ok := s.Commit();
    return Reply(200, Message(PasswordUpdated));
  }
}
