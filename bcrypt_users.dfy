/**
 * The bcrypt-based user store of models.py (`User.create_user`,
 * `User.verify_user`) and the password change of routes/account_routes.py.
 *
 * bcrypt is modelled by its structure: a salt is the 29-character prefix
 * "$2b$<cost>$<22 characters>", `hashpw(p, salt)` is that prefix followed by
 * the key derivation of `p` under it, and `checkpw(p, h)` hashes `p` with `h`
 * itself as the salt and compares with `h`. The key derivation and the fresh
 * salt of `gensalt()` are parameters.
 */
module BcryptUsers {
  import opened Optional
  import opened Http
  import opened Db

  /** The key derivation inside `hashpw`: password and salt prefix to the 31 hash characters. */
  type Kdf = (string, string) -> string

  /** The length of a bcrypt salt, which is also the prefix of every hash. */
  const SaltLength := 29

  const InvalidSalt := "Invalid salt"
  const UniqueFailed := "UNIQUE constraint failed: user.username"
  const NoneHasNoEncode := "'NoneType' object has no attribute 'encode'"
  const InvalidCredentials := "Invalid credentials"
  const PasswordUpdated := "Password updated successfully"

  /** What a Python call does: return a value, or raise an exception with a message. */
  datatype Outcome<T> = Returns(value: T) | Raises(message: string)

  /** `hashpw(password, salt)`; None where bcrypt rejects the salt. */
  function HashPw(kdf: Kdf, password: string, salt: string): (h: Option<string>)
    ensures h.Some? <==> |salt| >= SaltLength
    ensures h.Some? ==> |h.value| >= SaltLength && h.value[..SaltLength] == salt[..SaltLength]
  {
    if |salt| < SaltLength then None
    else
      var prefix := salt[..SaltLength];
      assert (prefix + kdf(password, prefix))[..SaltLength] == prefix;
      Some(prefix + kdf(password, prefix))
  }

  /** `checkpw(password, hashed)`; None where `hashed` is no valid bcrypt hash. */
  function CheckPw(kdf: Kdf, password: string, hashed: string): (ok: Option<bool>)
    ensures ok.None? <==> |hashed| < SaltLength
    ensures ok.Some? ==>
      (ok.value <==> hashed == hashed[..SaltLength] + kdf(password, hashed[..SaltLength]))
  {
    match HashPw(kdf, password, hashed)
    case None => None
    case Some(h) => Some(h == hashed)
  }

  /**
   * checkpw accepts the hash hashpw made of the same password, accepts any
   * other password exactly when the key derivation agrees on it, and the hash
   * is never the plaintext of a password that does not start with the salt.
   */
  lemma CheckPwOfHashPw(kdf: Kdf, password: string, other: string, salt: string)
    requires |salt| >= SaltLength
    ensures var h := HashPw(kdf, password, salt).value;
      var prefix := salt[..SaltLength];
      && CheckPw(kdf, password, h) == Some(true)
      && CheckPw(kdf, other, h) == Some(kdf(other, prefix) == kdf(password, prefix))
      && (!(prefix <= password) ==> h != password)
  {
    var prefix := salt[..SaltLength];
    var h := HashPw(kdf, password, salt).value;
    assert h == prefix + kdf(password, prefix);
    assert HashPw(kdf, other, h) == Some(prefix + kdf(other, prefix));
    if prefix + kdf(other, prefix) == h {
      assert kdf(other, prefix) == (prefix + kdf(other, prefix))[SaltLength..];
    }
  }

  // ------------------------------------------------------------------
  // models.py

  /**
   * `User.verify_user(username, password)`: False for no such user; an
   * AttributeError when the password is None; otherwise checkpw against the
   * stored hash. A None username matches no row, as the column is NOT NULL.
   */
  function VerifyUser(kdf: Kdf, users: seq<User>, username: Option<string>, password: Option<string>)
    : (r: Outcome<bool>)
    ensures (username.None? || FindUser(users, username.value).None?) ==> r == Returns(false)
  {
    if username.None? then Returns(false)
    else
      match FindUser(users, username.value)
      case None => Returns(false)
      case Some(k) =>
        if password.None? then Raises(NoneHasNoEncode)
        else
          match CheckPw(kdf, password.value, users[k].passwordHash)
          case None => Raises(InvalidSalt)
          case Some(ok) => Returns(ok)
  }

  /** `User.create_user(username, password)` with `salt` from gensalt: the outcome and the committed table. */
  function CreateUserSpec(kdf: Kdf, users: seq<User>, salt: string, username: string, password: string)
    : (out: (Outcome<()>, seq<User>))
    ensures out.0.Raises? ==> out.1 == users
  {
    match HashPw(kdf, password, salt)
    case None => (Raises(InvalidSalt), users)
    case Some(h) =>
      if FindUser(users, username).Some? then (Raises(UniqueFailed), users)
      else (Returns(()), users + [User(NextId(users), username, salt, h)])
  }

  /**
   * A second user with a taken name is refused by the UNIQUE constraint and
   * the first record stays; otherwise, for a valid salt, exactly one user is
   * added, holding the name, the salt and the bcrypt hash, and the table stays valid.
   */
  lemma CreateUserOutcomes(kdf: Kdf, users: seq<User>, salt: string, username: string, password: string)
    requires UsersValid(users)
    ensures var (outcome, next) := CreateUserSpec(kdf, users, salt, username, password);
      && UsersValid(next)
      && (|salt| >= SaltLength && FindUser(users, username).Some? ==> outcome == Raises(UniqueFailed))
      && (outcome.Returns? <==> |salt| >= SaltLength && FindUser(users, username).None?)
      && (outcome.Returns? ==>
            && next[..|users|] == users && |next| == |users| + 1
            && next[|users|] == User(NextId(users), username, salt, HashPw(kdf, password, salt).value))
  {
    var (outcome, next) := CreateUserSpec(kdf, users, salt, username, password);
    if outcome.Returns? {
      InsertFreshUser(users, next[|users|]);
      assert next[..|users|] == users;
    }
  }

  /**
   * For a free name and a valid salt, create_user(u, p) returns, and then
   * verify_user(u, p) is True and verify_user(u, q)
   * is True exactly when the key derivation gives q the same hash; the
   * stored hash is not the plaintext.
   */
  lemma CreateThenVerify(kdf: Kdf, users: seq<User>, salt: string, username: string, password: string,
                         other: string)
    requires UsersValid(users)
    requires |salt| >= SaltLength && FindUser(users, username).None?
    ensures CreateUserSpec(kdf, users, salt, username, password).0.Returns?
    ensures var next := CreateUserSpec(kdf, users, salt, username, password).1;
      var prefix := salt[..SaltLength];
      && VerifyUser(kdf, next, Some(username), Some(password)) == Returns(true)
      && VerifyUser(kdf, next, Some(username), Some(other))
         == Returns(kdf(other, prefix) == kdf(password, prefix))
      && (!(prefix <= password) ==> next[|users|].passwordHash != password)
  {
    var next := CreateUserSpec(kdf, users, salt, username, password).1;
    InsertFreshUser(users, next[|users|]);
    CheckPwOfHashPw(kdf, password, other, salt);
  }

  /**
   * create_user: adds the user to the session and commits; the UNIQUE
   * constraint is checked by the commit, which rolls back on a taken name.
   */
  method CreateUser(s: Session, kdf: Kdf, salt: string, username: string, password: string)
    returns (outcome: Outcome<()>)
    requires s.open && s.Synced() && s.db.Valid()
    modifies s, s.db
    ensures (outcome, s.db.users) == CreateUserSpec(kdf, old(s.db.users), salt, username, password)
    ensures s.db.recs == old(s.db.recs)
    ensures s.open && s.Synced() && s.db.Valid()
  {
    CreateUserOutcomes(kdf, s.users, salt, username, password);
    var hashed := HashPw(kdf, password, salt);
    if hashed.None? {
      return Raises(InvalidSalt);
    }
    var user := User(NextId(s.users), username, salt, hashed.value);
    CommitOutcome(s.users, user);
    s.AddUser(user);
    var ok := s.Commit();
    if !ok {
      return Raises(UniqueFailed);
    }
    return Returns(());
  }

  /** The commit of one new user succeeds exactly when the name is free. */
  lemma CommitOutcome(users: seq<User>, u: User)
    requires UniqueUsernames(users)
    ensures UniqueUsernames(users + [u]) <==> FindUser(users, u.username).None?
  {
    if FindUser(users, u.username).Some? {
      var k := FindUser(users, u.username).value;
      assert (users + [u])[k].username == (users + [u])[|users|].username;
    }
  }

  // ------------------------------------------------------------------
  // routes/account_routes.py

  datatype AccountBody = Message(text: string) | Error(text: string) | ServerError

  /**
   * update_password with `salt` from gensalt: the reply and the committed
   * table. verify_user runs outside the try block, so its exceptions escape
   * the route; those of hashpw on the new password are caught and answered
   * with 500 and their message.
   */
  function AccountUpdateSpec(kdf: Kdf, users: seq<User>, salt: string, username: Option<string>,
                             oldPassword: Option<string>, newPassword: Option<string>)
    : (out: (Reply<AccountBody>, seq<User>))
    ensures out.0.status != 200 ==> out.1 == users
  {
    match VerifyUser(kdf, users, username, oldPassword)
    case Raises(_) => (Reply(500, ServerError), users)
    case Returns(false) => (Reply(401, Error(InvalidCredentials)), users)
    case Returns(true) =>
      var k := FindUser(users, username.value).value;
      if newPassword.None? then (Reply(500, Error(NoneHasNoEncode)), users)
      else
        match HashPw(kdf, newPassword.value, salt)
        case None => (Reply(500, Error(InvalidSalt)), users)
        case Some(h) =>
          (Reply(200, Message(PasswordUpdated)), users[k := users[k].(passwordHash := h, salt := salt)])
  }

  /**
   * Every reply of update_password by its cause: an error escaping
   * verification, a None new password and a bad salt each give their 500,
   * and a verified user with a new password and a valid salt always gets 200.
   */
  lemma AccountUpdateReplies(kdf: Kdf, users: seq<User>, salt: string, username: Option<string>,
                             oldPassword: Option<string>, newPassword: Option<string>)
    ensures var reply := AccountUpdateSpec(kdf, users, salt, username, oldPassword, newPassword).0;
      && (VerifyUser(kdf, users, username, oldPassword).Raises? ==> reply == Reply(500, ServerError))
      && ((VerifyUser(kdf, users, username, oldPassword) == Returns(true) && newPassword.None?)
            ==> reply == Reply(500, Error(NoneHasNoEncode)))
      && ((VerifyUser(kdf, users, username, oldPassword) == Returns(true) && newPassword.Some?
           && |salt| < SaltLength) ==> reply == Reply(500, Error(InvalidSalt)))
      && ((VerifyUser(kdf, users, username, oldPassword) == Returns(true) && newPassword.Some?
           && |salt| >= SaltLength) <==> reply == Reply(200, Message(PasswordUpdated)))
  {
  }

  /**
   * When verification fails the reply is 401 and no user changes; a verified
   * user with a new password and a valid salt always succeeds, and then
   * exactly the user's hash and salt are replaced, together, and the table
   * stays valid.
   */
  lemma AccountUpdateOutcomes(kdf: Kdf, users: seq<User>, salt: string, username: Option<string>,
                              oldPassword: Option<string>, newPassword: Option<string>)
    requires UsersValid(users)
    ensures var (reply, next) := AccountUpdateSpec(kdf, users, salt, username, oldPassword, newPassword);
      && UsersValid(next)
      && ((VerifyUser(kdf, users, username, oldPassword) == Returns(false))
            <==> reply == Reply(401, Error(InvalidCredentials)))
      && ((VerifyUser(kdf, users, username, oldPassword) == Returns(true) && newPassword.Some?
           && |salt| >= SaltLength) <==> reply.status == 200)
      && (reply.status == 200 ==>
            && VerifyUser(kdf, users, username, oldPassword) == Returns(true)
            && var k := FindUser(users, username.value).value;
            && |next| == |users|
            && next[k] == users[k].(passwordHash := HashPw(kdf, newPassword.value, salt).value, salt := salt)
            && forall j :: 0 <= j < |users| && j != k ==> next[j] == users[j])
  {
    var (reply, next) := AccountUpdateSpec(kdf, users, salt, username, oldPassword, newPassword);
    AccountUpdateReplies(kdf, users, salt, username, oldPassword, newPassword);
    if reply.status == 200 {
      var k := FindUser(users, username.value).value;
      UpdateKeepsUsers(users, k, salt, HashPw(kdf, newPassword.value, salt).value);
    }
  }

  /**
   * A verified user with a new password and a valid salt gets the change;
   * afterwards verification with the new password succeeds,
   * and with the old one it succeeds only when the key derivation gives both
   * the same hash under the new salt.
   */
  lemma AccountUpdateThenVerify(kdf: Kdf, users: seq<User>, salt: string, username: Option<string>,
                                oldPassword: Option<string>, newPassword: Option<string>)
    requires UsersValid(users)
    requires VerifyUser(kdf, users, username, oldPassword) == Returns(true)
    requires newPassword.Some? && |salt| >= SaltLength
    ensures AccountUpdateSpec(kdf, users, salt, username, oldPassword, newPassword).0.status == 200
    ensures var next := AccountUpdateSpec(kdf, users, salt, username, oldPassword, newPassword).1;
      var prefix := salt[..SaltLength];
      && VerifyUser(kdf, next, username, newPassword) == Returns(true)
      && VerifyUser(kdf, next, username, oldPassword)
         == Returns(kdf(oldPassword.value, prefix) == kdf(newPassword.value, prefix))
  {
    var next := AccountUpdateSpec(kdf, users, salt, username, oldPassword, newPassword).1;
    var k := FindUser(users, username.value).value;
    UpdateKeepsUsers(users, k, salt, HashPw(kdf, newPassword.value, salt).value);
    assert FindUser(next, username.value) == Some(k);
    CheckPwOfHashPw(kdf, newPassword.value, oldPassword.value, salt);
  }

  /**
   * update_password: verifies the old password, then assigns the new hash and
   * salt on the fetched user and commits once.
   */
  method AccountUpdate(s: Session, kdf: Kdf, salt: string, username: Option<string>,
                       oldPassword: Option<string>, newPassword: Option<string>)
    returns (reply: Reply<AccountBody>)
    requires s.open && s.Synced() && s.db.Valid()
    modifies s, s.db
    ensures (reply, s.db.users) == AccountUpdateSpec(kdf, old(s.db.users), salt, username, oldPassword, newPassword)
    ensures s.db.recs == old(s.db.recs)
    ensures s.open && s.Synced() && s.db.Valid()
  {
    AccountUpdateOutcomes(kdf, s.users, salt, username, oldPassword, newPassword);
    var verified := VerifyUser(kdf, s.users, username, oldPassword);
    if verified.Raises? {
      return Reply(500, ServerError);
    }
    if !verified.value {
      return Reply(401, Error(InvalidCredentials));
    }
    var k := FindUser(s.users, username.value).value;
    if newPassword.None? {
      return Reply(500, Error(NoneHasNoEncode));
    }
    var hashed := HashPw(kdf, newPassword.value, salt);
    if hashed.None? {
      return Reply(500, Error(InvalidSalt));
    }
    s.SetCredentials(k, salt, hashed.value);
    var ok := s.Commit();
    return Reply(200, Message(PasswordUpdated));
  }
}
