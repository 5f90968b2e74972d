/**
 * The two tables the account and recommendation routes share -- `user` and
 * `user_recommendation` -- the queries the routes issue against them, and a
 * SQLAlchemy session: changes made through a session are seen by its own
 * queries at once and reach the database only when `commit` succeeds.
 */
module Db {
  import opened Optional
  import JsonList

  /** A row of the `user` table; `id` is the auto-incremented primary key. */
  datatype User = User(id: nat, username: string, salt: string, passwordHash: string)

  /** A row of the `user_recommendation` table. */
  datatype RecRow = RecRow(
    userId: nat,
    movieId: int,
    title: string,
    overview: string,
    releaseDate: string,
    posterPath: Option<string>,
    watchProviders: Option<string>,   // a JSON list of provider names, or NULL
    trailerUrl: Option<string>,
    recommendedAt: int)               // the insertion time, as a timestamp

  /** The UNIQUE constraint on `user.username`. */
  predicate UniqueUsernames(users: seq<User>) {
    forall i, j :: 0 <= i < j < |users| ==> users[i].username != users[j].username
  }

  /** Ids are handed out 1, 2, 3, ... in insertion order and users are never deleted. */
  predicate SequentialIds(users: seq<User>) {
    forall i :: 0 <= i < |users| ==> users[i].id == i + 1
  }

  predicate UsersValid(users: seq<User>) {
    UniqueUsernames(users) && SequentialIds(users)
  }

  /** The id the next inserted user receives. */
  function NextId(users: seq<User>): nat {
    |users| + 1
  }

  /** `query(User).filter_by(username=name).first()`, as a position in the table. */
  function FindUser(users: seq<User>, name: string): (r: Option<nat>)
    ensures r.Some? ==> r.value < |users| && users[r.value].username == name
    ensures r.Some? ==> forall k :: 0 <= k < r.value ==> users[k].username != name
    ensures r.None? <==> forall k :: 0 <= k < |users| ==> users[k].username != name
  {
    if users == [] then None
    else if users[0].username == name then Some(0)
    else match FindUser(users[1..], name)
      case None => None
      case Some(k) => Some(k + 1)
  }

  /** Under the UNIQUE constraint, the user FindUser finds is the only one with that name. */
  lemma FindUserUnique(users: seq<User>, name: string, k: nat)
    requires UniqueUsernames(users)
    requires k < |users| && users[k].username == name
    ensures FindUser(users, name) == Some(k)
  {
  }

  /** Adding a user whose name is not taken keeps the table valid, and the new user is found. */
  lemma InsertFreshUser(users: seq<User>, u: User)
    requires UsersValid(users)
    requires FindUser(users, u.username).None? && u.id == NextId(users)
    ensures UsersValid(users + [u])
    ensures FindUser(users + [u], u.username) == Some(|users|)
  {
    FindUserUnique(users + [u], u.username, |users|);
  }

  /** Changing a user's salt and hash in place keeps the table valid and changes no other row. */
  lemma UpdateKeepsUsers(users: seq<User>, k: nat, salt: string, hash: string)
    requires UsersValid(users) && k < |users|
    ensures var next := users[k := users[k].(salt := salt, passwordHash := hash)];
      && UsersValid(next)
      && (forall j :: 0 <= j < |users| && j != k ==> next[j] == users[j])
      && (forall name :: FindUser(next, name) == FindUser(users, name))
  {
    var next := users[k := users[k].(salt := salt, passwordHash := hash)];
    forall name
      ensures FindUser(next, name) == FindUser(users, name)
    {
      SameNamesSameFind(users, next, name);
    }
  }

  /** FindUser looks only at the usernames. */
  lemma {:induction false} SameNamesSameFind(a: seq<User>, b: seq<User>, name: string)
    requires |a| == |b|
    requires forall j :: 0 <= j < |a| ==> a[j].username == b[j].username
    ensures FindUser(a, name) == FindUser(b, name)
  {
    if a != [] {
      SameNamesSameFind(a[1..], b[1..], name);
    }
  }

  // ------------------------------------------------------------------
  // Recommendation rows

  /** `query(UserRecommendation).filter_by(user_id=uid)`, in table order. */
  function UserRecs(recs: seq<RecRow>, uid: nat): (mine: seq<RecRow>)
    ensures forall r :: r in mine ==> r.userId == uid
    ensures forall r :: multiset(mine)[r] == if r.userId == uid then multiset(recs)[r] else 0
  {
    if recs == [] then []
    else
      assert recs == [recs[0]] + recs[1..];
      (if recs[0].userId == uid then [recs[0]] else []) + UserRecs(recs[1..], uid)
  }

  /** Newest first: `order_by(recommended_at.desc())`. */
  predicate Descending(rows: seq<RecRow>) {
    forall i, j :: 0 <= i < j < |rows| ==> rows[i].recommendedAt >= rows[j].recommendedAt
  }

  /** A row no older than the head of a descending list may go in front of it. */
  lemma ConsDescending(x: RecRow, rows: seq<RecRow>)
    requires Descending(rows)
    requires rows == [] || x.recommendedAt >= rows[0].recommendedAt
    ensures Descending([x] + rows)
  {
    var out := [x] + rows;
    forall i, j | 0 <= i < j < |out|
      ensures out[i].recommendedAt >= out[j].recommendedAt
    {
      if i == 0 && j > 1 {
        assert out[j] == rows[j - 1];
      }
    }
  }

  function Insert(r: RecRow, sorted: seq<RecRow>): (out: seq<RecRow>)
    requires Descending(sorted)
    ensures Descending(out)
    ensures multiset(out) == multiset(sorted) + multiset{r}
    ensures out[0] == r || (sorted != [] && out[0] == sorted[0])
  {
    if sorted == [] || r.recommendedAt >= sorted[0].recommendedAt then
      ConsDescending(r, sorted);
      [r] + sorted
    else
      var head, tail := sorted[0], sorted[1..];
      assert sorted == [head] + tail;
      var inserted := Insert(r, tail);
      ConsDescending(head, inserted);
      [head] + inserted
  }

  /** The rows in descending `recommended_at` order; rows with equal times keep some order. */
  function NewestFirst(rows: seq<RecRow>): (sorted: seq<RecRow>)
    ensures Descending(sorted)
    ensures multiset(sorted) == multiset(rows)
  {
    if rows == [] then []
    else
      assert rows == [rows[0]] + rows[1..];
      Insert(rows[0], NewestFirst(rows[1..]))
  }

  /** The column value for a provider list: its JSON text, or NULL when the list is empty. */
  function StoreProviders(providers: seq<string>): (column: Option<string>)
    ensures column.None? <==> providers == []
  {
    if providers == [] then None else Some(JsonList.Dumps(providers))
  }

  /** Reading the column back: NULL or empty gives `[]`, otherwise `json.loads`; None where that raises. */
  function LoadProviders(column: Option<string>): (providers: Option<seq<string>>)
    ensures (column.None? || column == Some("")) ==> providers == Some([])
    ensures providers.None? ==> column.Some? && column.value != "" && JsonList.Loads(column.value).None?
  {
    if column.None? || column.value == "" then Some([]) else JsonList.Loads(column.value)
  }

  /** A stored provider list reads back as the list that was stored. */
  lemma ProvidersRoundTrip(providers: seq<string>)
    ensures LoadProviders(StoreProviders(providers)) == Some(providers)
  {
    if providers != [] {
      JsonList.DumpsRoundTrip(providers);
    }
  }

  /** Every provider column reads back without an error, as holds for what the routes store. */
  predicate ProvidersDecodable(recs: seq<RecRow>) {
    forall k :: 0 <= k < |recs| ==> LoadProviders(recs[k].watchProviders).Some?
  }

  // ------------------------------------------------------------------
  // The committed database and a session on it

  class Database {
    var users: seq<User>
    var recs: seq<RecRow>

    predicate Valid()
      reads this
    {
      UsersValid(users) && ProvidersDecodable(recs)
    }

    constructor()
      ensures users == [] && recs == [] && Valid()
    {
      users := [];
      recs := [];
    }
  }

  class Session {
    const db: Database
    /** The tables as this session's queries see them: committed rows plus pending changes. */
    var users: seq<User>
    var recs: seq<RecRow>
    var open: bool

    /** `SessionLocal()`: a new session with no pending changes. */
    constructor(db: Database)
      ensures this.db == db && open && Synced()
    {
      this.db := db;
      users := db.users;
      recs := db.recs;
      open := true;
    }

    /** No pending changes. */
    predicate Synced()
      reads this, db
    {
      users == db.users && recs == db.recs
    }

    /** `session.add(user)` */
    method AddUser(u: User)
      requires open
      modifies this
      ensures users == old(users) + [u] && recs == old(recs) && open
    {
      users := users + [u];
    }

    /** `session.add(rec)` */
    method AddRec(r: RecRow)
      requires open
      modifies this
      ensures recs == old(recs) + [r] && users == old(users) && open
    {
      recs := recs + [r];
    }

    /** Assigning `salt` and `password_hash` on a user the session has loaded. */
    method SetCredentials(k: nat, salt: string, hash: string)
      requires open && k < |users|
      modifies this
      ensures users == old(users)[k := old(users)[k].(salt := salt, passwordHash := hash)]
      ensures recs == old(recs) && open
    {
      users := users[k := users[k].(salt := salt, passwordHash := hash)];
    }

    /**
     * `session.commit()`: the pending changes reach the database together, or,
     * when they break the UNIQUE constraint on usernames, none of them do and
     * the session is rolled back to the committed state.
     */
    method Commit() returns (ok: bool)
      requires open
      modifies this, db
      ensures ok == UniqueUsernames(old(users))
      ensures ok ==> db.users == old(users) && db.recs == old(recs)
      ensures !ok ==> db.users == old(db.users) && db.recs == old(db.recs)
      ensures Synced() && open
    {
      ok := UniqueUsernames(users);
      if ok {
        db.users := users;
        db.recs := recs;
      } else {
        users := db.users;
        recs := db.recs;
      }
    }

    /** `session.close()`: pending changes are dropped. */
    method Close()
      modifies this
      ensures !open && Synced()
      ensures db.users == old(db.users) && db.recs == old(db.recs)
    {
      users := db.users;
      recs := db.recs;
      open := false;
    }
  }
}
