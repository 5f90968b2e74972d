/**
 * The `/recommend` route, in its two versions: app/routes/recommendations.py
 * runs on the application's shared session, and
 * routes/__pycache__/recommendation_routes.py opens a session of its own for
 * each request and closes it again. Both validate the request, ask the
 * recommendation service, and store one row per recommendation in a single
 * commit. The recommendation service and the clock are parameters.
 */
module Recommendations {
  import opened Optional
  import opened Http
  import opened Db
  import Auth

  /** One recommendation as the service returns it. */
  datatype Recommendation = Recommendation(
    movieId: int,
    title: string,
    overview: string,
    releaseDate: string,
    posterPath: Option<string>,
    watchProviders: seq<string>,
    trailerUrl: Option<string>)

  /** The service's JSON answer: a list of recommendations, or a (non-empty) error object. */
  datatype Payload = Movies(items: seq<Recommendation>) | Detail(detail: string)

  datatype Upstream = Upstream(payload: Payload, status: int)

  /** `get_movie_recommendations_from_tmdb(genre, age_rating, year_range)` */
  type Catalog = (string, string, string) -> Upstream

  datatype RecBody =
    | Error(text: string)
    | Passed(payload: Payload)             // the service's answer, handed on unchanged
    | Recommended(items: seq<Recommendation>)
    | ServerError                          // an exception escaped the route

  const FieldsRequired := "username, genre, age_rating, and year_range are required."
  const UnknownUsername := "Invalid username."

  /** The four request fields are all present and non-empty. */
  predicate RequestComplete(username: Option<string>, genre: Option<string>,
                            ageRating: Option<string>, yearRange: Option<string>) {
    Present(username) && Present(genre) && Present(ageRating) && Present(yearRange)
  }

  /** The row stored for one recommendation of user `uid`; `now` is the insertion time. */
  function RowOf(uid: nat, rec: Recommendation, now: int): RecRow {
    RecRow(uid, rec.movieId, rec.title, rec.overview, rec.releaseDate, rec.posterPath,
           StoreProviders(rec.watchProviders), rec.trailerUrl, now)
  }

  function RowsOf(uid: nat, items: seq<Recommendation>, now: int): (rows: seq<RecRow>)
    ensures |rows| == |items|
    ensures forall k :: 0 <= k < |items| ==> rows[k] == RowOf(uid, items[k], now)
  {
    seq(|items|, k requires 0 <= k < |items| => RowOf(uid, items[k], now))
  }

  /** The reply and the committed recommendation table after one request. */
  function RecommendSpec(users: seq<User>, recs: seq<RecRow>, catalog: Catalog, now: int,
                         username: Option<string>, genre: Option<string>,
                         ageRating: Option<string>, yearRange: Option<string>)
    : (out: (Reply<RecBody>, seq<RecRow>))
    ensures out.0.status != 200 ==> out.1 == recs
    ensures out.0.status == 200 ==>
      && RequestComplete(username, genre, ageRating, yearRange)
      && FindUser(users, username.value).Some?
      && out.0.body.Recommended?
      && out.1 == recs + RowsOf(users[FindUser(users, username.value).value].id, out.0.body.items, now)
  {
    if !RequestComplete(username, genre, ageRating, yearRange) then (Reply(400, Error(FieldsRequired)), recs)
    else
      match FindUser(users, username.value)
      case None => (Reply(404, Error(UnknownUsername)), recs)
      case Some(k) =>
        var answer := catalog(genre.value, ageRating.value, yearRange.value);
        if answer.status != 200 then (Reply(answer.status, Passed(answer.payload)), recs)
        else
          match answer.payload
          case Detail(_) => (Reply(500, ServerError), recs)
          case Movies(items) => (Reply(200, Recommended(items)), recs + RowsOf(users[k].id, items, now))
  }

  /**
   * The checks come in order -- the four fields, then the user, then the
   * service's status -- and every failure leaves the table as it was; a
   * status other than 200 is handed on with the service's answer, a 200
   * error object is a server error, and a complete request for a known user
   * whose service answers 200 with a list always succeeds.
   */
  lemma RecommendOutcomes(users: seq<User>, recs: seq<RecRow>, catalog: Catalog, now: int,
                         username: Option<string>, genre: Option<string>,
                         ageRating: Option<string>, yearRange: Option<string>)
    ensures var (reply, next) := RecommendSpec(users, recs, catalog, now, username, genre, ageRating, yearRange);
      && (reply.status != 200 ==> next == recs)
      && (!RequestComplete(username, genre, ageRating, yearRange) ==> reply == Reply(400, Error(FieldsRequired)))
      && ((RequestComplete(username, genre, ageRating, yearRange) && FindUser(users, username.value).None?)
            ==> reply == Reply(404, Error(UnknownUsername)))
      && ((RequestComplete(username, genre, ageRating, yearRange) && FindUser(users, username.value).Some?)
            ==> var answer := catalog(genre.value, ageRating.value, yearRange.value);
                && (answer.status != 200 ==> reply == Reply(answer.status, Passed(answer.payload)))
                && (answer.status == 200 && answer.payload.Detail? ==> reply == Reply(500, ServerError))
                && ((answer.status == 200 && answer.payload.Movies?)
                      ==> reply == Reply(200, Recommended(answer.payload.items))))
      && (reply.status == 200 <==>
            && RequestComplete(username, genre, ageRating, yearRange)
            && FindUser(users, username.value).Some?
            && catalog(genre.value, ageRating.value, yearRange.value).status == 200
            && catalog(genre.value, ageRating.value, yearRange.value).payload.Movies?)
  {
  }

  /**
   * A complete request for a known user whose service answers 200 with a
   * list succeeds: the reply carries the service's list unchanged and the table
   * grows by one row per recommendation, in order, each tagged with the
   * user's id and holding that recommendation's fields; its provider column
   * reads back as the recommendation's list, and is NULL exactly when the
   * list is empty.
   */
  lemma RecommendStores(users: seq<User>, recs: seq<RecRow>, catalog: Catalog, now: int,
                        username: Option<string>, genre: Option<string>,
                        ageRating: Option<string>, yearRange: Option<string>)
    requires RequestComplete(username, genre, ageRating, yearRange)
    requires FindUser(users, username.value).Some?
    requires catalog(genre.value, ageRating.value, yearRange.value).status == 200
    requires catalog(genre.value, ageRating.value, yearRange.value).payload.Movies?
    ensures var (reply, next) := RecommendSpec(users, recs, catalog, now, username, genre, ageRating, yearRange);
      && reply.status == 200
      && var uid := users[FindUser(users, username.value).value].id;
      && var answer := catalog(genre.value, ageRating.value, yearRange.value);
      && answer == Upstream(Movies(reply.body.items), 200)
      && var items := reply.body.items;
      && |next| == |recs| + |items|
      && next[..|recs|] == recs
      && forall k :: 0 <= k < |items| ==>
           var row := next[|recs| + k];
           && row.userId == uid
           && row.movieId == items[k].movieId
           && row.title == items[k].title
           && row.overview == items[k].overview
           && row.releaseDate == items[k].releaseDate
           && row.posterPath == items[k].posterPath
           && row.trailerUrl == items[k].trailerUrl
           && LoadProviders(row.watchProviders) == Some(items[k].watchProviders)
           && (row.watchProviders.None? <==> items[k].watchProviders == [])
  {
    var (reply, next) := RecommendSpec(users, recs, catalog, now, username, genre, ageRating, yearRange);
    var items := reply.body.items;
    var uid := users[FindUser(users, username.value).value].id;
    assert next == recs + RowsOf(uid, items, now);
    forall k | 0 <= k < |items|
      ensures LoadProviders(next[|recs| + k].watchProviders) == Some(items[k].watchProviders)
    {
      ProvidersRoundTrip(items[k].watchProviders);
    }
  }

  /** Login lists a stored row exactly as the service recommended it. */
  lemma StoredRowLogsInAsRecommended(uid: nat, rec: Recommendation, now: int)
    ensures Auth.PreviousOf(RowOf(uid, rec, now))
            == Some(Auth.PreviousRec(rec.movieId, rec.title, rec.overview, rec.releaseDate, rec.posterPath,
                                     rec.watchProviders, rec.trailerUrl, now))
  {
    ProvidersRoundTrip(rec.watchProviders);
  }

  /** The rows a request stores keep every provider column decodable. */
  lemma RecommendKeepsDecodable(users: seq<User>, recs: seq<RecRow>, catalog: Catalog, now: int,
                                username: Option<string>, genre: Option<string>,
                                ageRating: Option<string>, yearRange: Option<string>)
    requires ProvidersDecodable(recs)
    ensures ProvidersDecodable(RecommendSpec(users, recs, catalog, now, username, genre, ageRating, yearRange).1)
  {
    var (reply, next) := RecommendSpec(users, recs, catalog, now, username, genre, ageRating, yearRange);
    if reply.status == 200 {
      RecommendOutcomes(users, recs, catalog, now, username, genre, ageRating, yearRange);
      RecommendStores(users, recs, catalog, now, username, genre, ageRating, yearRange);
    }
  }

  lemma RowsOfSnoc(uid: nat, items: seq<Recommendation>, now: int, i: nat)
    requires i < |items|
    ensures RowsOf(uid, items[..i + 1], now) == RowsOf(uid, items[..i], now) + [RowOf(uid, items[i], now)]
  {
    var a, b := items[..i + 1], items[..i];
    assert a == b + [items[i]];
    RowsOfAppend(uid, b, items[i], now);
  }

  lemma RowsOfAppend(uid: nat, b: seq<Recommendation>, x: Recommendation, now: int)
    ensures RowsOf(uid, b + [x], now) == RowsOf(uid, b, now) + [RowOf(uid, x, now)]
  {
    var longer, shorter, last := RowsOf(uid, b + [x], now), RowsOf(uid, b, now), RowOf(uid, x, now);
    forall k | 0 <= k < |longer|
      ensures longer[k] == (shorter + [last])[k]
    {
      if k < |b| {
        assert (b + [x])[k] == b[k];
      } else {
        assert (b + [x])[k] == x;
      }
    }
  }

  /** Adds one row per recommendation to the session, in order; nothing is committed. */
  method AddRows(s: Session, uid: nat, items: seq<Recommendation>, now: int)
    requires s.open
    modifies s
    ensures s.recs == old(s.recs) + RowsOf(uid, items, now)
    ensures s.users == old(s.users) && s.open
  {
    var i := 0;
    while i < |items|
      invariant 0 <= i <= |items|
      invariant s.open && s.users == old(s.users)
      invariant s.recs == old(s.recs) + RowsOf(uid, items[..i], now)
    {
      RowsOfSnoc(uid, items, now, i);
      s.AddRec(RowOf(uid, items[i], now));
      i := i + 1;
    }
    assert items[..i] == items;
  }

  /**
   * recommend on the application's shared session. `consulted` tells whether
   * the service was asked: only once the fields and the user have passed.
   */
  method RecommendShared(s: Session, catalog: Catalog, now: int,
                         username: Option<string>, genre: Option<string>,
                         ageRating: Option<string>, yearRange: Option<string>)
    returns (reply: Reply<RecBody>, consulted: bool)
    requires s.open && s.Synced() && s.db.Valid()
    modifies s, s.db
    ensures (reply, s.db.recs)
            == RecommendSpec(old(s.db.users), old(s.db.recs), catalog, now, username, genre, ageRating, yearRange)
    ensures consulted <==> RequestComplete(username, genre, ageRating, yearRange)
                           && FindUser(old(s.db.users), username.value).Some?
    ensures s.db.users == old(s.db.users)
    ensures s.open && s.Synced() && s.db.Valid()
  {
    RecommendKeepsDecodable(s.users, s.recs, catalog, now, username, genre, ageRating, yearRange);
    consulted := false;
    if !RequestComplete(username, genre, ageRating, yearRange) {
      return Reply(400, Error(FieldsRequired)), consulted;
    }
    var found := FindUser(s.users, username.value);
    if found.None? {
      return Reply(404, Error(UnknownUsername)), consulted;
    }
    var uid := s.users[found.value].id;
    var answer := catalog(genre.value, ageRating.value, yearRange.value);
    consulted := true;
    if answer.status != 200 {
      return Reply(answer.status, Passed(answer.payload)), consulted;
    }
    if answer.payload.Detail? {
      return Reply(500, ServerError), consulted;
    }
    AddRows(s, uid, answer.payload.items, now);
    var ok := s.Commit();
    return Reply(200, Recommended(answer.payload.items)), consulted;
  }

  /**
   * recommend with a session of its own: the same outcome, and the session
   * is closed on every path the route returns from. Only an exception that
   * escapes the route leaves it open.
   */
  method RecommendPerRequest(db: Database, catalog: Catalog, now: int,
                             username: Option<string>, genre: Option<string>,
                             ageRating: Option<string>, yearRange: Option<string>)
    returns (reply: Reply<RecBody>, session: Session)
    requires db.Valid()
    modifies db
    ensures fresh(session) && session.db == db
    ensures (reply, db.recs)
            == RecommendSpec(old(db.users), old(db.recs), catalog, now, username, genre, ageRating, yearRange)
    ensures db.users == old(db.users) && db.Valid()
    ensures session.open <==> reply == Reply(500, ServerError)
  {
    session := new Session(db);
    RecommendKeepsDecodable(db.users, db.recs, catalog, now, username, genre, ageRating, yearRange);
    if !RequestComplete(username, genre, ageRating, yearRange) {
      session.Close();
      return Reply(400, Error(FieldsRequired)), session;
    }
    var found := FindUser(session.users, username.value);
    if found.None? {
      session.Close();
      return Reply(404, Error(UnknownUsername)), session;
    }
    var uid := session.users[found.value].id;
    var answer := catalog(genre.value, ageRating.value, yearRange.value);
    if answer.status != 200 {
      session.Close();
      return Reply(answer.status, Passed(answer.payload)), session;
    }
    if answer.payload.Detail? {
      return Reply(500, ServerError), session;
    }
    AddRows(session, uid, answer.payload.items, now);
    var ok := session.Commit();
    session.Close();
    return Reply(200, Recommended(answer.payload.items)), session;
  }
}
