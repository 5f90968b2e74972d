# 411Final-Project movie service, modelled in Dafny

The project is a Flask movie-recommendation service. This Dafny model covers
its logic:

* **TMDB client** (`tmdb_api.py`), module `Tmdb`:
  * the genre table, which rejects unknown genres before any request;
  * the release-date bounds of a discover query;
  * the loop that shapes discover results (title and rating defaults, genre, year, poster URL);
  * the trailer search;
  * the top-rated and now-playing lists.

  HTTP responses are function parameters. The methods also return the log of requests they issued.
* **In-memory movie store** (`app.py`), module `MovieStore`:
  * the `MovieModel` class, with Python list indexing, negative indices included;
  * the create, get and delete routes;
  * the case-insensitive recommendation filter.
* **Shared tables and sessions**, module `Db`:
  * the `user` and `user_recommendation` tables;
  * the queries the routes issue against them;
  * a SQLAlchemy-like `Session` class. Pending changes are visible to the session's own queries at once. They reach the `Database` only at `Commit`, which enforces the UNIQUE constraint on usernames.
* **Account routes** (`app/routes/auth.py`), module `Auth`: `create_account`, `login` and `update_password`. The PBKDF2 password hash is a parameter, and so is the uuid salt.
* **Recommendation routes**, module `Recommendations`:
  * the `/recommend` route on the shared session (`app/routes/recommendations.py`);
  * the same route with a per-request session that is closed on each return path (`routes/__pycache__/recommendation_routes.py`).

  The recommendation service and the clock are parameters.
* **Provider-list JSON**, module `JsonList`: `json.dumps` of a list of strings, with the ASCII escaping Python uses by default, and the matching part of `json.loads`. These are used to store the providers column and to read it back at login. The round trip is proved.
* **bcrypt user store** (`models.py`, `routes/account_routes.py`), module `BcryptUsers`:
  * `create_user` and `verify_user`;
  * the password-change route.

  bcrypt is modelled by its structure: the hash is the 29-character salt prefix followed by a key derivation, and `checkpw` re-hashes with the stored hash as the salt. The key derivation and `gensalt` are parameters.

The methods that change state are proved against the specification functions
`CreateAccountSpec`, `UpdatePasswordSpec`, `RecommendSpec`, `CreateUserSpec`
and `AccountUpdateSpec`. Each of these returns the reply and the new committed
table. The lemmas next to them prove what the routes promise. Where the
recommendation JSON, the ORM or the hash comes from a library, its behaviour
is stated as described under "Left out".

The model follows the code in two places where a reader might expect otherwise:

* MovieStore.MovieModel.GetMovieById and MovieStore.MovieModel.DeleteMovie accept Python's negative indices (`-len <= i < 0`), because `self.movies[movie_id]` and `pop(movie_id)` do.
* `tmdb_api.py` raises `AttributeError` on a JSON `null` release date. `.get` returns its default only for a missing key. The model reports that case as `Raises`.

## Model

| member | source | states |
|---|---|---|
| Tmdb.GenreId | tmdb_api.py:28-35 | a genre has an id exactly when it is one of the ten table names, and every id is non-zero, so only unknown names are rejected |
| Tmdb.PosterUrl | tmdb_api.py:97 | Some exactly when the path is present and non-empty; the URL is the w500 base followed by the path; never the bare base |
| Tmdb.BeforeFirstDash | tmdb_api.py:102 | `split("-")[0]`: a prefix of the input without `-`, ending at the first `-` or at the end |
| Tmdb.YearOf | tmdb_api.py:102 | the year raises (None) exactly for a null date; a missing date gives "Unknown"; a present date gives exactly its part before the first dash, a dash-free prefix that is the whole date when it holds no dash |
| Tmdb.ShapeMovie | tmdb_api.py:98-105 | a record is built exactly when the release date is not null, and it carries the requested genre, the given trailer and a dash-free year |
| Tmdb.ShapedRecordFields | tmdb_api.py:96-105 | a shaped record fails exactly for a null release date; otherwise it carries the requested genre, the trailer, the poster rule, the year before the first dash or "Unknown", the "Unknown Title"/"N/A" defaults for missing keys, and null for a null title or rating |
| Tmdb.NatToStringRoundTrip | tmdb_api.py:86-87 | the decimal rendering of a year reads back as that year |
| Tmdb.ReleasedFrom | tmdb_api.py:86 | the lower bound is the year followed by "-01-01", and for a year >= 0 its part before the first dash is the year |
| Tmdb.ReleasedTo | tmdb_api.py:87 | the upper bound is the year followed by "-12-31", and for a year >= 0 its part before the first dash is the year |
| Tmdb.BeforeFirstDashAppend | tmdb_api.py:102 | a dash-free string followed by a dash and more text splits back to that string |
| Tmdb.YearOfReleaseBounds | tmdb_api.py:86-87 | the bounds are the year followed by exactly "-01-01" and "-12-31", and the year extracted from each bound is the year itself |
| Tmdb.FirstTrailerIsFirstMatch | tmdb_api.py:115-117 | when video i is the first YouTube trailer, the trailer is the embed URL of its key |
| Tmdb.FirstTrailer | tmdb_api.py:114-118 | None exactly when no video is a YouTube trailer; otherwise the embed URL of the key of some YouTube trailer of the list |
| Tmdb.TrailerOf | tmdb_api.py:112-118 | no trailer for a non-200 response; on 200, no trailer exactly when no result is a YouTube trailer; a trailer found is the embed URL of a YouTube trailer of the response's results |
| Tmdb.NoMatchNoTrailer | tmdb_api.py:115-118 | with no YouTube trailer among the videos, the trailer is None |
| Tmdb.GetMovieTrailer | tmdb_api.py:109-118 | issues exactly one videos request; the result is the first matching trailer of a 200 response, None otherwise |
| Tmdb.FirstNullDate | tmdb_api.py:95-102 | the position of the first movie whose release date is null, before which no date is null |
| Tmdb.TrailerRequests | tmdb_api.py:96 | one videos request per movie, in order, for that movie's id |
| Tmdb.ShapesAllSnoc | tmdb_api.py:94-105 | the shaping loop's invariant extends by one movie and its record |
| Tmdb.ShapedListFields | tmdb_api.py:94-107 | every record of the shaped list has the requested genre, the trailer of its own movie, and the year rule |
| Tmdb.ShapeResults | tmdb_api.py:94-107 | the loop issues one trailer request per movie up to the first null date; it raises exactly when a null date occurs; otherwise one record per result, in order |
| Tmdb.GetMoviesByGenreRatingAndYears | tmdb_api.py:70-107 | an unknown genre gives the error and no request; a non-200 status gives "Failed to fetch movies: " and the status message after one request; a 200 gives the discover query with the year bounds followed by the shaping loop |
| Tmdb.MoviesByGenreAndRating | tmdb_api.py:17-49 | an unknown genre gives the error and no request; otherwise one discover request, whose results are passed through on 200 and turned into the "Failed to fetch movies: " error otherwise |
| Tmdb.ListAll | tmdb_api.py:138-146 | one listing per movie, same length and order |
| Tmdb.ListMovie | tmdb_api.py:139-144 | a poster exactly for a non-empty poster path; a null title, date or rating gives null and a present title or date is copied |
| Tmdb.Listed | tmdb_api.py:136-147 | a 200 response gives the listings of its results; any other status gives the failure prefix followed by the status message |
| Tmdb.TopRatedMovies | tmdb_api.py:131-147 | a 200 response gives one listing per top-rated movie, in order; any other status gives the error "Failed to fetch top-rated movies: " followed by the status message or "Unknown error" |
| Tmdb.NowPlaying | tmdb_api.py:149-165 | a 200 response gives one listing per now-playing movie, in order; any other status gives the error "Failed to fetch now-playing movies: " followed by the status message or "Unknown error" |
| Tmdb.ListingFields | tmdb_api.py:140-143 | listing defaults "Unknown Title", "Unknown", "N/A" for missing keys, null for a null rating, and the poster rule |
| MovieStore.ListPosition | app.py:21 | the position a Python list index denotes: i, or len+i for a negative index, and none outside `-len <= i < len` |
| MovieStore.MovieModel.constructor | app.py:11-13 | the store starts empty |
| MovieStore.MovieModel.CreateMovie | app.py:15-17 | exactly one record with the given fields is appended; earlier entries are unchanged |
| MovieStore.MovieModel.GetMovieById | app.py:19-23 | returns entry i in range (negative indices from the end) and "Movie not found" exactly outside it |
| MovieStore.MovieModel.GetAllMovies | app.py:25-26 | the stored list itself |
| MovieStore.MovieModel.DeleteMovie | app.py:28-32 | in range, exactly entry i goes: length minus one, earlier entries stay and later ones shift down; out of range, nothing changes |
| MovieStore.GetMovieRoute | app.py:116-120 | 200 with `movies[i]` for an in-range index of either sign (a negative one counting from the end); 500 "Movie not found" exactly out of range |
| MovieStore.DeleteMovieRoute | app.py:98-102 | 200 exactly for an in-range index, after which the store is the old one with exactly that entry removed; 500 "Movie not found" leaves the store unchanged; the only replies are 200 and that error |
| MovieStore.AddMovie | app.py:70-84 | 400 and no append when the title or genre is missing or empty, or when the rating or year is missing; otherwise 201 with the title and exactly one append |
| MovieStore.Lower | app.py:161 | ASCII lower-casing, character by character |
| MovieStore.LowerIdempotent | app.py:161 | lower-casing twice is lower-casing once |
| MovieStore.SubsequenceOfTail | app.py:160-162 | a subsequence of the tail is a subsequence of the list |
| MovieStore.DropHead | app.py:160-162 | dropping the head of a subsequence keeps it a subsequence |
| MovieStore.RecommendIsSubsequence | app.py:160-162 | the recommendations are an order-preserving subsequence of the store |
| MovieStore.RecommendMovies | app.py:160-162 | the comprehension is no longer than the store, and every movie it yields is in the store and matches both filters |
| MovieStore.RecommendCounts | app.py:160-162 | each movie occurs as often as in the store if it matches both filters, and not at all otherwise |
| MovieStore.RecommendSound | app.py:160-162 | every recommendation matches the genre case-insensitively and has at least the rating |
| MovieStore.RecommendComplete | app.py:160-162 | no matching movie of the store is dropped |
| MovieStore.RecommendWithoutFilters | app.py:160-162 | with neither filter the result is the whole store |
| MovieStore.GenreFilterIgnoresCase | app.py:161 | lower-casing the requested genre changes nothing |
| MovieStore.RecommendRoute | app.py:156-166 | the reply is the comprehension over the store: an order-preserving subsequence that keeps every matching movie as often as the store holds it and no other; the whole store without filters; the store is not modified |
| JsonList.Hex4RoundTrip | app/routes/recommendations.py:30 | four hex digits of a code unit read back as that code unit |
| JsonList.Dumps | app/routes/recommendations.py:30 | the JSON text of a list opens with `[` and closes with `]`, and every character is ASCII (the default ensure_ascii) |
| JsonList.EscapeCharStep | app/routes/recommendations.py:30 | every character's ASCII escape, including surrogate pairs, reads back as that character |
| JsonList.EscapeRoundTrip | app/routes/recommendations.py:30 | an escaped string followed by its closing quote reads back as the string |
| JsonList.ItemsRoundTrip | app/routes/recommendations.py:30 | the comma-separated quoted items read back as the list |
| JsonList.DumpsRoundTrip | app/routes/auth.py:53 | `json.loads(json.dumps(xs)) == xs` for every list of strings |
| JsonList.Loads | app/routes/auth.py:53 | text is accepted only when it opens a list after leading whitespace, and an empty list `[]` gives the empty list |
| Db.FindUser | app/routes/auth.py:20 | `filter_by(username=...).first()`: the first row with the name, or None exactly when no row has it |
| Db.FindUserUnique | models.py:9 | under the UNIQUE constraint, the row found is the only one with that name |
| Db.InsertFreshUser | app/routes/auth.py:26-28 | adding a user with a free name and the next id keeps names unique and ids sequential, and the new user is found |
| Db.UpdateKeepsUsers | app/routes/auth.py:91-93 | assigning one user's salt and hash keeps the table valid, changes no other row and no lookup |
| Db.SameNamesSameFind | app/routes/auth.py:80 | the lookup depends on the usernames only |
| Db.UserRecs | app/routes/auth.py:50 | `filter_by(user_id=...)`: exactly the user's rows, each as often as in the table |
| Db.Insert | app/routes/auth.py:50 | inserting into a newest-first list keeps it newest-first and adds exactly that row |
| Db.NewestFirst | app/routes/auth.py:50 | `order_by(recommended_at.desc())`: sorted newest first and a permutation of the rows |
| Db.StoreProviders | app/routes/recommendations.py:30 | the column is NULL exactly when the provider list is empty |
| Db.LoadProviders | app/routes/auth.py:53 | a NULL or empty column reads as the empty list; reading fails only for non-empty text that `json.loads` rejects |
| Db.ProvidersRoundTrip | app/routes/auth.py:53 | a stored provider list reads back at login as the same list |
| Db.Database.constructor | app/database.py:5-8 | the database starts with empty, valid tables |
| Db.Session.constructor | routes/__pycache__/recommendation_routes.py:11 | a new session sees the committed tables and has no pending changes |
| Db.Session.AddUser | app/routes/auth.py:27 | `session.add`: the user is pending in the session and nothing is committed |
| Db.Session.AddRec | app/routes/recommendations.py:41 | `session.add`: the row is pending in the session and nothing is committed |
| Db.Session.SetCredentials | app/routes/auth.py:91-92 | attribute assignment on a loaded user: only that user's salt and hash change |
| Db.Session.Commit | app/routes/auth.py:28 | the pending changes reach the database together when usernames stay unique; otherwise nothing is committed and the session is rolled back |
| Db.Session.Close | routes/__pycache__/recommendation_routes.py:47 | the session is closed, pending changes are dropped, and the database is untouched |
| Auth.CreateAccountSpec | app/routes/auth.py:10-30 | any reply other than 201 leaves the user table unchanged |
| Auth.CreateAccountOutcomes | app/routes/auth.py:16-28 | 400 exactly for a missing or empty field, 409 exactly for a taken name, 201 exactly for present fields and a free name; 201 exactly when one user is appended with the name, the fresh salt and `hash_password(password, salt)`; usernames stay unique |
| Auth.CreateAccount | app/routes/auth.py:10-30 | the reply and the committed table are those of CreateAccountSpec; the table stays valid |
| Auth.PreviousAll | app/routes/auth.py:51-63 | the listing fails exactly when some row's providers cannot be decoded; otherwise one entry per row, in order |
| Auth.PreviousOf | app/routes/auth.py:53-63 | an entry fails exactly when its providers cannot be decoded; a NULL or empty column gives an empty provider list; every other column is copied from the row |
| Auth.LoginSpec | app/routes/auth.py:32-68 | only 200, 400, 401 and 500 occur; 400 exactly for a missing or empty field; 200 only for a known user with a matching password, with the listing; 500 is the server error |
| Auth.LoginFailsClosed | app/routes/auth.py:41-47 | 401 exactly for an unknown user or a wrong password, and both get the identical message |
| Auth.LoginListsOwnRows | app/routes/auth.py:49-68 | a successful login lists exactly the user's rows, newest first; with decodable provider columns a correct password always logs in |
| Auth.ListPrevious | app/routes/auth.py:51-63 | the loop yields exactly PreviousAll's listing: one entry per row in order, or None as soon as a row's providers fail to decode |
| Auth.OwnRowsDecodable | app/routes/auth.py:50-53 | when every provider column of the table decodes, so does the listing of any one user's rows |
| Auth.Login | app/routes/auth.py:32-68 | the loop builds exactly LoginSpec's reply and changes no state |
| Auth.CreateThenLogin | app/routes/auth.py:10-47 | for every free name and non-empty password, create succeeds (201) and login with the same name and password then succeeds (200) |
| Auth.UpdatePasswordSpec | app/routes/auth.py:70-95 | any reply other than 200 leaves the user table unchanged |
| Auth.UpdatePasswordOutcomes | app/routes/auth.py:77-94 | for present fields: 404 exactly for an unknown name, 401 exactly for a wrong current password, 200 exactly for a correct one; on 200 only that user's salt and hash change, together, to the new salt and `hash_password(new, salt)` |
| Auth.UpdateThenLogin | app/routes/auth.py:77-94 | for a known user and the correct current password the update succeeds (200); the new password then logs in, and the old one logs in only if it hashes alike under the new salt |
| Auth.UpdatePassword | app/routes/auth.py:70-95 | the reply and the committed table are those of UpdatePasswordSpec; the table stays valid |
| Recommendations.RowsOf | app/routes/recommendations.py:29-41 | one row per recommendation |
| Recommendations.RecommendSpec | app/routes/recommendations.py:9-44 | every reply other than 200 leaves the table as it was; a 200 follows a complete request for a known user and appends exactly that user's rows for the reply's items |
| Recommendations.RecommendOutcomes | app/routes/recommendations.py:17-44 | the checks run in order (fields 400, user 404, service status passed on with its body, a 200 error object a server error), every non-200 reply leaves the table unchanged, and the reply is 200 exactly for a complete request for a known user whose service answers 200 with a list |
| Recommendations.RecommendStores | app/routes/recommendations.py:29-44 | for a complete request for a known user whose service answers 200 with a list, the reply is 200 with that list unchanged; the table grows by one row per recommendation, in order, with the user's id and the recommendation's fields; the provider column reads back as the list and is NULL exactly when the list is empty |
| Recommendations.StoredRowLogsInAsRecommended | app/routes/recommendations.py:30 | login lists a stored row exactly as the service recommended it |
| Recommendations.RecommendKeepsDecodable | app/routes/recommendations.py:29-42 | stored rows keep every provider column decodable |
| Recommendations.AddRows | app/routes/recommendations.py:29-41 | the loop adds one pending row per recommendation, in order, and commits nothing |
| Recommendations.RecommendShared | app/routes/recommendations.py:9-44 | reply and committed rows are RecommendSpec's, with a single commit after the loop; the service is asked exactly when the fields are present and the user is known |
| Recommendations.RecommendPerRequest | routes/__pycache__/recommendation_routes.py:9-49 | the same reply and rows on a fresh session, which is closed on every return path and left open only when an exception escapes |
| BcryptUsers.HashPw | models.py:16 | `hashpw` succeeds exactly for a salt of at least 29 characters, and the hash starts with the salt's 29-character prefix |
| BcryptUsers.CheckPw | models.py:26 | checkpw fails (None) exactly for a hash shorter than a salt, and otherwise accepts exactly when re-deriving under the hash's own 29-character prefix reproduces the hash |
| BcryptUsers.CheckPwOfHashPw | models.py:26 | checkpw accepts the hash of the same password; it accepts another password exactly when the key derivation agrees; the hash differs from any password that does not begin with the salt's 29-character prefix |
| BcryptUsers.VerifyUser | models.py:22-26 | False when no user has the name (or the name is None) |
| BcryptUsers.CreateUserSpec | models.py:14-19 | a raised error leaves the table unchanged |
| BcryptUsers.CreateUserOutcomes | models.py:9-19 | a taken name raises the UNIQUE error and keeps the first record; otherwise exactly one user with the name, the salt and the bcrypt hash is appended; names stay unique |
| BcryptUsers.CreateThenVerify | models.py:14-26 | for a free name and a valid salt, create_user(u, p) returns; then verify_user(u, p) is True, verify_user(u, q) is True only if q hashes alike, and the stored hash differs from a password that does not begin with the salt's 29-character prefix |
| BcryptUsers.CreateUser | models.py:14-19 | the outcome and table are CreateUserSpec's; the commit itself refuses a taken name |
| BcryptUsers.CommitOutcome | models.py:9 | the commit of a new user succeeds exactly when its name is free |
| BcryptUsers.AccountUpdateSpec | routes/account_routes.py:9-28 | any reply other than 200 leaves the user table unchanged |
| BcryptUsers.AccountUpdateReplies | routes/account_routes.py:16-28 | an exception from verification gives a 500 server error, a None new password the NoneType 500, a bad salt the "Invalid salt" 500, and a verified user with a new password and a valid salt exactly the 200 |
| BcryptUsers.AccountUpdateOutcomes | routes/account_routes.py:16-25 | 401 exactly when verification returns False; 200 exactly when it returns True with a new password and a valid salt; on 200 exactly that user's hash and salt are replaced together and no other user changes |
| BcryptUsers.AccountUpdateThenVerify | routes/account_routes.py:16-25 | a verified user with a new password and a valid salt gets 200; the new password then verifies, and the old one verifies only if it hashes alike under the new salt |
| BcryptUsers.AccountUpdate | routes/account_routes.py:9-28 | the reply and table are AccountUpdateSpec's, with one commit |

## Left out

- Network and configuration: the HTTP calls of `tmdb_api.py`, the API key check in `TMDBClient.__init__`, Flask's request parsing (`get_json`, `request.args`, `type=float`, and the `<int:movie_id>` URL converter of app.py, which passes only non-negative ids, so the negative-index cases of `MovieStore.GetMovieRoute` and `MovieStore.DeleteMovieRoute` hold for the Python functions but are not reachable over HTTP) and the `jsonify` rendering. Responses and request fields are parameters, and replies are values.
- `get_movie_details` and `search_movies_by_title` pass the upstream JSON through. Neither is modelled.
- Subscript errors on missing keys (`movie['id']`, `video['site']`, `video['type']`, `video['key']`, `rec['watch_providers']` and the other `rec[...]` fields) are not modelled: the records always carry those fields. A JSON `null` for `results` is not modelled either.
- Tmdb.ShapeResults: a null release date makes `split` raise, and the model reports that as `Raises` without a message.
- `get_movie_recommendations_from_tmdb` is not part of this model. It is the `Catalog` parameter. An error object it returns with status 200 counts as non-empty, so the loop over it raises.
- `hash_password` (PBKDF2-HMAC-SHA256) and bcrypt's key derivation are function parameters. The lemmas that say a wrong password fails are stated as "fails unless the two passwords hash alike", not as injectivity.
- `uuid.uuid4().hex` and `gensalt()` are nondeterministic. They are the `salt` parameter.
- BcryptUsers.HashPw checks only the salt's length. bcrypt's check of the salt format and its 72-byte password limit are not modelled.
- BcryptUsers.CreateUserOutcomes: the raised message is the one the repository's test expects. SQLAlchemy prefixes it with the driver's exception name and the SQL statement.
- Db.Session.Commit: after a failed commit SQLAlchemy requires an explicit rollback. The model performs the rollback inside the commit.
- `recommended_at` is a timestamp the caller passes in (`now`), shared by the whole batch. `isoformat()` rendering is not modelled.
- Db.NewestFirst: SQL does not fix the order of rows with equal `recommended_at`. The model fixes one, and the contracts claim only sortedness and permutation.
- The session identity map, lazy loading and concurrent requests are not modelled. Each route runs alone on the tables.
- JsonList.Loads: only the JSON that lists of strings use is read: strings, commas, brackets and whitespace. A lone surrogate escape, which Python decodes to an unpaired surrogate, is rejected. Text holding other JSON values is rejected where Python would read it.
- MovieStore.Lower: lower-cases ASCII letters only. Python's `str.lower` also lower-cases non-ASCII letters.
- Column length limits (`String(80)`, `String(32)`, `String(128)`) are not modelled. SQLite does not enforce them.
- `TMDBClient.BASE_URL` and the query parameters other than genre, rating and the date bounds (`api_key`, `sort_by`, `language`, `region`) do not appear in the modelled requests.
