/**
 * The in-memory movie store of app.py (class MovieModel), the presence checks
 * of the create-movie route and the recommendation filter.
 *
 * Ratings are reals (only `>=` is used on them); `str.lower()` is modelled as
 * ASCII lower-casing. Indices follow Python list indexing, negative indices
 * included.
 */
module MovieStore {
  import opened Optional
  import opened Http

  datatype MovieRecord = MovieRecord(title: string, genre: string, rating: real, year: int)

  /** A lookup either finds a movie or raises Exception("Movie not found"). */
  datatype Lookup = Found(movie: MovieRecord) | NotFound

  const MovieNotFound := "Movie not found"

  /**
   * The position a Python list index denotes in a list of length n:
   * i itself for 0 <= i < n, n + i for -n <= i < 0, and none (IndexError) otherwise.
   */
  function ListPosition(n: nat, i: int): (k: Option<nat>)
    ensures k.Some? <==> 0 <= n + i && i < n
    ensures k.Some? ==> k.value < n
    ensures k.Some? && i >= 0 ==> k.value == i
    ensures k.Some? && i < 0 ==> k.value == n + i
  {
    if 0 <= i < n then Some(i) else if 0 <= n + i && i < 0 then Some(n + i) else None
  }

  class MovieModel {
    var movies: seq<MovieRecord>

    constructor ()
      ensures movies == []
    {
      movies := [];
    }

    /** create_movie: appends one record with the given fields; earlier entries stay. */
    method CreateMovie(title: string, genre: string, rating: real, year: int)
      modifies this
      ensures movies == old(movies) + [MovieRecord(title, genre, rating, year)]
    {
      movies := movies + [MovieRecord(title, genre, rating, year)];
    }

    /** get_movie_by_id: `self.movies[movie_id]`, or "Movie not found" on IndexError. */
    method GetMovieById(movieId: int) returns (r: Lookup)
      ensures 0 <= movieId < |movies| ==> r == Found(movies[movieId])
      ensures 0 <= |movies| + movieId && movieId < 0 ==> r == Found(movies[|movies| + movieId])
      ensures (movieId >= |movies| || |movies| + movieId < 0) <==> r == NotFound
    {
      var k := ListPosition(|movies|, movieId);
      if k.None? {
        return NotFound;
      }
      return Found(movies[k.value]);
    }

    /** get_all_movies: the list itself. */
    function GetAllMovies(): (all: seq<MovieRecord>)
      reads this
      ensures |all| == |movies| && forall j :: 0 <= j < |all| ==> all[j] == movies[j]
    {
      movies
    }

    /**
     * delete_movie: `self.movies.pop(movie_id)`. In range, exactly that entry
     * goes: the length drops by one, earlier entries stay and later ones shift
     * down by one. Out of range, "Movie not found" and nothing changes.
     */
    method DeleteMovie(movieId: int) returns (deleted: bool)
      modifies this
      ensures deleted <==> 0 <= |old(movies)| + movieId && movieId < |old(movies)|
      ensures !deleted ==> movies == old(movies)
      ensures deleted ==>
        var k := ListPosition(|old(movies)|, movieId).value;
        && movies == old(movies)[..k] + old(movies)[k + 1..]
        && |movies| == |old(movies)| - 1
        && (forall j :: 0 <= j < k ==> movies[j] == old(movies)[j])
        && (forall j :: k <= j < |movies| ==> movies[j] == old(movies)[j + 1])
    {
      var k := ListPosition(|movies|, movieId);
      if k.None? {
        return false;
      }
      movies := movies[..k.value] + movies[k.value + 1..];
      return true;
    }
  }

  // ------------------------------------------------------------------
  // The get-by-id and delete routes: the exception becomes a 500 reply

  datatype MovieBody = Movie(movie: MovieRecord) | Success | Error(message: string)

  /** get_movie_by_id route: 200 with the movie, or 500 "Movie not found". */
  method GetMovieRoute(model: MovieModel, movieId: int) returns (reply: Reply<MovieBody>)
    ensures 0 <= movieId < |model.movies| ==> reply == Reply(200, Movie(model.movies[movieId]))
    ensures 0 <= |model.movies| + movieId && movieId < 0
            ==> reply == Reply(200, Movie(model.movies[|model.movies| + movieId]))
    ensures (movieId >= |model.movies| || |model.movies| + movieId < 0) <==> reply == Reply(500, Error(MovieNotFound))
  {
    var found := model.GetMovieById(movieId);
    if found.NotFound? {
      return Reply(500, Error(MovieNotFound));
    }
    return Reply(200, Movie(found.movie));
  }

  /** delete_movie route: 200 after the deletion, or 500 "Movie not found" with nothing removed. */
  method DeleteMovieRoute(model: MovieModel, movieId: int) returns (reply: Reply<MovieBody>)
    modifies model
    ensures reply == Reply(500, Error(MovieNotFound)) ==> model.movies == old(model.movies)
    ensures reply.status == 200 <==> 0 <= |old(model.movies)| + movieId && movieId < |old(model.movies)|
    ensures reply.status == 200 ==>
      var k := ListPosition(|old(model.movies)|, movieId).value;
      model.movies == old(model.movies)[..k] + old(model.movies)[k + 1..]
    ensures reply.status == 200 || reply == Reply(500, Error(MovieNotFound))
  {
    var deleted := model.DeleteMovie(movieId);
    if !deleted {
      return Reply(500, Error(MovieNotFound));
    }
    return Reply(200, Success);
  }

  // ------------------------------------------------------------------
  // The create-movie route (add_movie)

  const InvalidMovieInput := "Invalid input, all fields are required"

  /**
   * add_movie: 400 when title or genre is missing or empty or when rating or
   * year is missing (a rating or year of 0 is accepted); 201 after appending
   * the movie otherwise.
   */
  method AddMovie(model: MovieModel, title: Option<string>, genre: Option<string>,
                  rating: Option<real>, year: Option<int>)
    returns (reply: Reply<string>)
    modifies model
    ensures var valid := Present(title) && Present(genre) && rating.Some? && year.Some?;
      && (!valid ==> reply == Reply(400, InvalidMovieInput) && model.movies == old(model.movies))
      && (valid ==> reply == Reply(201, title.value)
                    && model.movies == old(model.movies)
                       + [MovieRecord(title.value, genre.value, rating.value, year.value)])
  {
    if !Present(title) || !Present(genre) || rating.None? || year.None? {
      return Reply(400, InvalidMovieInput);
    }
    model.CreateMovie(title.value, genre.value, rating.value, year.value);
    return Reply(201, title.value);
  }

  // ------------------------------------------------------------------
  // Recommendation filter

  function LowerChar(c: char): char {
    if 'A' <= c <= 'Z' then (c as int + 32) as char else c
  }

  /** `s.lower()` on ASCII letters. */
  function Lower(s: string): (r: string)
    ensures |r| == |s|
    ensures forall i :: 0 <= i < |s| ==> r[i] == LowerChar(s[i])
  {
    if s == [] then [] else [LowerChar(s[0])] + Lower(s[1..])
  }

  /** Lower-casing twice is lower-casing once. */
  lemma LowerIdempotent(s: string)
    ensures Lower(Lower(s)) == Lower(s)
  {
  }

  /** The condition of the list comprehension in recommend_movies. */
  predicate Matches(movie: MovieRecord, genre: Option<string>, rating: Option<real>) {
    && (genre.None? || Lower(movie.genre) == Lower(genre.value))
    && (rating.None? || movie.rating >= rating.value)
  }

  /** The comprehension `[movie for movie in movies if Matches(movie)]`. */
  function RecommendMovies(movies: seq<MovieRecord>, genre: Option<string>, rating: Option<real>)
    : (recommended: seq<MovieRecord>)
    ensures |recommended| <= |movies|
    ensures forall m :: m in recommended ==> m in movies && Matches(m, genre, rating)
  {
    if movies == [] then []
    else (if Matches(movies[0], genre, rating) then [movies[0]] else [])
         + RecommendMovies(movies[1..], genre, rating)
  }

  /** `sub` is `full` with some elements left out, in the same order. */
  predicate IsSubsequence<T(==)>(sub: seq<T>, full: seq<T>)
    decreases |full|
  {
    if sub == [] then true
    else if full == [] then false
    else if sub[0] == full[0] then IsSubsequence(sub[1..], full[1..])
    else IsSubsequence(sub, full[1..])
  }

  /** A subsequence of the tail is a subsequence of the whole list. */
  lemma {:induction false} SubsequenceOfTail<T>(sub: seq<T>, full: seq<T>)
    requires full != [] && IsSubsequence(sub, full[1..])
    ensures IsSubsequence(sub, full)
    decreases |full|, 0
  {
    if sub != [] && sub[0] == full[0] {
      DropHead(sub, full[1..]);
    }
  }

  /** Leaving out the first element of a subsequence keeps it a subsequence. */
  lemma {:induction false} DropHead<T>(sub: seq<T>, full: seq<T>)
    requires sub != [] && IsSubsequence(sub, full)
    ensures IsSubsequence(sub[1..], full)
    decreases |full|, 1
  {
    if sub[0] == full[0] {
      SubsequenceOfTail(sub[1..], full);
    } else {
      DropHead(sub, full[1..]);
      SubsequenceOfTail(sub[1..], full);
    }
  }

  /** The recommendations keep the store's order: they are a subsequence of it. */
  lemma {:induction false} RecommendIsSubsequence(movies: seq<MovieRecord>, genre: Option<string>,
                                                  rating: Option<real>)
    ensures IsSubsequence(RecommendMovies(movies, genre, rating), movies)
  {
    if movies != [] {
      var rest := RecommendMovies(movies[1..], genre, rating);
      RecommendIsSubsequence(movies[1..], genre, rating);
      if Matches(movies[0], genre, rating) {
        assert RecommendMovies(movies, genre, rating) == [movies[0]] + rest;
        assert ([movies[0]] + rest)[1..] == rest;
      } else {
        assert RecommendMovies(movies, genre, rating) == rest;
        SubsequenceOfTail(rest, movies);
      }
    }
  }

  /** One step of the filter: the head's part, then the filtered tail. */
  lemma RecommendUnfold(movies: seq<MovieRecord>, genre: Option<string>, rating: Option<real>)
    requires movies != []
    ensures RecommendMovies(movies, genre, rating)
            == (if Matches(movies[0], genre, rating) then [movies[0]] else [])
               + RecommendMovies(movies[1..], genre, rating)
  {
  }

  /** Counting through one filter step, over plain sequences. */
  lemma CountStep(x: MovieRecord, tail: seq<MovieRecord>, keep: bool, rest: seq<MovieRecord>, m: MovieRecord,
                  matches: bool)
    requires x == m ==> keep == matches
    requires multiset(rest)[m] == if matches then multiset(tail)[m] else 0
    ensures multiset((if keep then [x] else []) + rest)[m] == if matches then multiset([x] + tail)[m] else 0
  {
    var head := if keep then [x] else [];
    assert multiset(head + rest) == multiset(head) + multiset(rest);
    assert multiset([x] + tail) == multiset([x]) + multiset(tail);
  }

  /**
   * Each movie occurs in the recommendations exactly as often as in the store
   * when it matches, and not at all otherwise: every result matches, and no
   * matching movie is dropped.
   */
  lemma {:induction false} RecommendCounts(movies: seq<MovieRecord>, genre: Option<string>,
                                           rating: Option<real>, m: MovieRecord)
    ensures multiset(RecommendMovies(movies, genre, rating))[m]
            == if Matches(m, genre, rating) then multiset(movies)[m] else 0
  {
    if movies != [] {
      var x, tail := movies[0], movies[1..];
      RecommendCounts(tail, genre, rating, m);
      RecommendUnfold(movies, genre, rating);
      CountStep(x, tail, Matches(x, genre, rating), RecommendMovies(tail, genre, rating), m, Matches(m, genre, rating));
      assert movies == [x] + tail;
    }
  }

  /** Every recommended movie satisfies both filters. */
  lemma RecommendSound(movies: seq<MovieRecord>, genre: Option<string>, rating: Option<real>)
    ensures forall m :: m in RecommendMovies(movies, genre, rating) ==>
              && (genre.None? || Lower(m.genre) == Lower(genre.value))
              && (rating.None? || m.rating >= rating.value)
  {
    forall m | m in RecommendMovies(movies, genre, rating)
      ensures Matches(m, genre, rating)
    {
      RecommendCounts(movies, genre, rating, m);
    }
  }

  /** Every matching movie of the store is recommended. */
  lemma RecommendComplete(movies: seq<MovieRecord>, genre: Option<string>, rating: Option<real>)
    ensures forall m :: m in movies && Matches(m, genre, rating) ==> m in RecommendMovies(movies, genre, rating)
  {
    forall m | m in movies && Matches(m, genre, rating)
      ensures m in RecommendMovies(movies, genre, rating)
    {
      RecommendCounts(movies, genre, rating, m);
    }
  }

  /** With neither filter the recommendations are the whole store. */
  lemma {:induction false} RecommendWithoutFilters(movies: seq<MovieRecord>)
    ensures RecommendMovies(movies, None, None) == movies
  {
    if movies != [] {
      RecommendWithoutFilters(movies[1..]);
      assert movies == [movies[0]] + movies[1..];
    }
  }

  /** The genre filter ignores ASCII case on both sides. */
  lemma GenreFilterIgnoresCase(movies: seq<MovieRecord>, genre: string, rating: Option<real>)
    ensures RecommendMovies(movies, Some(Lower(genre)), rating) == RecommendMovies(movies, Some(genre), rating)
  {
    LowerIdempotent(genre);
  }

  /**
   * recommend_movies: filters the store's list and leaves the store as it
   * is (the method has no modifies clause).
   */
  method RecommendRoute(model: MovieModel, genre: Option<string>, rating: Option<real>)
    returns (recommended: seq<MovieRecord>)
    ensures IsSubsequence(recommended, model.movies)
    ensures forall m :: m in recommended ==> Matches(m, genre, rating)
    ensures forall m :: m in model.movies && Matches(m, genre, rating) ==> m in recommended
    ensures forall m :: multiset(recommended)[m] == if Matches(m, genre, rating) then multiset(model.movies)[m] else 0
    ensures recommended == RecommendMovies(model.movies, genre, rating)
    ensures genre.None? && rating.None? ==> recommended == model.movies
  {
    recommended := RecommendMovies(model.GetAllMovies(), genre, rating);
    forall m
      ensures multiset(recommended)[m] == if Matches(m, genre, rating) then multiset(model.movies)[m] else 0
    {
      RecommendCounts(model.movies, genre, rating, m);
    }
    RecommendIsSubsequence(model.movies, genre, rating);
    RecommendSound(model.movies, genre, rating);
    RecommendComplete(model.movies, genre, rating);
    if genre.None? && rating.None? {
      RecommendWithoutFilters(model.movies);
    }
  }
}
