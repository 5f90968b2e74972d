/**
 * Response shaping of the TMDB client (tmdb_api.py, class TMDBClient).
 *
 * The HTTP layer is a parameter: each upstream endpoint is a function from the
 * request to the parsed response (status code and JSON body), and every
 * operation also returns the list of requests it issued, in order, so that
 * "no request is sent" can be stated.
 */
module Tmdb {
  import opened Optional

  /** One key of a JSON object: absent, present with null, or present with a value. */
  datatype Field<T> = Missing | Null | Has(value: T)

  /** A leaf of a shaped record as it appears in the reply. */
  datatype Json = JNull | JStr(str: string) | JNum(num: real)

  /** A movie of a `results` list; `id` is read with `movie['id']` and assumed present. */
  datatype Movie = Movie(id: int, title: Field<string>, voteAverage: Field<real>,
                         releaseDate: Field<string>, posterPath: Field<string>)

  /** An entry of a videos list; `site`, `type` and `key` are read by subscript. */
  datatype Video = Video(site: string, kind: string, key: string)

  /** Status code and parsed body; `results` and `status_message` may be absent. */
  datatype Response<T> = Response(status: int, results: Option<seq<T>>, statusMessage: Option<string>)

  /** The varying parameters of a discover/movie request (api_key and sort_by are fixed). */
  datatype Discover = Discover(genreId: nat, minRating: real,
                               releasedFrom: Option<string>, releasedTo: Option<string>)

  datatype Request = DiscoverRequest(query: Discover) | VideosRequest(movieId: int)

  /** What a client method gives back: a list, an {"error": ...} dict, or an exception it lets escape. */
  datatype Answer<T> = Items(items: seq<T>) | ErrorDict(error: string) | Raises

  /** A record built by get_movies_by_genre_rating_and_years. */
  datatype Shaped = Shaped(title: Json, rating: Json, genre: string, year: string,
                           trailer: Option<string>, poster: Option<string>)

  /** A record built by get_top_rated_movies and get_now_playing. */
  datatype Listing = Listing(title: Json, releaseDate: Json, voteAverage: Json, poster: Option<string>)

  const PosterBase := "https://image.tmdb.org/t/p/w500"
  const EmbedBase := "https://www.youtube.com/embed/"

  // ------------------------------------------------------------------
  // Genre lookup

  const GenreMap: map<string, nat> := map[
    "Action" := 28, "Adventure" := 12, "Comedy" := 35, "Drama" := 18,
    "Fantasy" := 14, "Horror" := 27, "Mystery" := 9648, "Romance" := 10749,
    "Sci-Fi" := 878, "Thriller" := 53]

  /** `genre_map.get(name)`: defined exactly on the ten genre names, never 0. */
  function GenreId(name: string): (id: Option<nat>)
    ensures id.Some? <==> name in {"Action", "Adventure", "Comedy", "Drama", "Fantasy",
                                   "Horror", "Mystery", "Romance", "Sci-Fi", "Thriller"}
    ensures id.Some? ==> id.value != 0
  {
    if name in GenreMap then Some(GenreMap[name]) else None
  }

  /** Python truthiness of the looked-up id (`if not genre_id`). */
  predicate Truthy(id: Option<nat>) {
    id.Some? && id.value != 0
  }

  function InvalidGenre(name: string): string {
    "Invalid genre '" + name + "'"
  }

  /** `response.json().get('results', [])` */
  function ResultsOf<T>(response: Response<T>): seq<T> {
    response.results.GetOr([])
  }

  /** `response.json().get('status_message', 'Unknown error')` */
  function StatusText<T>(response: Response<T>): string {
    response.statusMessage.GetOr("Unknown error")
  }

  // ------------------------------------------------------------------
  // Field shaping

  /** `movie.get(key, default)` for a text field. */
  function GetText(field: Field<string>, default: string): Json {
    match field
    case Missing => JStr(default)
    case Null => JNull
    case Has(s) => JStr(s)
  }

  /** `movie.get(key, default)` for a numeric field. */
  function GetNumber(field: Field<real>, default: string): Json {
    match field
    case Missing => JStr(default)
    case Null => JNull
    case Has(x) => JNum(x)
  }

  /**
   * The poster URL: the CDN prefix followed by the path when `poster_path` is
   * truthy, otherwise None; never the bare prefix.
   */
  function PosterUrl(path: Field<string>): (url: Option<string>)
    ensures url.Some? <==> path.Has? && path.value != ""
    ensures url.Some? ==> url.value == PosterBase + path.value
    ensures url != Some(PosterBase)
  {
    if path.Has? && path.value != "" then Some(PosterBase + path.value) else None
  }

  /** `s.split("-")[0]`: the longest prefix of `s` that holds no dash. */
  function BeforeFirstDash(s: string): (r: string)
    ensures r <= s
    ensures '-' !in r
    ensures r == s || s[|r|] == '-'
  {
    if s == [] || s[0] == '-' then [] else [s[0]] + BeforeFirstDash(s[1..])
  }

  /** Splitting a string without a dash gives the string itself. */
  lemma NoDashKept(s: string)
    requires '-' !in s
    ensures BeforeFirstDash(s) == s
  {
  }

  /**
   * `movie.get("release_date", "Unknown").split("-")[0]`; None when the field
   * is null, where Python raises AttributeError.
   */
  function YearOf(date: Field<string>): (year: Option<string>)
    ensures year.None? <==> date.Null?
    ensures date.Missing? ==> year == Some("Unknown")
    ensures date.Has? ==> year == Some(BeforeFirstDash(date.value))
    ensures date.Has? ==> year.value <= date.value && '-' !in year.value
    ensures date.Has? && '-' !in date.value ==> year == Some(date.value)
  {
    match date
    case Missing =>
      NoDashKept("Unknown");
      Some(BeforeFirstDash("Unknown"))
    case Null => None
    case Has(d) =>
      if '-' !in d then
        NoDashKept(d);
        Some(BeforeFirstDash(d))
      else Some(BeforeFirstDash(d))
  }

  /** One record of get_movies_by_genre_rating_and_years (None: the record raises). */
  function ShapeMovie(genre: string, movie: Movie, trailer: Option<string>): (r: Option<Shaped>)
    ensures r.None? <==> movie.releaseDate.Null?
    ensures r.Some? ==> r.value.genre == genre && r.value.trailer == trailer && '-' !in r.value.year
  {
    match YearOf(movie.releaseDate)
    case None => None
    case Some(year) =>
      Some(Shaped(GetText(movie.title, "Unknown Title"), GetNumber(movie.voteAverage, "N/A"),
                  genre, year, trailer, PosterUrl(movie.posterPath)))
  }

  /** What every shaped record carries, field by field. */
  lemma ShapedRecordFields(genre: string, movie: Movie, trailer: Option<string>)
    ensures ShapeMovie(genre, movie, trailer).None? <==> movie.releaseDate.Null?
    ensures ShapeMovie(genre, movie, trailer).Some? ==>
      var r := ShapeMovie(genre, movie, trailer).value;
      && r.genre == genre
      && r.trailer == trailer
      && r.poster == PosterUrl(movie.posterPath)
      && (movie.releaseDate.Missing? ==> r.year == "Unknown")
      && (movie.releaseDate.Has? ==> r.year == BeforeFirstDash(movie.releaseDate.value))
      && (movie.title.Missing? ==> r.title == JStr("Unknown Title"))
      && (movie.title.Null? ==> r.title == JNull)
      && (movie.title.Has? ==> r.title == JStr(movie.title.value))
      && (movie.voteAverage.Missing? ==> r.rating == JStr("N/A"))
      && (movie.voteAverage.Null? ==> r.rating == JNull)
      && (movie.voteAverage.Has? ==> r.rating == JNum(movie.voteAverage.value))
  {
  }

  // ------------------------------------------------------------------
  // Release-date bounds

  function DigitChar(d: nat): (c: char)
    requires d < 10
    ensures '0' <= c <= '9'
  {
    ('0' as int + d) as char
  }

  /** `str(n)` for a non-negative integer: decimal digits, no leading zero. */
  function NatToString(n: nat): (s: string)
    ensures |s| > 0
    ensures forall i :: 0 <= i < |s| ==> '0' <= s[i] <= '9'
    ensures n >= 10 ==> s[0] != '0'
  {
    if n < 10 then [DigitChar(n)] else NatToString(n / 10) + [DigitChar(n % 10)]
  }

  /** `str(i)` for any integer. */
  function IntToString(i: int): string {
    if i < 0 then "-" + NatToString(-i) else NatToString(i)
  }

  predicate AllDigits(s: string) {
    forall i :: 0 <= i < |s| ==> '0' <= s[i] <= '9'
  }

  /** The number a string of decimal digits denotes. */
  function DigitsValue(s: string): nat
    requires AllDigits(s)
  {
    if s == [] then 0 else DigitsValue(s[..|s| - 1]) * 10 + (s[|s| - 1] as int - '0' as int)
  }

  /** Reading the digits back gives the number that was printed. */
  lemma {:induction false} NatToStringRoundTrip(n: nat)
    ensures DigitsValue(NatToString(n)) == n
  {
    var s := NatToString(n);
    if n >= 10 {
      NatToStringRoundTrip(n / 10);
      assert s[..|s| - 1] == NatToString(n / 10);
    }
  }

  /** `f"{start_year}-01-01"` */
  function ReleasedFrom(startYear: int): (date: string)
    ensures |date| == |IntToString(startYear)| + 6
    ensures date[|IntToString(startYear)|..] == "-01-01"
    ensures startYear >= 0 ==> BeforeFirstDash(date) == NatToString(startYear)
  {
    Dated(startYear, "-01-01")
  }

  /** `f"{end_year}-12-31"` */
  function ReleasedTo(endYear: int): (date: string)
    ensures |date| == |IntToString(endYear)| + 6
    ensures date[|IntToString(endYear)|..] == "-12-31"
    ensures endYear >= 0 ==> BeforeFirstDash(date) == NatToString(endYear)
  {
    Dated(endYear, "-12-31")
  }

  /** A year followed by a month-day suffix; its year part splits back off. */
  function Dated(year: int, monthDay: string): (date: string)
    requires monthDay != [] && monthDay[0] == '-'
    ensures date == IntToString(year) + monthDay
    ensures date[|IntToString(year)|..] == monthDay
    ensures year >= 0 ==> BeforeFirstDash(date) == NatToString(year)
  {
    var date := IntToString(year) + monthDay;
    assert date[|IntToString(year)|..] == monthDay;
    if year >= 0 then
      BeforeFirstDashAppend(NatToString(year), monthDay);
      date
    else date
  }

  lemma {:induction false} BeforeFirstDashAppend(s: string, t: string)
    requires '-' !in s
    requires t != [] && t[0] == '-'
    ensures BeforeFirstDash(s + t) == s
  {
    if s != [] {
      assert (s + t)[0] == s[0];
      assert (s + t)[1..] == s[1..] + t;
      BeforeFirstDashAppend(s[1..], t);
    }
  }

  /**
   * The bounds are the year, a dash and a fixed month-day; a movie released on
   * either bound reports the requested year back (for years >= 0).
   */
  lemma YearOfReleaseBounds(startYear: nat, endYear: nat)
    ensures ReleasedFrom(startYear)[|NatToString(startYear)|..] == "-01-01"
    ensures ReleasedTo(endYear)[|NatToString(endYear)|..] == "-12-31"
    ensures YearOf(Field.Has(ReleasedFrom(startYear))) == Some(NatToString(startYear))
    ensures YearOf(Field.Has(ReleasedTo(endYear))) == Some(NatToString(endYear))
  {
    BeforeFirstDashAppend(NatToString(startYear), "-01-01");
    BeforeFirstDashAppend(NatToString(endYear), "-12-31");
  }

  /** The query sent for a genre, rating and year range. */
  function YearsQuery(genreId: nat, rating: real, startYear: int, endYear: int): Discover {
    Discover(genreId, rating, Some(ReleasedFrom(startYear)), Some(ReleasedTo(endYear)))
  }

  // ------------------------------------------------------------------
  // Trailer selection

  predicate IsTrailer(video: Video) {
    video.site == "YouTube" && video.kind == "Trailer"
  }

  /** The embed URL of the first YouTube trailer of the list. */
  function FirstTrailer(videos: seq<Video>): (trailer: Option<string>)
    ensures trailer.None? <==> forall j :: 0 <= j < |videos| ==> !IsTrailer(videos[j])
    ensures trailer.Some? ==>
      exists j :: 0 <= j < |videos| && IsTrailer(videos[j]) && trailer.value == EmbedBase + videos[j].key
  {
    if videos == [] then None
    else if IsTrailer(videos[0]) then Some(EmbedBase + videos[0].key)
    else FirstTrailer(videos[1..])
  }

  /** The trailer get_movie_trailer reports for a videos response. */
  function TrailerOf(response: Response<Video>): (trailer: Option<string>)
    ensures response.status != 200 ==> trailer.None?
    ensures response.status == 200 ==>
      (trailer.None? <==> forall j :: 0 <= j < |ResultsOf(response)| ==> !IsTrailer(ResultsOf(response)[j]))
    ensures trailer.Some? ==>
      exists j :: 0 <= j < |ResultsOf(response)| && IsTrailer(ResultsOf(response)[j])
                  && trailer.value == EmbedBase + ResultsOf(response)[j].key
  {
    if response.status == 200 then FirstTrailer(ResultsOf(response)) else None
  }

  /** The chosen trailer is the one of the first matching video. */
  lemma {:induction false} FirstTrailerIsFirstMatch(videos: seq<Video>, i: nat)
    requires i < |videos| && IsTrailer(videos[i])
    requires forall j :: 0 <= j < i ==> !IsTrailer(videos[j])
    ensures FirstTrailer(videos) == Some(EmbedBase + videos[i].key)
  {
    if i > 0 {
      assert !IsTrailer(videos[0]);
      FirstTrailerIsFirstMatch(videos[1..], i - 1);
    }
  }

  /** Without a matching video there is no trailer. */
  lemma {:induction false} NoMatchNoTrailer(videos: seq<Video>)
    requires forall j :: 0 <= j < |videos| ==> !IsTrailer(videos[j])
    ensures FirstTrailer(videos) == None
  {
    if videos != [] {
      NoMatchNoTrailer(videos[1..]);
    }
  }

  /** get_movie_trailer: one videos request, then the first YouTube trailer when the status is 200. */
  method GetMovieTrailer(movieId: int, videos: int -> Response<Video>)
    returns (trailer: Option<string>, issued: seq<Request>)
    ensures issued == [VideosRequest(movieId)]
    ensures trailer == TrailerOf(videos(movieId))
  {
    issued := [VideosRequest(movieId)];
    var response := videos(movieId);
    if response.status == 200 {
      var results := ResultsOf(response);
      var i := 0;
      while i < |results|
        invariant 0 <= i <= |results|
        invariant FirstTrailer(results[i..]) == FirstTrailer(results)
      {
        var video := results[i];
        assert results[i..][1..] == results[i + 1..];
        if video.site == "YouTube" && video.kind == "Trailer" {
          return Some(EmbedBase + video.key), issued;
        }
        i := i + 1;
      }
    }
    return None, issued;
  }

  // ------------------------------------------------------------------
  // Discovery by genre, rating and years

  /** Index of the first movie whose release_date is null, or |movies|. */
  function FirstNullDate(movies: seq<Movie>): (n: nat)
    ensures n <= |movies|
    ensures forall j :: 0 <= j < n ==> !movies[j].releaseDate.Null?
    ensures n < |movies| ==> movies[n].releaseDate.Null?
  {
    if movies == [] then 0
    else if movies[0].releaseDate.Null? then 0
    else 1 + FirstNullDate(movies[1..])
  }

  /** One videos request per movie, in order. */
  function TrailerRequests(movies: seq<Movie>): (rs: seq<Request>)
    ensures |rs| == |movies|
    ensures forall j :: 0 <= j < |movies| ==> rs[j] == VideosRequest(movies[j].id)
  {
    seq(|movies|, j requires 0 <= j < |movies| => VideosRequest(movies[j].id))
  }

  /** One more movie adds its own trailer request at the end. */
  lemma TrailerRequestsSnoc(movies: seq<Movie>, i: nat)
    requires i < |movies|
    ensures TrailerRequests(movies[..i + 1]) == TrailerRequests(movies[..i]) + [VideosRequest(movies[i].id)]
  {
  }

  /** `items` holds one shaped record per movie, in order, with that movie's trailer. */
  predicate ShapesAll(genre: string, movies: seq<Movie>, videos: int -> Response<Video>, items: seq<Shaped>) {
    && |items| == |movies|
    && forall j :: 0 <= j < |movies| ==>
         Some(items[j]) == ShapeMovie(genre, movies[j], TrailerOf(videos(movies[j].id)))
  }

  lemma ShapesAllSnoc(genre: string, movies: seq<Movie>, movie: Movie, videos: int -> Response<Video>,
                      items: seq<Shaped>, item: Shaped)
    requires ShapesAll(genre, movies, videos, items)
    requires Some(item) == ShapeMovie(genre, movie, TrailerOf(videos(movie.id)))
    ensures ShapesAll(genre, movies + [movie], videos, items + [item])
  {
  }

  /**
   * Every record of a complete shaping carries the requested genre, the year
   * part of its movie's release_date (or "Unknown"), and its movie's trailer.
   */
  lemma ShapedListFields(genre: string, movies: seq<Movie>, videos: int -> Response<Video>, items: seq<Shaped>)
    requires ShapesAll(genre, movies, videos, items)
    ensures forall j :: 0 <= j < |items| ==> items[j].genre == genre
    ensures forall j :: 0 <= j < |items| ==> items[j].trailer == TrailerOf(videos(movies[j].id))
    ensures forall j :: 0 <= j < |items| ==>
              (movies[j].releaseDate.Missing? && items[j].year == "Unknown")
              || (movies[j].releaseDate.Has? && items[j].year == BeforeFirstDash(movies[j].releaseDate.value))
  {
    forall j | 0 <= j < |items|
      ensures items[j].genre == genre
      ensures items[j].trailer == TrailerOf(videos(movies[j].id))
      ensures (movies[j].releaseDate.Missing? && items[j].year == "Unknown")
              || (movies[j].releaseDate.Has? && items[j].year == BeforeFirstDash(movies[j].releaseDate.value))
    {
      ShapedRecordFields(genre, movies[j], TrailerOf(videos(movies[j].id)));
    }
  }

  /** The trailer requests issued for `movies` before the loop stops (at a null release_date). */
  function ShapingRequests(movies: seq<Movie>): seq<Request> {
    var n := FirstNullDate(movies);
    TrailerRequests(movies[..if n < |movies| then n + 1 else n])
  }

  /**
   * The loop of get_movies_by_genre_rating_and_years over the discover
   * results: per movie, its trailer request and then its record, in order; a
   * null release_date raises after that movie's trailer request.
   */
  method ShapeResults(genre: string, results: seq<Movie>, videos: int -> Response<Video>)
    returns (answer: Answer<Shaped>, issued: seq<Request>)
    ensures issued == ShapingRequests(results)
    ensures answer.Raises? <==> FirstNullDate(results) < |results|
    ensures answer.Items? <==> FirstNullDate(results) == |results|
    ensures answer.Items? ==> ShapesAll(genre, results, videos, answer.items)
  {
    issued := [];
    var movies: seq<Shaped> := [];
    var i := 0;
    while i < |results|
      invariant 0 <= i <= |results|
      invariant i <= FirstNullDate(results)
      invariant issued == TrailerRequests(results[..i])
      invariant ShapesAll(genre, results[..i], videos, movies)
    {
      var movie := results[i];
      var trailer, asked := GetMovieTrailer(movie.id, videos);
      TrailerRequestsSnoc(results, i);
      issued := issued + asked;
      var poster := PosterUrl(movie.posterPath);
      var year := YearOf(movie.releaseDate);
      if year.None? {
        assert FirstNullDate(results) == i;
        return Raises, issued;
      }
      var shaped := Shaped(GetText(movie.title, "Unknown Title"), GetNumber(movie.voteAverage, "N/A"),
                           genre, year.value, trailer, poster);
      ShapesAllSnoc(genre, results[..i], movie, videos, movies, shaped);
      assert results[..i] + [movie] == results[..i + 1];
      movies := movies + [shaped];
      i := i + 1;
    }
    assert results[..i] == results;
    return Items(movies), issued;
  }

  /**
   * get_movies_by_genre_rating_and_years. An unknown genre is answered with
   * an error and no request; a non-200 discover response with an error after
   * that one request; otherwise the discover request is followed by the
   * shaping loop over its results.
   */
  method GetMoviesByGenreRatingAndYears(genre: string, rating: real, startYear: int, endYear: int,
                                        discover: Discover -> Response<Movie>,
                                        videos: int -> Response<Video>)
    returns (answer: Answer<Shaped>, issued: seq<Request>)
    ensures !Truthy(GenreId(genre)) ==> answer == ErrorDict(InvalidGenre(genre)) && issued == []
    ensures Truthy(GenreId(genre)) ==>
      var query := YearsQuery(GenreId(genre).value, rating, startYear, endYear);
      var response := discover(query);
      var movies := ResultsOf(response);
      && (response.status != 200 ==>
            answer == ErrorDict("Failed to fetch movies: " + StatusText(response))
            && issued == [DiscoverRequest(query)])
      && (response.status == 200 ==>
            && issued == [DiscoverRequest(query)] + ShapingRequests(movies)
            && (answer.Raises? <==> FirstNullDate(movies) < |movies|)
            && (answer.Items? <==> FirstNullDate(movies) == |movies|)
            && (answer.Items? ==> ShapesAll(genre, movies, videos, answer.items)))
  {
    var genreId := GenreId(genre);
    if !Truthy(genreId) {
      return ErrorDict(InvalidGenre(genre)), [];
    }
    var query := YearsQuery(genreId.value, rating, startYear, endYear);
    var response := discover(query);
    if response.status != 200 {
      return ErrorDict("Failed to fetch movies: " + StatusText(response)), [DiscoverRequest(query)];
    }
    var shapingRequests;
    answer, shapingRequests := ShapeResults(genre, ResultsOf(response), videos);
    issued := [DiscoverRequest(query)] + shapingRequests;
  }

  /**
   * get_movies_by_genre_and_rating: an unknown genre gives an error and no
   * request; otherwise one discover request, whose results are passed through.
   */
  function MoviesByGenreAndRating(genre: string, minRating: real, discover: Discover -> Response<Movie>)
    : (out: (Answer<Movie>, seq<Request>))
    ensures !Truthy(GenreId(genre)) ==> out == (ErrorDict(InvalidGenre(genre)), [])
    ensures Truthy(GenreId(genre)) ==>
      var query := Discover(GenreId(genre).value, minRating, None, None);
      && out.1 == [DiscoverRequest(query)]
      && (out.0.Items? <==> discover(query).status == 200)
      && (out.0.Items? ==> out.0.items == ResultsOf(discover(query)))
      && (!out.0.Items? ==> out.0 == ErrorDict("Failed to fetch movies: " + StatusText(discover(query))))
  {
    var genreId := GenreId(genre);
    if !Truthy(genreId) then (ErrorDict(InvalidGenre(genre)), [])
    else
      var query := Discover(genreId.value, minRating, None, None);
      var response := discover(query);
      if response.status == 200 then (Items(ResultsOf(response)), [DiscoverRequest(query)])
      else (ErrorDict("Failed to fetch movies: " + StatusText(response)), [DiscoverRequest(query)])
  }

  // ------------------------------------------------------------------
  // Top-rated and now-playing lists

  function ListMovie(movie: Movie): (listing: Listing)
    ensures listing.poster.Some? <==> movie.posterPath.Has? && movie.posterPath.value != ""
    ensures listing.title.JNull? <==> movie.title.Null?
    ensures listing.releaseDate.JNull? <==> movie.releaseDate.Null?
    ensures movie.title.Has? ==> listing.title == JStr(movie.title.value)
    ensures movie.releaseDate.Has? ==> listing.releaseDate == JStr(movie.releaseDate.value)
    ensures movie.voteAverage.Null? ==> listing.voteAverage == JNull
  {
    Listing(GetText(movie.title, "Unknown Title"), GetText(movie.releaseDate, "Unknown"),
            GetNumber(movie.voteAverage, "N/A"), PosterUrl(movie.posterPath))
  }

  /** The list comprehension: one listing per movie, same length and order. */
  function ListAll(movies: seq<Movie>): (listings: seq<Listing>)
    ensures |listings| == |movies|
    ensures forall j :: 0 <= j < |movies| ==> listings[j] == ListMovie(movies[j])
  {
    if movies == [] then [] else [ListMovie(movies[0])] + ListAll(movies[1..])
  }

  function Listed(response: Response<Movie>, failure: string): (a: Answer<Listing>)
    ensures a.Items? <==> response.status == 200
    ensures a.Items? ==> |a.items| == |ResultsOf(response)|
    ensures a.Items? ==> forall j :: 0 <= j < |a.items| ==>
              a.items[j] == ListMovie(ResultsOf(response)[j])
    ensures !a.Items? ==> a == ErrorDict(failure + StatusText(response))
  {
    if response.status == 200 then Items(ListAll(ResultsOf(response)))
    else ErrorDict(failure + StatusText(response))
  }

  /** get_top_rated_movies, given the top_rated response. */
  function TopRatedMovies(response: Response<Movie>): (a: Answer<Listing>)
    ensures a.Items? <==> response.status == 200
    ensures a.Items? ==> |a.items| == |ResultsOf(response)|
    ensures a.Items? ==> forall j :: 0 <= j < |a.items| ==>
              a.items[j] == ListMovie(ResultsOf(response)[j])
    ensures !a.Items? ==> a == ErrorDict("Failed to fetch top-rated movies: " + StatusText(response))
  {
    Listed(response, "Failed to fetch top-rated movies: ")
  }

  /** get_now_playing, given the now_playing response. */
  function NowPlaying(response: Response<Movie>): (a: Answer<Listing>)
    ensures a.Items? <==> response.status == 200
    ensures a.Items? ==> |a.items| == |ResultsOf(response)|
    ensures a.Items? ==> forall j :: 0 <= j < |a.items| ==>
              a.items[j] == ListMovie(ResultsOf(response)[j])
    ensures !a.Items? ==> a == ErrorDict("Failed to fetch now-playing movies: " + StatusText(response))
  {
    Listed(response, "Failed to fetch now-playing movies: ")
  }

  /** Listing fields: defaults for missing keys and the poster rule. */
  lemma ListingFields(movie: Movie)
    ensures ListMovie(movie).poster == PosterUrl(movie.posterPath)
    ensures movie.title.Missing? ==> ListMovie(movie).title == JStr("Unknown Title")
    ensures movie.releaseDate.Missing? ==> ListMovie(movie).releaseDate == JStr("Unknown")
    ensures movie.voteAverage.Missing? ==> ListMovie(movie).voteAverage == JStr("N/A")
    ensures movie.voteAverage.Null? ==> ListMovie(movie).voteAverage == JNull
    ensures movie.voteAverage.Has? ==> ListMovie(movie).voteAverage == JNum(movie.voteAverage.value)
  {
  }
}
