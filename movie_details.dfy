/**
 * The movie details page (src/pages/MovieDetails.jsx): a movie is looked up in a small
 * built-in database by the numeric route parameter, and up to three other movies of the
 * database are recommended beside it.
 */
module MovieDetails {
  import opened Wrappers
  import opened JsStrings

  datatype Movie = Movie(
    id: int, title: string, rating: string, language: string, genre: string, format: string,
    image: string, banner: string, duration: string, year: string, director: string,
    cast: string, plot: string, trailer: string)

  const Inception := Movie(1, "Inception", "8.8", "English", "Sci-Fi", "IMAX",
    "https://via.placeholder.com/800x450/2a2a3c/ffffff?text=Inception",
    "https://via.placeholder.com/1920x500/1a1a2e/ffffff?text=Inception+Banner",
    "2h 28m", "2010", "Christopher Nolan",
    "Leonardo DiCaprio, Joseph Gordon-Levitt, Elliot Page",
    "A thief who steals corporate secrets through the use of dream-sharing technology is given the inverse task of planting an idea into the mind of a C.E.O.",
    "https://www.youtube.com/embed/YoHD9XEInc0")

  const Parasite := Movie(2, "Parasite", "8.6", "Korean", "Thriller", "2D",
    "https://via.placeholder.com/800x450/2a2a3c/ffffff?text=Parasite",
    "https://via.placeholder.com/1920x500/1a1a2e/ffffff?text=Parasite+Banner",
    "2h 12m", "2019", "Bong Joon Ho",
    "Song Kang-ho, Lee Sun-kyun, Cho Yeo-jeong",
    "Greed and class discrimination threaten the newly formed symbiotic relationship between the wealthy Park family and the destitute Kim clan.",
    "https://www.youtube.com/embed/5xH0HfJHsaY")

  /** The database as (key, movie) entries, in ascending key order as `Object.values` visits them. */
  const MovieDatabase: seq<(int, Movie)> := [(1, Inception), (2, Parasite)]

  /** Integer keys strictly ascending: the order `Object.values` lists such keys in. */
  predicate KeysAscending(db: seq<(int, Movie)>) {
    forall i, j :: 0 <= i < j < |db| ==> db[i].0 < db[j].0
  }

  /** `Object.values(db)`. */
  function Values(db: seq<(int, Movie)>): (ms: seq<Movie>)
    ensures |ms| == |db|
  {
    seq(|db|, i requires 0 <= i < |db| => db[i].1)
  }

  /** `movies.filter(movie => movie.id !== id)`. */
  function Others(ms: seq<Movie>, id: int): seq<Movie>
    decreases |ms|
  {
    if ms == [] then [] else (if ms[0].id != id then [ms[0]] else []) + Others(ms[1..], id)
  }

  /** `getRecommendations(currentMovieId)`. */
  function GetRecommendations(db: seq<(int, Movie)>, currentMovieId: int): seq<Movie> {
    Take(Others(Values(db), currentMovieId), 3)
  }

  lemma {:induction false} OthersSpec(ms: seq<Movie>, id: int)
    ensures forall m :: m in Others(ms, id) <==> m in ms && m.id != id
    ensures IsSubsequence(Others(ms, id), ms)
    decreases |ms|
  {
    if ms != [] {
      OthersSpec(ms[1..], id);
      assert ms == [ms[0]] + ms[1..];
      var rest := Others(ms[1..], id);
      if ms[0].id != id {
        assert Others(ms, id) == [ms[0]] + rest;
        assert Others(ms, id)[1..] == rest;
      } else {
        assert Others(ms, id) == rest;
        SubsequenceCons(rest, ms[0], ms[1..]);
      }
    }
  }

  /** With distinct ids, dropping an id that occurs removes exactly one movie. */
  lemma {:induction false} OthersCount(ms: seq<Movie>, id: int)
    requires forall i, j :: 0 <= i < j < |ms| ==> ms[i].id != ms[j].id
    ensures |Others(ms, id)| == |ms| - (if exists i :: 0 <= i < |ms| && ms[i].id == id then 1 else 0)
    decreases |ms|
  {
    if ms != [] {
      OthersCount(ms[1..], id);
      if ms[0].id == id {
        assert !exists i :: 0 <= i < |ms[1..]| && ms[1..][i].id == id by {
          forall i | 0 <= i < |ms[1..]| ensures ms[1..][i].id != id {
            assert ms[1..][i] == ms[i + 1];
          }
        }
      } else {
        if exists i :: 0 <= i < |ms| && ms[i].id == id {
          var i :| 0 <= i < |ms| && ms[i].id == id;
          assert ms[1..][i - 1] == ms[i];
        }
        if exists i :: 0 <= i < |ms[1..]| && ms[1..][i].id == id {
          var i :| 0 <= i < |ms[1..]| && ms[1..][i].id == id;
          assert ms[i + 1] == ms[1..][i];
        }
      }
    }
  }

  /**
   * The recommendations never include the current movie, are at most three, keep database
   * order, and are as many as three or the number of other movies allows.
   */
  lemma RecommendationsRules(db: seq<(int, Movie)>, currentMovieId: int)
    ensures var r := GetRecommendations(db, currentMovieId);
      && (forall m :: m in r ==> m.id != currentMovieId && m in Values(db))
      && |r| <= 3
      && IsSubsequence(r, Values(db))
      && |r| == Min(3, |Others(Values(db), currentMovieId)|)
  {
    var others := Others(Values(db), currentMovieId);
    OthersSpec(Values(db), currentMovieId);
    var r := Take(others, 3);
    PrefixIsSubsequence(r, others);
    SubsequenceTransitive(r, others, Values(db));
  }

  /** With distinct movie ids and the current movie in the database, min(3, size - 1) are shown. */
  lemma RecommendationCount(db: seq<(int, Movie)>, k: nat)
    requires k < |db|
    requires forall i, j :: 0 <= i < j < |db| ==> db[i].1.id != db[j].1.id
    ensures |GetRecommendations(db, db[k].1.id)| == Min(3, |db| - 1)
  {
    var ms := Values(db);
    assert ms[k].id == db[k].1.id;
    OthersCount(ms, db[k].1.id);
  }

  lemma {:induction false} PrefixIsSubsequence<T>(p: seq<T>, xs: seq<T>)
    requires p <= xs
    ensures IsSubsequence(p, xs)
    decreases |xs|
  {
    if p != [] {
      assert p[0] == xs[0];
      PrefixIsSubsequence(p[1..], xs[1..]);
    }
  }

  lemma {:induction false} SubsequenceTransitive<T>(a: seq<T>, b: seq<T>, c: seq<T>)
    requires IsSubsequence(a, b) && IsSubsequence(b, c)
    ensures IsSubsequence(a, c)
    decreases |c|
  {
    if a != [] && c != [] {
      if b[0] == c[0] {
        if a[0] == b[0] {
          SubsequenceTransitive(a[1..], b[1..], c[1..]);
        } else {
          SubsequenceTransitive(a, b[1..], c[1..]);
        }
      } else {
        SubsequenceTransitive(a, b, c[1..]);
        if a[0] == c[0] {
          SubsequenceDropHead(a, c[1..]);
        }
      }
    }
  }

  /** `db[key]` for a number key; `NaN` finds nothing. */
  function LookupKey(db: seq<(int, Movie)>, key: Option<int>): (r: Option<Movie>)
    decreases |db|
    ensures r.Some? ==> exists i :: 0 <= i < |db| && key == Some(db[i].0) && r.value == db[i].1
    ensures r.None? ==> forall i :: 0 <= i < |db| ==> key != Some(db[i].0)
  {
    if db == [] then None
    else if key == Some(db[0].0) then Some(db[0].1)
    else
      var r := LookupKey(db[1..], key);
      assert forall i :: 1 <= i < |db| ==> db[1..][i - 1] == db[i];
      r
  }

  /** What the page shows. */
  datatype Page =
    | Loading                                         // 'Loading...'
    | Loaded(movie: Movie, recommendations: seq<Movie>)

  /** The page for the route parameter `id`: `db[parseInt(id)]` and its recommendations. */
  function DetailsPage(db: seq<(int, Movie)>, id: string): Page {
    match LookupKey(db, ParseInt(id, 0))
    case None => Loading
    case Some(m) => Loaded(m, GetRecommendations(db, m.id))
  }

  /** An id naming no key leaves the page loading, with no recommendations computed. */
  lemma UnknownIdKeepsLoading(db: seq<(int, Movie)>, id: string)
    requires forall i :: 0 <= i < |db| ==> ParseInt(id, 0) != Some(db[i].0)
    ensures DetailsPage(db, id) == Loading
  {
  }

  /** A known key shows its movie beside the recommendations for that movie's id. */
  lemma KnownKeyLoads(db: seq<(int, Movie)>, key: nat, k: nat)
    requires k < |db| && db[k].0 == key
    requires forall i :: 0 <= i < k ==> db[i].0 != key
    ensures DetailsPage(db, NatToString(key)) == Loaded(db[k].1, GetRecommendations(db, db[k].1.id))
  {
    ParseIntNatToString(key, 0);
    FirstKeyFound(db, key, k);
  }

  lemma {:induction false} FirstKeyFound(db: seq<(int, Movie)>, key: int, k: nat)
    requires k < |db| && db[k].0 == key
    requires forall i :: 0 <= i < k ==> db[i].0 != key
    ensures LookupKey(db, Some(key)) == Some(db[k].1)
    decreases k
  {
    if k > 0 {
      FirstKeyFound(db[1..], key, k - 1);
    }
  }

  /** The built-in database: keys ascend, and each movie is recommended on the other's page. */
  lemma BuiltInDatabase()
    ensures KeysAscending(MovieDatabase)
    ensures GetRecommendations(MovieDatabase, 1) == [Parasite]
    ensures GetRecommendations(MovieDatabase, 2) == [Inception]
  {
    assert Values(MovieDatabase) == [Inception, Parasite];
    assert Others([Parasite], 1) == [Parasite] + Others([], 1);
    assert Others([Inception, Parasite], 1) == [] + Others([Parasite], 1);
    assert Others([Parasite], 2) == [] + Others([], 2);
    assert Others([Inception, Parasite], 2) == [Inception] + Others([Parasite], 2);
  }
}
