/**
 * The chat assistant's request pipeline: a free-text message becomes an intent (city,
 * genre, language, date bucket, title), then four sources are tried in a fixed order —
 * an exact title in the local catalog, TMDb discovery (with a local fallback when the call
 * throws), TMDb title search (with a local fallback when the call throws), and finally the
 * generative model — and the first that produces an answer decides the response.
 *
 * The external services are not called: a `Sources` value gives, for every request the
 * pipeline could send, what that service does (throws or returns a value). A response that
 * does not depend on a service is one for which the service is not consulted.
 */
module AgentChat {
  import opened Wrappers
  import opened JsStrings

  // =======================================================================================
  // Intent extraction

  /** The genre vocabulary with TMDb genre ids, in declaration order. */
  const GenreMap: seq<(string, int)> := [
    ("action", 28), ("adventure", 12), ("animation", 16), ("comedy", 35), ("crime", 80),
    ("documentary", 99), ("drama", 18), ("family", 10751), ("fantasy", 14), ("history", 36),
    ("horror", 27), ("music", 10402), ("mystery", 9648), ("romance", 10749),
    ("science fiction", 878), ("sci-fi", 878), ("thriller", 53), ("war", 10752), ("western", 37)
  ]

  datatype Intent = Intent(
    city: Option<string>,
    genre: Option<string>,
    language: Option<string>,
    date: Option<string>,
    title: Option<string>)

  /** The index in `GenreMap` of the first key, from index `k` on, that occurs in `lower`. */
  function GenreIndexFrom(lower: string, k: nat): (r: Option<nat>)
    requires k <= |GenreMap|
    decreases |GenreMap| - k
    ensures r.Some? ==> k <= r.value < |GenreMap| && Contains(lower, GenreMap[r.value].0)
    ensures r.Some? ==> forall j :: k <= j < r.value ==> !Contains(lower, GenreMap[j].0)
    ensures r.None? ==> forall j :: k <= j < |GenreMap| ==> !Contains(lower, GenreMap[j].0)
  {
    if k == |GenreMap| then None
    else if Contains(lower, GenreMap[k].0) then Some(k)
    else GenreIndexFrom(lower, k + 1)
  }

  function GenreOf(lower: string): Option<string> {
    match GenreIndexFrom(lower, 0)
    case None => None
    case Some(k) => Some(GenreMap[k].0)
  }

  /** `GENRE_MAP[genre]`, searching the table from index `k`. */
  function GenreIdFrom(genre: string, k: nat): (r: Option<int>)
    requires k <= |GenreMap|
    decreases |GenreMap| - k
    ensures r.Some? <==> exists j :: k <= j < |GenreMap| && GenreMap[j].0 == genre
    ensures forall j :: k <= j < |GenreMap| && GenreMap[j].0 == genre ==> r == Some(GenreMap[j].1)
  {
    if k == |GenreMap| then None
    else if GenreMap[k].0 == genre then Some(GenreMap[k].1)
    else GenreIdFrom(genre, k + 1)
  }

  function GenreId(genre: string): Option<int> {
    GenreIdFrom(genre, 0)
  }

  /** ISO 639-1 code of the first language named, in the order Hindi, English, French. */
  function LanguageOf(lower: string): Option<string> {
    if Contains(lower, "hindi") then Some("hi")
    else if Contains(lower, "english") then Some("en")
    else if Contains(lower, "french") then Some("fr")
    else None
  }

  /** The first date bucket named, in the order today, tonight, weekend. */
  function DateOf(lower: string): Option<string> {
    if Contains(lower, "today") then Some("today")
    else if Contains(lower, "tonight") then Some("tonight")
    else if Contains(lower, "weekend") then Some("weekend")
    else None
  }

  /** The two character classes of the capturing regular expressions. */
  datatype CharClass =
    | CityChars   // [a-zA-Z ]
    | TitleChars  // [a-zA-Z0-9: ]

  predicate InClass(c: char, k: CharClass) {
    ('a' <= c <= 'z') || ('A' <= c <= 'Z') || c == ' ' ||
    (k == TitleChars && (('0' <= c <= '9') || c == ':'))
  }

  /** The end of the longest run of class characters starting at `i` (greedy `+`). */
  function RunEnd(s: string, i: nat, k: CharClass): (e: nat)
    requires i <= |s|
    decreases |s| - i
    ensures i <= e <= |s|
    ensures forall j :: i <= j < e ==> InClass(s[j], k)
    ensures e < |s| ==> !InClass(s[e], k)
  {
    if i < |s| && InClass(s[i], k) then RunEnd(s, i + 1, k) else i
  }

  /**
   * The group captured by `(?:w1|w2|...) ([class]+)` when the match starts at `p`, the
   * alternatives being tried in order; `None` when no alternative matches there.
   */
  function CaptureAt(s: string, words: seq<string>, k: CharClass, p: nat): Option<string>
    requires p <= |s|
    decreases |words|
  {
    if words == [] then None
    else
      var start := p + |words[0]| + 1;
      if OccursAt(s, words[0] + " ", p) && start < |s| && InClass(s[start], k)
      then Some(s[start..RunEnd(s, start, k)])
      else CaptureAt(s, words[1..], k, p)
  }

  /** The leftmost position, from `p` on, where the expression matches. */
  function LeftmostMatch(s: string, words: seq<string>, k: CharClass, p: nat): (r: Option<nat>)
    requires p <= |s|
    decreases |s| - p
    ensures r.Some? ==> p <= r.value <= |s| && CaptureAt(s, words, k, r.value).Some?
    ensures r.Some? ==> forall q :: p <= q < r.value ==> CaptureAt(s, words, k, q).None?
    ensures r.None? ==> forall q :: p <= q <= |s| ==> CaptureAt(s, words, k, q).None?
  {
    if CaptureAt(s, words, k, p).Some? then Some(p)
    else if p == |s| then None
    else LeftmostMatch(s, words, k, p + 1)
  }

  /** `s.match(re)[1]` for the expression `(?:words) ([class]+)`. */
  function Capture(s: string, words: seq<string>, k: CharClass): Option<string> {
    match LeftmostMatch(s, words, k, 0)
    case None => None
    case Some(p) => CaptureAt(s, words, k, p)
  }

  const CityWords: seq<string> := ["in"]
  const TitleWords: seq<string> := ["movie", "film", "watch", "show"]

  /** `lower.match(/in ([a-zA-Z ]+)/)`, trimmed, up to the first space. */
  function CityOf(lower: string): Option<string> {
    match Capture(lower, CityWords, CityChars)
    case None => None
    case Some(c) => Some(Split(Trim(c), " ")[0])
  }

  /** `lower.match(/(?:movie|film|watch|show) ([a-zA-Z0-9: ]+)/)`, trimmed. */
  function TitleOf(lower: string): Option<string> {
    match Capture(lower, TitleWords, TitleChars)
    case None => None
    case Some(c) => Some(Trim(c))
  }

  /** The intent of a message, as a single expression. */
  function IntentOf(text: string): Intent {
    var lower := Lower(text);
    Intent(CityOf(lower), GenreOf(lower), LanguageOf(lower), DateOf(lower), TitleOf(lower))
  }

  /** `extractIntent`: the genre table is scanned with a loop that stops at the first hit. */
  method ExtractIntent(text: string) returns (intent: Intent)
    ensures intent == IntentOf(text)
  {
    var lower := Lower(text);
    var city := CityOf(lower);
    var genre: Option<string> := None;
    var k := 0;
    while k < |GenreMap|
      invariant 0 <= k <= |GenreMap|
      invariant genre == None
      invariant GenreIndexFrom(lower, k) == GenreIndexFrom(lower, 0)
    {
      if Contains(lower, GenreMap[k].0) {
        genre := Some(GenreMap[k].0);
        break;
      }
      k := k + 1;
    }
    var language: Option<string> := None;
    if Contains(lower, "hindi") {
      language := Some("hi");
    } else if Contains(lower, "english") {
      language := Some("en");
    } else if Contains(lower, "french") {
      language := Some("fr");
    }
    var date: Option<string> := None;
    if Contains(lower, "today") {
      date := Some("today");
    } else if Contains(lower, "tonight") {
      date := Some("tonight");
    } else if Contains(lower, "weekend") {
      date := Some("weekend");
    }
    var title := TitleOf(lower);
    intent := Intent(city, genre, language, date, title);
  }

  // =======================================================================================
  // Properties of the intent

  /** The genre is the first key of the table, in table order, found in the lower-cased text. */
  lemma GenreIsFirstKeyFound(text: string, k: nat)
    requires k < |GenreMap| && Contains(Lower(text), GenreMap[k].0)
    requires forall j :: 0 <= j < k ==> !Contains(Lower(text), GenreMap[j].0)
    ensures IntentOf(text).genre == Some(GenreMap[k].0)
  {
    var r := GenreIndexFrom(Lower(text), 0);
    assert r.Some?;
    assert !(r.value < k);
    assert !(r.value > k);
  }

  /** Without any key of the table in the text there is no genre. */
  lemma NoGenreWithoutKey(text: string)
    requires forall j :: 0 <= j < |GenreMap| ==> !Contains(Lower(text), GenreMap[j].0)
    ensures IntentOf(text).genre == None
  {
  }

  /** "action" comes first in the table, so it beats every other genre, "thriller" included. */
  lemma ActionBeatsOtherGenres(text: string)
    requires Contains(Lower(text), "action")
    ensures IntentOf(text).genre == Some("action")
  {
    GenreIsFirstKeyFound(text, 0);
  }

  /** The language follows the priority Hindi, English, French. */
  lemma LanguagePriority(text: string)
    ensures var l, lower := IntentOf(text).language, Lower(text);
      && (l == Some("hi") <==> Contains(lower, "hindi"))
      && (l == Some("en") <==> !Contains(lower, "hindi") && Contains(lower, "english"))
      && (l == Some("fr") <==> !Contains(lower, "hindi") && !Contains(lower, "english") && Contains(lower, "french"))
      && (l == None <==> !Contains(lower, "hindi") && !Contains(lower, "english") && !Contains(lower, "french"))
  {
  }

  /** The date bucket follows the priority today, tonight, weekend. */
  lemma DatePriority(text: string)
    ensures var d, lower := IntentOf(text).date, Lower(text);
      && (d == Some("today") <==> Contains(lower, "today"))
      && (d == Some("tonight") <==> !Contains(lower, "today") && Contains(lower, "tonight"))
      && (d == Some("weekend") <==> !Contains(lower, "today") && !Contains(lower, "tonight") && Contains(lower, "weekend"))
      && (d == None <==> !Contains(lower, "today") && !Contains(lower, "tonight") && !Contains(lower, "weekend"))
  {
  }

  /** A capture is taken at the leftmost match, and there is none when nothing matches. */
  lemma CaptureIsLeftmost(s: string, words: seq<string>, k: CharClass)
    ensures Capture(s, words, k).Some? ==>
      exists p :: 0 <= p <= |s| && Capture(s, words, k) == CaptureAt(s, words, k, p) &&
        forall q :: 0 <= q < p ==> CaptureAt(s, words, k, q).None?
    ensures Capture(s, words, k).None? <==> forall q :: 0 <= q <= |s| ==> CaptureAt(s, words, k, q).None?
  {
    var r := LeftmostMatch(s, words, k, 0);
    if r.Some? {
      assert CaptureAt(s, words, k, r.value).Some?;
    }
  }

  /** The alternative a capture at `p` was taken after. */
  lemma {:induction false} CaptureAtWord(s: string, words: seq<string>, k: CharClass, p: nat)
    returns (w: string)
    requires p <= |s|
    requires CaptureAt(s, words, k, p).Some?
    ensures w in words && OccursAt(s, w + " ", p) && p + |w| + 1 < |s| && InClass(s[p + |w| + 1], k)
    ensures CaptureAt(s, words, k, p).value == s[p + |w| + 1..RunEnd(s, p + |w| + 1, k)]
    decreases |words|
  {
    var start := p + |words[0]| + 1;
    if OccursAt(s, words[0] + " ", p) && start < |s| && InClass(s[start], k) {
      w := words[0];
    } else {
      w := CaptureAtWord(s, words[1..], k, p);
      assert w in words[1..];
    }
  }

  /**
   * A captured group follows one of the alternatives and a space at `p`, and is the longest
   * run of class characters starting there: non-empty and made of class characters only.
   */
  lemma CaptureAtShape(s: string, words: seq<string>, k: CharClass, p: nat)
    returns (w: string)
    requires p <= |s|
    requires CaptureAt(s, words, k, p).Some?
    ensures w in words && OccursAt(s, w + " ", p) && p + |w| + 1 < |s|
    ensures CaptureAt(s, words, k, p).value == s[p + |w| + 1..RunEnd(s, p + |w| + 1, k)]
    ensures var c := CaptureAt(s, words, k, p).value;
      |c| > 0 && forall i :: 0 <= i < |c| ==> InClass(c[i], k) && c[i] in s
  {
    w := CaptureAtWord(s, words, k, p);
    var start := p + |w| + 1;
    var c := CaptureAt(s, words, k, p).value;
    forall i | 0 <= i < |c| ensures InClass(c[i], k) && c[i] in s {
      assert c[i] == s[start + i];
    }
  }

  /** A captured group of the lower-cased text holds no upper-case letter. */
  lemma CaptureNoUpper(s: string, words: seq<string>, k: CharClass)
    requires NoUpper(s)
    requires Capture(s, words, k).Some?
    ensures NoUpper(Capture(s, words, k).value)
  {
    var p := LeftmostMatch(s, words, k, 0).value;
    var _ := CaptureAtShape(s, words, k, p);
  }

  /** Characters a city capture of the lower-cased text can hold: a-z and space. */
  predicate CityText(s: string) {
    forall i :: 0 <= i < |s| ==> InClass(s[i], CityChars) && !('A' <= s[i] <= 'Z')
  }

  lemma CapturedCityText(lower: string)
    requires NoUpper(lower) && Capture(lower, CityWords, CityChars).Some?
    ensures CityText(Capture(lower, CityWords, CityChars).value)
  {
    var p := LeftmostMatch(lower, CityWords, CityChars, 0).value;
    var _ := CaptureAtShape(lower, CityWords, CityChars, p);
    CaptureNoUpper(lower, CityWords, CityChars);
  }

  lemma TrimmedCityText(s: string)
    requires CityText(s)
    ensures CityText(Trim(s))
  {
    TrimShape(s);
    var i, j :| 0 <= i <= j <= |s| && Trim(s) == s[i..j];
    forall n | 0 <= n < |Trim(s)| ensures InClass(Trim(s)[n], CityChars) && !('A' <= Trim(s)[n] <= 'Z') {
      assert Trim(s)[n] == s[i + n];
    }
  }

  lemma LowerHasNoUpper(text: string)
    ensures NoUpper(Lower(text))
  {
  }

  /** The city is a single lower-case word: letters 'a'..'z' only. */
  lemma CityIsOneLowerCaseWord(text: string)
    requires IntentOf(text).city.Some?
    ensures var c := IntentOf(text).city.value;
      forall i :: 0 <= i < |c| ==> 'a' <= c[i] <= 'z'
  {
    var lower := Lower(text);
    LowerHasNoUpper(text);
    CapturedCityText(lower);
    var captured := Capture(lower, CityWords, CityChars).value;
    TrimmedCityText(captured);
    var t := Trim(captured);
    FirstPieceLacksSeparator(t, ' ');
    var c := Split(t, " ")[0];
    assert c == IntentOf(text).city.value;
    forall i | 0 <= i < |c| ensures 'a' <= c[i] <= 'z' {
      assert c[i] == t[i];
    }
  }

  /** The title is trimmed, lower-case and made of `[a-z0-9: ]` characters. */
  lemma TitleShape(text: string)
    requires IntentOf(text).title.Some?
    ensures var t := IntentOf(text).title.value;
      && (t != [] ==> t[0] != ' ' && t[|t| - 1] != ' ')
      && forall i :: 0 <= i < |t| ==> InClass(t[i], TitleChars) && !('A' <= t[i] <= 'Z')
  {
    var lower := Lower(text);
    var captured := Capture(lower, TitleWords, TitleChars).value;
    var p := LeftmostMatch(lower, TitleWords, TitleChars, 0).value;
    var _ := CaptureAtShape(lower, TitleWords, TitleChars, p);
    LowerHasNoUpper(text);
    CaptureNoUpper(lower, TitleWords, TitleChars);
    TrimmedTitleText(captured);
  }

  /** Trimming title-class text without upper-case letters leaves no space at either end. */
  lemma TrimmedTitleText(s: string)
    requires NoUpper(s) && forall i :: 0 <= i < |s| ==> InClass(s[i], TitleChars)
    ensures var t := Trim(s);
      && (t != [] ==> t[0] != ' ' && t[|t| - 1] != ' ')
      && forall i :: 0 <= i < |t| ==> InClass(t[i], TitleChars) && !('A' <= t[i] <= 'Z')
  {
    TrimShape(s);
    var i, j :| 0 <= i <= j <= |s| && Trim(s) == s[i..j];
    var t := Trim(s);
    forall n | 0 <= n < |t| ensures InClass(t[n], TitleChars) && !('A' <= t[n] <= 'Z') {
      assert t[n] == s[i + n];
    }
    if t != [] {
      assert IsWhiteSpace(' ');
    }
  }

  // =======================================================================================
  // The local catalog

  /** A record of the local catalog (the fields the pipeline reads or copies). */
  datatype LocalMovie = LocalMovie(
    title: Option<string>,
    year: string,
    poster: string,
    imdbRating: string,
    plot: string,
    actors: string,
    images: seq<string>,
    genre: Option<string>,
    language: Option<string>)

  datatype Field = TitleField | GenreField | LanguageField

  function FieldOf(m: LocalMovie, f: Field): Option<string> {
    match f
    case TitleField => m.title
    case GenreField => m.genre
    case LanguageField => m.language
    }

  /** `m.F && m.F.toLowerCase().includes(needle.toLowerCase())`. */
  predicate FieldContains(m: LocalMovie, f: Field, needle: string) {
    Truthy(FieldOf(m, f)) && Contains(Lower(FieldOf(m, f).value), Lower(needle))
  }

  /** The filters of `findLocalMovies`; a falsy filter is not applied. */
  datatype LocalQuery = LocalQuery(title: Option<string>, genre: Option<string>, language: Option<string>)

  predicate Passes(m: LocalMovie, f: Field, needle: Option<string>) {
    !Truthy(needle) || FieldContains(m, f, needle.value)
  }

  /** The record satisfies every filter the query sets. */
  predicate Admits(q: LocalQuery, m: LocalMovie) {
    Passes(m, TitleField, q.title) && Passes(m, GenreField, q.genre) && Passes(m, LanguageField, q.language)
  }

  /** The catalog records the query admits, in catalog order (the specification of the filter). */
  function LocalMatches(catalog: seq<LocalMovie>, q: LocalQuery): seq<LocalMovie>
    decreases |catalog|
  {
    if catalog == [] then []
    else (if Admits(q, catalog[0]) then [catalog[0]] else []) + LocalMatches(catalog[1..], q)
  }

  /** One `results.filter(...)` step on one field. */
  function FilterField(ms: seq<LocalMovie>, f: Field, needle: string): seq<LocalMovie>
    decreases |ms|
  {
    if ms == [] then []
    else (if FieldContains(ms[0], f, needle) then [ms[0]] else []) + FilterField(ms[1..], f, needle)
  }

  /** The result holds exactly the admitted records and keeps their catalog order. */
  lemma {:induction false} LocalMatchesSpec(catalog: seq<LocalMovie>, q: LocalQuery)
    ensures forall m :: m in LocalMatches(catalog, q) <==> m in catalog && Admits(q, m)
    ensures IsSubsequence(LocalMatches(catalog, q), catalog)
    decreases |catalog|
  {
    if catalog != [] {
      LocalMatchesSpec(catalog[1..], q);
      assert catalog == [catalog[0]] + catalog[1..];
      var rest := LocalMatches(catalog[1..], q);
      if Admits(q, catalog[0]) {
        assert LocalMatches(catalog, q) == [catalog[0]] + rest;
        assert LocalMatches(catalog, q)[1..] == rest;
      } else {
        assert LocalMatches(catalog, q) == rest;
        SubsequenceCons(rest, catalog[0], catalog[1..]);
      }
    }
  }

  /** A query that sets no filter admits the whole catalog. */
  lemma {:induction false} NoFilterKeepsCatalog(catalog: seq<LocalMovie>, q: LocalQuery)
    requires !Truthy(q.title) && !Truthy(q.genre) && !Truthy(q.language)
    ensures LocalMatches(catalog, q) == catalog
    decreases |catalog|
  {
    if catalog != [] {
      NoFilterKeepsCatalog(catalog[1..], q);
    }
  }

  /** Filtering the matches of `q` on one more field gives the matches of the narrower `q2`. */
  lemma {:induction false} FilterNarrows(catalog: seq<LocalMovie>, q: LocalQuery, q2: LocalQuery, f: Field, needle: string)
    requires forall m :: Admits(q2, m) <==> Admits(q, m) && FieldContains(m, f, needle)
    ensures FilterField(LocalMatches(catalog, q), f, needle) == LocalMatches(catalog, q2)
    decreases |catalog|
  {
    if catalog != [] {
      FilterNarrows(catalog[1..], q, q2, f, needle);
      var head := if Admits(q, catalog[0]) then [catalog[0]] else [];
      FilterAppend(head, LocalMatches(catalog[1..], q), f, needle);
    }
  }

  lemma {:induction false} FilterAppend(a: seq<LocalMovie>, b: seq<LocalMovie>, f: Field, needle: string)
    ensures FilterField(a + b, f, needle) == FilterField(a, f, needle) + FilterField(b, f, needle)
    decreases |a|
  {
    if a != [] {
      assert (a + b)[0] == a[0];
      assert (a + b)[1..] == a[1..] + b;
      FilterAppend(a[1..], b, f, needle);
      var head := if FieldContains(a[0], f, needle) then [a[0]] else [];
      assert FilterField(a + b, f, needle) == head + FilterField(a[1..] + b, f, needle);
      assert FilterField(a, f, needle) == head + FilterField(a[1..], f, needle);
    } else {
      assert a + b == b;
    }
  }

  /** Queries admitting the same records select the same records. */
  lemma {:induction false} SameAdmitsSameMatches(catalog: seq<LocalMovie>, q: LocalQuery, q2: LocalQuery)
    requires forall m :: Admits(q2, m) <==> Admits(q, m)
    ensures LocalMatches(catalog, q) == LocalMatches(catalog, q2)
    decreases |catalog|
  {
    if catalog != [] {
      SameAdmitsSameMatches(catalog[1..], q, q2);
    }
  }

  /** `findLocalMovies`: the catalog narrowed by each set filter in turn. */
  method FindLocalMovies(catalog: seq<LocalMovie>, q: LocalQuery) returns (results: seq<LocalMovie>)
    ensures results == LocalMatches(catalog, q)
  {
    var q0 := LocalQuery(None, None, None);
    var q1 := LocalQuery(q.title, None, None);
    var q2 := LocalQuery(q.title, q.genre, None);
    results := catalog;
    NoFilterKeepsCatalog(catalog, q0);
    if Truthy(q.title) {
      FilterNarrows(catalog, q0, q1, TitleField, q.title.value);
      results := FilterField(results, TitleField, q.title.value);
    } else {
      SameAdmitsSameMatches(catalog, q0, q1);
    }
    if Truthy(q.genre) {
      FilterNarrows(catalog, q1, q2, GenreField, q.genre.value);
      results := FilterField(results, GenreField, q.genre.value);
    } else {
      SameAdmitsSameMatches(catalog, q1, q2);
    }
    if Truthy(q.language) {
      FilterNarrows(catalog, q2, q, LanguageField, q.language.value);
      results := FilterField(results, LanguageField, q.language.value);
    } else {
      SameAdmitsSameMatches(catalog, q2, q);
    }
  }

  /** The catalog title equals `title` up to case (`m.Title.toLowerCase() === title.toLowerCase()`). */
  predicate TitleEquals(m: LocalMovie, title: string) {
    Truthy(m.title) && Lower(m.title.value) == Lower(title)
  }

  /** `localMovies.find(...)`: the index of the first record, from `k` on, titled `title`. */
  function ExactIndexFrom(catalog: seq<LocalMovie>, title: string, k: nat): (r: Option<nat>)
    requires k <= |catalog|
    decreases |catalog| - k
    ensures r.Some? ==> k <= r.value < |catalog| && TitleEquals(catalog[r.value], title)
    ensures r.Some? ==> forall j :: k <= j < r.value ==> !TitleEquals(catalog[j], title)
    ensures r.None? ==> forall j :: k <= j < |catalog| ==> !TitleEquals(catalog[j], title)
  {
    if k == |catalog| then None
    else if TitleEquals(catalog[k], title) then Some(k)
    else ExactIndexFrom(catalog, title, k + 1)
  }

  function ExactIndex(catalog: seq<LocalMovie>, title: string): Option<nat>
  {
    ExactIndexFrom(catalog, title, 0)
  }

  // =======================================================================================
  // External sources and responses

  /** What an awaited call did: threw, or returned a value. */
  datatype Outcome<T> = Threw | Returned(value: T)

  /** A TMDb movie record; `voteAverage` is copied without being inspected. */
  datatype TmdbMovie = TmdbMovie(
    id: int,
    title: string,
    releaseDate: Option<string>,
    posterPath: Option<string>,
    voteAverage: string,
    overview: string)

  /** A TMDb cast member record. */
  datatype TmdbCredit = TmdbCredit(name: string, character: string, profilePath: Option<string>)

  /** The parameters of a TMDb discover request besides the key and the fixed popularity order. */
  datatype DiscoverQuery = DiscoverQuery(
    withGenres: Option<int>,
    withOriginalLanguage: Option<string>,
    releaseDateFrom: Option<string>,
    page: int)

  /**
   * What each external service does for each request: TMDb discover (by query), TMDb search
   * (by title), TMDb credits (by movie id) and the generative model (by user message). A
   * missing discover `results` or credits `cast` array is the empty sequence, since the route
   * treats it like an empty one; a missing search `results` array makes `results[0]` throw,
   * so it is `Threw`.
   */
  datatype Sources = Sources(
    discover: DiscoverQuery -> Outcome<seq<TmdbMovie>>,
    search: string -> Outcome<seq<TmdbMovie>>,
    credits: int -> Outcome<seq<TmdbCredit>>,
    generate: string -> Outcome<string>)

  datatype CastMember = CastMember(name: string, character: string, profile: Option<string>)

  /** A movie of a response: a local record copied whole, or a normalised TMDb record. */
  datatype MovieResult =
    | Local(entry: LocalMovie)
    | Tmdb(title: string, year: string, poster: Option<string>, rating: string, overview: string,
           id: int, cast: Option<seq<CastMember>>)

  /** The HTTP status and JSON body `{reply?, movies?}` of a response. */
  datatype Response = Response(status: int, reply: Option<string>, movies: Option<seq<MovieResult>>)

  const PosterBase := "https://image.tmdb.org/t/p/w500"
  const ProfileBase := "https://image.tmdb.org/t/p/w185"
  const NoMessageReply := "No message provided."
  const NoQueryReply := "No query provided."
  const ApologyReply := "I'm sorry, I couldn't find any movies matching your request. Try asking for a different movie or genre."
  const ServerErrorReply := "Sorry, something went wrong. Please try again later."

  /** `release_date ? release_date.slice(0, 4) : ''`. */
  function YearOf(releaseDate: Option<string>): string {
    if Truthy(releaseDate) then Take(releaseDate.value, 4) else ""
  }

  /** `poster_path ? w500 URL : null`. */
  function PosterOf(posterPath: Option<string>): Option<string> {
    if Truthy(posterPath) then Some(PosterBase + posterPath.value) else None
  }

  function FromTmdb(m: TmdbMovie): MovieResult {
    Tmdb(m.title, YearOf(m.releaseDate), PosterOf(m.posterPath), m.voteAverage, m.overview, m.id, None)
  }

  function FromCredit(c: TmdbCredit): CastMember {
    CastMember(c.name, c.character, if Truthy(c.profilePath) then Some(ProfileBase + c.profilePath.value) else None)
  }

  /** `getMovieCast` with its failure swallowed: the first eight credits, or none. */
  function CastOf(o: Outcome<seq<TmdbCredit>>): seq<CastMember> {
    match o
    case Threw => []
    case Returned(cs) =>
      var top := Take(cs, 8);
      seq(|top|, i requires 0 <= i < |top| => FromCredit(top[i]))
  }

  function TmdbResults(xs: seq<TmdbMovie>): seq<MovieResult> {
    seq(|xs|, i requires 0 <= i < |xs| => FromTmdb(xs[i]))
  }

  function LocalResults(ms: seq<LocalMovie>): seq<MovieResult> {
    seq(|ms|, i requires 0 <= i < |ms| => Local(ms[i]))
  }

  function DiscoverReply(i: Intent): string {
    "Here are some popular" + Mention(" ", i.genre) + Mention(" ", i.language) + " movies" + Mention(" for ", i.date) + ":"
  }

  function DiscoverFallbackReply(i: Intent): string {
    "TMDb is unavailable. Here are some" + Mention(" ", i.genre) + Mention(" ", i.language) + " movies from our local database:"
  }

  /** `"${title}" (${release_date?.slice(0,4)}): ${overview}` and the cast names when there are any. */
  function SearchReply(m: TmdbMovie, cast: seq<CastMember>): string {
    var year := if m.releaseDate.None? then "undefined" else Take(m.releaseDate.value, 4);
    "\"" + m.title + "\" (" + year + "): " + m.overview +
    (if |cast| > 0 then "\nCast: " + Join(seq(|cast|, i requires 0 <= i < |cast| => cast[i].name), ", ") else "")
  }

  function ExactReply(m: LocalMovie): Response
    requires m.title.Some?
  {
    Response(200, Some("Found \"" + m.title.value + "\" in our local database:"), Some([Local(m)]))
  }

  function LocalReply(reply: string, local: seq<LocalMovie>): Response {
    Response(200, Some(reply), Some(LocalResults(Take(local, 5))))
  }

  function SearchResponse(m: TmdbMovie, cast: seq<CastMember>): Response {
    Response(200, Some(SearchReply(m, cast)), Some([Tmdb(m.title, YearOf(m.releaseDate), PosterOf(m.posterPath), m.voteAverage, m.overview, m.id, Some(cast))]))
  }

  /** The discover request for an intent: genre id, language, and a lower date bound only for "today". */
  function DiscoverFor(i: Intent, today: string, page: int): DiscoverQuery {
    DiscoverQuery(
      if Truthy(i.genre) then GenreId(i.genre.value) else None,
      i.language,
      if i.date == Some("today") then Some(today) else None,
      page)
  }

  predicate HasFilters(i: Intent) {
    Truthy(i.genre) || Truthy(i.language) || Truthy(i.date)
  }

  // =======================================================================================
  // POST /chat: the ordered chain of sources

  /** Branch 1: a catalog record titled exactly as the intent's title. */
  function TryExactLocal(i: Intent, catalog: seq<LocalMovie>): Option<Response> {
    if !Truthy(i.title) then None
    else match ExactIndex(catalog, i.title.value)
      case None => None
      case Some(k) => Some(ExactReply(catalog[k]))
  }

  /** Branch 2: TMDb discovery; the local catalog only when the call throws. */
  function TryDiscovery(i: Intent, catalog: seq<LocalMovie>, today: string, src: Sources): Option<Response> {
    if !HasFilters(i) then None
    else match src.discover(DiscoverFor(i, today, 1))
      case Returned(xs) =>
        if |xs| > 0 then Some(Response(200, Some(DiscoverReply(i)), Some(TmdbResults(Take(xs, 5))))) else None
      case Threw =>
        var local := LocalMatches(catalog, LocalQuery(None, i.genre, i.language));
        if |local| > 0 then Some(LocalReply(DiscoverFallbackReply(i), local)) else None
  }

  /** Branch 3: TMDb title search with its cast; the local catalog only when the search throws. */
  function TryTitleSearch(i: Intent, catalog: seq<LocalMovie>, src: Sources): Option<Response> {
    if !Truthy(i.title) then None
    else match src.search(i.title.value)
      case Returned(xs) =>
        if |xs| > 0 then Some(SearchResponse(xs[0], CastOf(src.credits(xs[0].id)))) else None
      case Threw =>
        var local := LocalMatches(catalog, LocalQuery(i.title, None, None));
        if |local| > 0 then
          Some(LocalReply("TMDb is unavailable. Here are some movies matching \"" + i.title.value + "\" from our local database:", local))
        else None
  }

  /** Branch 4: the generative model's text, a fixed apology for empty text, 500 when it throws. */
  function Generative(message: string, src: Sources): Response {
    match src.generate(message)
    case Threw => Response(500, Some(ServerErrorReply), None)
    case Returned(text) => Response(200, Some(if text != "" then text else ApologyReply), None)
  }

  /** The branches in order; the first that answers decides. */
  function Resolve(i: Intent, message: string, catalog: seq<LocalMovie>, today: string, src: Sources): Response {
    match TryExactLocal(i, catalog)
    case Some(r) => r
    case None =>
      match TryDiscovery(i, catalog, today, src)
      case Some(r) => r
      case None =>
        match TryTitleSearch(i, catalog, src)
        case Some(r) => r
        case None => Generative(message, src)
  }

  /** The response of `POST /chat` with body `{message}`. */
  function ChatReply(message: Option<string>, catalog: seq<LocalMovie>, today: string, src: Sources): Response {
    if !Truthy(message) then Response(400, Some(NoMessageReply), None)
    else Resolve(IntentOf(message.value), message.value, catalog, today, src)
  }

  /** The route handler as written: a sequence of early returns. */
  method PostChat(message: Option<string>, catalog: seq<LocalMovie>, today: string, src: Sources)
    returns (resp: Response)
    ensures resp == ChatReply(message, catalog, today, src)
  {
    if !Truthy(message) {
      return Response(400, Some(NoMessageReply), None);
    }
    var intent := ExtractIntent(message.value);
    assert ChatReply(message, catalog, today, src) == Resolve(intent, message.value, catalog, today, src);
    if Truthy(intent.title) {
      var exact := ExactIndex(catalog, intent.title.value);
      if exact.Some? {
        return ExactReply(catalog[exact.value]);
      }
    }
    assert TryExactLocal(intent, catalog).None?;
    if HasFilters(intent) {
      var found := src.discover(DiscoverFor(intent, today, 1));
      if found.Returned? {
        if |found.value| > 0 {
          return Response(200, Some(DiscoverReply(intent)), Some(TmdbResults(Take(found.value, 5))));
        }
      } else {
        var local := FindLocalMovies(catalog, LocalQuery(None, intent.genre, intent.language));
        if |local| > 0 {
          return LocalReply(DiscoverFallbackReply(intent), local);
        }
      }
    }
    assert TryDiscovery(intent, catalog, today, src).None?;
    if Truthy(intent.title) {
      var searched := src.search(intent.title.value);
      if searched.Returned? {
        if |searched.value| > 0 {
          var movie := searched.value[0];
          var cast := CastOf(src.credits(movie.id));
          return SearchResponse(movie, cast);
        }
      } else {
        var local := FindLocalMovies(catalog, LocalQuery(intent.title, None, None));
        if |local| > 0 {
          return LocalReply("TMDb is unavailable. Here are some movies matching \"" + intent.title.value + "\" from our local database:", local);
        }
      }
    }
    assert TryTitleSearch(intent, catalog, src).None?;
    var generated := src.generate(message.value);
    if generated.Threw? {
      return Response(500, Some(ServerErrorReply), None);
    }
    var reply := if generated.value != "" then generated.value else ApologyReply;
    resp := Response(200, Some(reply), None);
  }

  // =======================================================================================
  // GET /chat/more

  /** `parseInt(page, 10) || 1`: NaN and 0 become page 1. */
  function PageOf(page: Option<string>): (n: int)
    ensures n != 0
  {
    var parsed := if page.None? then None else ParseInt(page.value, 10);
    if parsed.None? || parsed.value == 0 then 1 else parsed.value
  }

  /** The response of `GET /chat/more?q=...&page=...`: discovery only, no fallback. */
  function ChatMore(q: Option<string>, page: Option<string>, today: string, src: Sources): Response {
    if !Truthy(q) then Response(400, Some(NoQueryReply), None)
    else
      var i := IntentOf(q.value);
      if HasFilters(i) then
        match src.discover(DiscoverFor(i, today, PageOf(page)))
        case Threw => Response(500, None, Some([]))
        case Returned(xs) => Response(200, None, Some(TmdbResults(Take(xs, 5))))
      else Response(200, None, Some([]))
  }

  // =======================================================================================
  // Properties of the chain

  /** An empty or missing message is refused with 400 before anything else happens. */
  lemma EmptyMessageRefused(message: Option<string>, catalog: seq<LocalMovie>, today: string, src: Sources)
    requires !Truthy(message)
    ensures ChatReply(message, catalog, today, src) == Response(400, Some(NoMessageReply), None)
  {
  }

  /**
   * An exact local title answers with that first record alone, and no external service is
   * consulted: replacing every service leaves the response unchanged.
   */
  lemma ExactLocalTitleWins(i: Intent, message: string, catalog: seq<LocalMovie>, today: string,
                            src: Sources, other: Sources, k: nat)
    requires Truthy(i.title) && k < |catalog| && TitleEquals(catalog[k], i.title.value)
    requires forall j :: 0 <= j < k ==> !TitleEquals(catalog[j], i.title.value)
    ensures Resolve(i, message, catalog, today, src) == ExactReply(catalog[k])
    ensures Resolve(i, message, catalog, today, src) == Resolve(i, message, catalog, today, other)
    ensures Resolve(i, message, catalog, today, src).movies == Some([Local(catalog[k])])
  {
    var r := ExactIndex(catalog, i.title.value);
    assert r.Some?;
    assert !(r.value < k);
    assert !(r.value > k);
  }

  /** Discovery is entered only when a genre, language or date is set. */
  lemma DiscoveryNeedsFilters(i: Intent, catalog: seq<LocalMovie>, today: string, src: Sources,
                              d: DiscoverQuery -> Outcome<seq<TmdbMovie>>)
    ensures !HasFilters(i) ==> TryDiscovery(i, catalog, today, src) == None
    ensures !HasFilters(i) ==> forall message ::
      Resolve(i, message, catalog, today, src) == Resolve(i, message, catalog, today, src.(discover := d))
  {
  }

  /** A non-empty discovery result answers with its first min(5, n) movies, in order. */
  lemma DiscoveryAnswers(i: Intent, message: string, catalog: seq<LocalMovie>, today: string, src: Sources)
    requires TryExactLocal(i, catalog) == None && HasFilters(i)
    requires src.discover(DiscoverFor(i, today, 1)).Returned?
    requires |src.discover(DiscoverFor(i, today, 1)).value| > 0
    ensures var xs := src.discover(DiscoverFor(i, today, 1)).value;
      var r := Resolve(i, message, catalog, today, src);
      && r.status == 200 && r.reply == Some(DiscoverReply(i)) && r.movies.Some?
      && |r.movies.value| == Min(5, |xs|)
      && forall j :: 0 <= j < |r.movies.value| ==> r.movies.value[j] == FromTmdb(xs[j])
  {
  }

  /** An empty but successful discovery does not use the local catalog: it falls through. */
  lemma EmptyDiscoveryFallsThrough(i: Intent, message: string, catalog: seq<LocalMovie>, today: string, src: Sources)
    requires TryExactLocal(i, catalog) == None
    requires HasFilters(i) ==> src.discover(DiscoverFor(i, today, 1)) == Returned([])
    ensures Resolve(i, message, catalog, today, src) ==
      match TryTitleSearch(i, catalog, src)
      case Some(r) => r
      case None => Generative(message, src)
  {
  }

  /**
   * When discovery throws, up to five local records whose Genre and Language contain the
   * intent's genre and language answer; an empty fallback falls through.
   */
  lemma DiscoveryFallback(i: Intent, message: string, catalog: seq<LocalMovie>, today: string, src: Sources)
    requires TryExactLocal(i, catalog) == None && HasFilters(i)
    requires src.discover(DiscoverFor(i, today, 1)) == Threw
    ensures var local := LocalMatches(catalog, LocalQuery(None, i.genre, i.language));
      var r := Resolve(i, message, catalog, today, src);
      && (|local| > 0 ==> r == LocalReply(DiscoverFallbackReply(i), local))
      && (|local| > 0 ==> (|r.movies.value| <= 5 &&
            forall j :: 0 <= j < |r.movies.value| ==>
              r.movies.value[j].Local? && r.movies.value[j].entry in catalog &&
              Passes(r.movies.value[j].entry, GenreField, i.genre) &&
              Passes(r.movies.value[j].entry, LanguageField, i.language)))
      && (|local| == 0 ==> r == match TryTitleSearch(i, catalog, src) case Some(t) => t case None => Generative(message, src))
  {
    var local := LocalMatches(catalog, LocalQuery(None, i.genre, i.language));
    LocalMatchesSpec(catalog, LocalQuery(None, i.genre, i.language));
    if |local| > 0 {
      var shown := Take(local, 5);
      forall j | 0 <= j < |shown| ensures shown[j] in local {
        assert shown[j] == local[j];
      }
    }
  }

  /** Local records appear in a discovery answer only when the TMDb call threw. */
  lemma LocalOnlyAfterThrow(i: Intent, catalog: seq<LocalMovie>, today: string, src: Sources)
    requires src.discover(DiscoverFor(i, today, 1)).Returned?
    requires TryDiscovery(i, catalog, today, src).Some?
    ensures var r := TryDiscovery(i, catalog, today, src).value;
      r.movies.Some? && forall j :: 0 <= j < |r.movies.value| ==> r.movies.value[j].Tmdb?
  {
  }

  /** The title search answers with its top result and at most eight cast members. */
  lemma TitleSearchAnswers(i: Intent, message: string, catalog: seq<LocalMovie>, today: string, src: Sources)
    requires TryExactLocal(i, catalog) == None && TryDiscovery(i, catalog, today, src) == None
    requires Truthy(i.title) && src.search(i.title.value).Returned? && |src.search(i.title.value).value| > 0
    ensures var top := src.search(i.title.value).value[0];
      var r := Resolve(i, message, catalog, today, src);
      && r == SearchResponse(top, CastOf(src.credits(top.id)))
      && r.movies.Some? && |r.movies.value| == 1
      && r.movies.value[0].cast.Some? && |r.movies.value[0].cast.value| <= 8
      && (src.credits(top.id) == Threw ==> r.movies.value[0].cast == Some([]))
  {
  }

  /** The cast is at most eight members, each with a profile URL exactly when a path is given. */
  lemma CastRules(o: Outcome<seq<TmdbCredit>>)
    ensures |CastOf(o)| <= 8
    ensures o == Threw ==> CastOf(o) == []
    ensures o.Returned? ==> (|CastOf(o)| == Min(8, |o.value|) &&
      forall j :: 0 <= j < |CastOf(o)| ==>
        CastOf(o)[j].name == o.value[j].name &&
        (CastOf(o)[j].profile.None? <==> !Truthy(o.value[j].profilePath)))
  {
  }

  /** The year is the first four characters of the release date, or empty; the poster is a w500 URL or null. */
  lemma NormalisationRules(m: TmdbMovie)
    ensures var r := FromTmdb(m);
      && |r.year| <= 4
      && (Truthy(m.releaseDate) ==> r.year <= m.releaseDate.value)
      && (Truthy(m.releaseDate) ==> r.year == m.releaseDate.value[..Min(4, |m.releaseDate.value|)])
      && (!Truthy(m.releaseDate) ==> r.year == "")
      && (r.poster.Some? <==> Truthy(m.posterPath))
      && (r.poster.Some? ==> r.poster.value == PosterBase + m.posterPath.value)
      && r.title == m.title && r.id == m.id && r.cast.None?
  {
  }

  /** With no filter and no title every branch is skipped and the generative model answers. */
  lemma GenerativeWhenNothingElse(i: Intent, message: string, catalog: seq<LocalMovie>, today: string, src: Sources)
    requires !HasFilters(i) && !Truthy(i.title)
    ensures Resolve(i, message, catalog, today, src) == Generative(message, src)
  {
  }

  /** The generative model's empty text gives the apology; its failure gives 500. */
  lemma GenerativeRules(message: string, src: Sources)
    ensures src.generate(message) == Threw ==> Generative(message, src) == Response(500, Some(ServerErrorReply), None)
    ensures src.generate(message) == Returned("") ==> Generative(message, src) == Response(200, Some(ApologyReply), None)
    ensures Generative(message, src).movies.None?
  {
  }

  /** A title that trimmed to "" behaves exactly like no title. */
  lemma EmptyTitleIsNoTitle(i: Intent, message: string, catalog: seq<LocalMovie>, today: string, src: Sources)
    ensures Resolve(i.(title := Some("")), message, catalog, today, src) ==
            Resolve(i.(title := None), message, catalog, today, src)
  {
  }

  /** The discover request carries the table id of the genre and a date bound only for "today". */
  lemma DiscoverRequest(text: string, today: string, page: int)
    ensures var i := IntentOf(text);
      var q := DiscoverFor(i, today, page);
      && (i.genre.Some? ==> q.withGenres.Some? && q.withGenres == GenreId(i.genre.value))
      && (i.genre.None? ==> q.withGenres.None?)
      && (q.releaseDateFrom.Some? <==> i.date == Some("today"))
      && q.withOriginalLanguage == i.language && q.page == page
  {
    var i := IntentOf(text);
    if i.genre.Some? {
      var k := GenreIndexFrom(Lower(text), 0).value;
      assert GenreMap[k].0 == i.genre.value;
    }
  }

  /** The discovery reply names the genre, the language and the date bucket it applied. */
  lemma DiscoverReplyMentionsFilters(i: Intent)
    ensures Truthy(i.genre) ==> Contains(DiscoverReply(i), i.genre.value)
    ensures Truthy(i.language) ==> Contains(DiscoverReply(i), i.language.value)
    ensures Truthy(i.date) ==> Contains(DiscoverReply(i), i.date.value)
  {
    var g, l, d := Mention(" ", i.genre), Mention(" ", i.language), Mention(" for ", i.date);
    var s := "Here are some popular" + g + l + " movies" + d + ":";
    if Truthy(i.genre) {
      assert s == ("Here are some popular" + " ") + i.genre.value + (l + " movies" + d + ":");
      ContainsInfix("Here are some popular" + " ", i.genre.value, l + " movies" + d + ":");
    }
    if Truthy(i.language) {
      assert s == ("Here are some popular" + g + " ") + i.language.value + (" movies" + d + ":");
      ContainsInfix("Here are some popular" + g + " ", i.language.value, " movies" + d + ":");
    }
    if Truthy(i.date) {
      assert s == ("Here are some popular" + g + l + " movies" + " for ") + i.date.value + ":";
      ContainsInfix("Here are some popular" + g + l + " movies" + " for ", i.date.value, ":");
    }
  }

  /** `/chat/more` without genre, language or date answers `{movies: []}` without calling TMDb. */
  lemma MoreWithoutFilters(q: string, page: Option<string>, today: string, src: Sources,
                           d: DiscoverQuery -> Outcome<seq<TmdbMovie>>)
    requires q != "" && !HasFilters(IntentOf(q))
    ensures ChatMore(Some(q), page, today, src) == Response(200, None, Some([]))
    ensures ChatMore(Some(q), page, today, src.(discover := d)) == Response(200, None, Some([]))
  {
  }

  /** `/chat/more` asks for page 1 when the page parses to NaN or 0, and the parsed page otherwise. */
  lemma MorePage(q: string, page: Option<string>, today: string, src: Sources)
    requires q != "" && HasFilters(IntentOf(q))
    ensures var parsed := if page.None? then None else ParseInt(page.value, 10);
      var asked := DiscoverFor(IntentOf(q), today, PageOf(page));
      && (parsed.None? || parsed == Some(0) ==> asked.page == 1)
      && (parsed.Some? && parsed != Some(0) ==> asked.page == parsed.value)
    ensures var r := ChatMore(Some(q), page, today, src);
      r.movies.Some? && |r.movies.value| <= 5 && (r.status == 500 <==> src.discover(DiscoverFor(IntentOf(q), today, PageOf(page))) == Threw)
  {
  }
}
