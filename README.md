# Movie-ticket website: a verified model of its core logic

This project is a Dafny model of the parts of the movie-ticket website that carry rules one can state
and prove:

- **Chat assistant** (`backend/routes/agentChat.js`), modelled in `AgentChat`.
  - `extractIntent` turns a message into a city, genre, language, date bucket and title.
  - `findLocalMovies` is the case-insensitive catalog filter.
  - The result and cast normalisation.
  - The ordered chain of `POST /chat`: exact local title, TMDb discovery with a local fallback, TMDb title search with cast, and the generative model.
  - `GET /chat/more`.
- **Showtimes** (`backend/routes/showtimes.js`), modelled in `Showtimes`.
  - The listing filter.
  - The seat-availability query.
  - Creating a showtime.
  - The all-or-nothing seat transfer of `POST /book`, on a `Showtime` class whose seat lists are updated in place.
- **Booking page** (`src/pages/Booking.jsx`), modelled in `Booking`.
  - The demo occupancy loop.
  - Seat toggling and seat status.
  - The total, computed in integer cents.
  - The seat summary and the confirmation guard.
- **Seat ids and labels** (shared by the booking and confirmation pages), modelled in `SeatCodes`: ids are "row-col"; labels are a row letter plus a 1-based column.
- **Confirmation page** (`src/pages/Confirmation.jsx`), modelled in `Confirmation`: the detail rows with their fallback texts, the optional payment and order rows, the test notice, and the text of the downloadable ticket.
- **Movie card** (`src/components/MovieCard.jsx`), modelled in `MovieCard`: `formatTime`, the choice of player, and the YouTube embed-URL rewriting.
- **Movie details page** (`src/pages/MovieDetails.jsx`), modelled in `MovieDetails`: the built-in database, lookup by route parameter, and `getRecommendations`.

Two support modules underlie the others:

- `Wrappers`: `Option`, `Take` (`slice(0, n)`), and sequence predicates.
- `JsStrings`: the JavaScript string and number operations the code relies on, each with its stated semantics.
  - `toLowerCase`, `includes`/`indexOf`.
  - `split` with a string separator, and `join`.
  - `replace` with a string pattern, which replaces the first occurrence only.
  - `trim`, with the ECMAScript white-space set.
  - `parseInt` with and without a radix, including the `0x` prefix and NaN.
  - `String(n)`, `String.fromCharCode`, and truthiness.

The external services are never called. TMDb discover, search and credits, and the generative model, are a `Sources` value. It says, for each request the route could send, whether the service throws or what it returns. A response that is the same for every choice of a service's behaviour is one that does not consult it.

The clock, `Math.random` and date formatting are parameters: `today`, the random draws, the random booking code, `now`, `generatedOn` and `formatDate`.

The imperative parts of the source are imperative here:

- **Methods proved equal to specification functions:**
  - `extractIntent` is a loop with `break` (`AgentChat.ExtractIntent`).
  - `findLocalMovies` (`AgentChat.FindLocalMovies`).
  - The early returns of `POST /chat` (`AgentChat.PostChat`).
  - The occupancy loop (`Booking.GenerateOccupiedSeats`).
- **Methods on a class:** the showtime routes are methods of `Showtimes.ShowtimeStore`, whose `Showtime` objects are updated in place.

## Model

| member | source | states |
|---|---|---|
| AgentChat.GenreIndexFrom | backend/routes/agentChat.js:43-48 | the index found is the first table entry, from the start index on, whose key occurs in the text; none when no key occurs |
| AgentChat.GenreIdFrom | backend/routes/agentChat.js:84 | `GENRE_MAP[genre]` is defined exactly for table keys and is that key's TMDb id |
| AgentChat.RunEnd | backend/routes/agentChat.js:39 | the greedy `[class]+` run: every character up to the end is in the class and the one at the end is not |
| AgentChat.LeftmostMatch | backend/routes/agentChat.js:60 | the match position found is the leftmost from which the expression matches |
| AgentChat.ExtractIntent | backend/routes/agentChat.js:36-63 | the loop with `break` and the if-chains compute exactly the intent `IntentOf` defines |
| AgentChat.GenreIsFirstKeyFound | backend/routes/agentChat.js:13-33 | the genre is the first `GENRE_MAP` key, in table order, occurring in the lower-cased text |
| AgentChat.NoGenreWithoutKey | backend/routes/agentChat.js:42-48 | with no key occurring the genre is null |
| AgentChat.ActionBeatsOtherGenres | backend/routes/agentChat.js:43-48 | a text naming "action" gets genre "action" whatever other genres it names |
| AgentChat.LanguagePriority | backend/routes/agentChat.js:50-53 | language is "hi" iff "hindi" occurs, "en" iff "english" but not "hindi", "fr" iff only "french", null otherwise |
| AgentChat.DatePriority | backend/routes/agentChat.js:55-58 | date is "today" iff "today" occurs, "tonight" iff "tonight" but not "today", "weekend" iff only "weekend", null otherwise |
| AgentChat.CaptureIsLeftmost | backend/routes/agentChat.js:39-40 | a regular-expression capture comes from the leftmost position where a match starts; there is none iff no position matches |
| AgentChat.CaptureAtShape | backend/routes/agentChat.js:60-61 | the captured group follows one of the alternatives and a space at the match position, and is the longest run of class characters starting there, non-empty |
| AgentChat.CaptureNoUpper | backend/routes/agentChat.js:37-39 | a group captured from lower-cased text has no upper-case letter |
| AgentChat.CapturedCityText | backend/routes/agentChat.js:39 | the city group has only lower-case letters and spaces |
| AgentChat.TrimmedCityText | backend/routes/agentChat.js:40 | trimming keeps city text to letters and spaces |
| AgentChat.CityIsOneLowerCaseWord | backend/routes/agentChat.js:39-40 | a city, when found, is one word of lower-case letters a–z, possibly empty (a capture of spaces trims to "") |
| AgentChat.TitleShape | backend/routes/agentChat.js:60-61 | a title, when found, is the trimmed capture: lower-case, no white space at either end, only title-class characters |
| AgentChat.LocalMatchesSpec | backend/routes/agentChat.js:65-77 | an entry is returned iff it is in the catalog and passes every truthy filter; the result is a subsequence of the catalog in catalog order |
| AgentChat.NoFilterKeepsCatalog | backend/routes/agentChat.js:66-76 | with no truthy filter the whole catalog is returned |
| AgentChat.FilterNarrows | backend/routes/agentChat.js:67-75 | one more filter stage is the same as matching with that filter added |
| AgentChat.FilterAppend | backend/routes/agentChat.js:68 | a filter stage distributes over concatenation, so order is kept |
| AgentChat.SameAdmitsSameMatches | backend/routes/agentChat.js:65-77 | two queries admitting the same entries give the same result |
| AgentChat.FindLocalMovies | backend/routes/agentChat.js:65-77 | the successive reassignments of `results` compute `LocalMatches` |
| AgentChat.ExactIndexFrom | backend/routes/agentChat.js:150 | `find` returns the first catalog entry whose Title equals the title case-insensitively |
| AgentChat.PostChat | backend/routes/agentChat.js:141-274 | the handler's sequence of early returns computes exactly the ordered chain `ChatReply` |
| AgentChat.PageOf | backend/routes/agentChat.js:280 | the page used is never 0 |
| AgentChat.EmptyMessageRefused | backend/routes/agentChat.js:144 | a missing or empty message gets 400 with the fixed reply |
| AgentChat.ExactLocalTitleWins | backend/routes/agentChat.js:149-167 | an exact local title match answers with that entry alone, whatever the external sources would do |
| AgentChat.DiscoveryNeedsFilters | backend/routes/agentChat.js:171 | without genre, language or date the discovery branch does not answer, and the chain does not depend on the discover service |
| AgentChat.DiscoveryAnswers | backend/routes/agentChat.js:174-188 | a non-empty discovery result answers with its first min(5, n) results in order, normalised |
| AgentChat.EmptyDiscoveryFallsThrough | backend/routes/agentChat.js:175-211 | an empty discovery result does not use the local fallback; the chain goes on to the title branch |
| AgentChat.DiscoveryFallback | backend/routes/agentChat.js:189-210 | a throwing discovery uses the local genre and language matches, at most 5, when there are any, and otherwise falls through |
| AgentChat.LocalOnlyAfterThrow | backend/routes/agentChat.js:175-211 | when discovery returns, the branch never answers from the local catalog |
| AgentChat.TitleSearchAnswers | backend/routes/agentChat.js:214-234 | a title search with results answers with the first result and its cast |
| AgentChat.CastRules | backend/routes/agentChat.js:106-115 | at most 8 cast members, the first ones in order, with a null profile exactly when `profile_path` is falsy; a failed lookup gives no cast |
| AgentChat.NormalisationRules | backend/routes/agentChat.js:176-183 | the year is the first min(4, length) characters of a truthy release date, and empty otherwise; the poster is the w500 URL exactly for a truthy poster path |
| AgentChat.GenerativeWhenNothingElse | backend/routes/agentChat.js:259-269 | with no filters and no title the generative model decides the reply |
| AgentChat.GenerativeRules | backend/routes/agentChat.js:260-273 | empty generated text gives the fixed apology; a throw gives 500 with the fixed reply; no movies are attached |
| AgentChat.EmptyTitleIsNoTitle | backend/routes/agentChat.js:61 | an empty title behaves exactly like no title |
| AgentChat.DiscoverRequest | backend/routes/agentChat.js:80-90 | the discover request carries the genre id exactly for a genre, the language, a date bound exactly for "today", and the page |
| AgentChat.DiscoverReplyMentionsFilters | backend/routes/agentChat.js:185 | the discovery reply names the genre, language and date when they are set |
| AgentChat.MoreWithoutFilters | backend/routes/agentChat.js:283-304 | `/chat/more` without filters returns no movies and does not depend on the discover service |
| AgentChat.MorePage | backend/routes/agentChat.js:277-308 | the page asked for is the parsed page, or 1 for NaN and 0; at most 5 movies; 500 exactly when discovery throws |
| Showtimes.Showtime.constructor | backend/routes/showtimes.js:37 | a new showtime holds the given fields and an empty booked list |
| Showtimes.ExceptSpec | backend/routes/showtimes.js:52 | `filter(s => !ys.includes(s))` keeps exactly the elements not in ys, in order |
| Showtimes.NoneUnavailableIff | backend/routes/showtimes.js:52-53 | nothing is unavailable iff every requested seat is available |
| Showtimes.ExceptAppend | backend/routes/showtimes.js:57 | the filter distributes over concatenation |
| Showtimes.ExceptCons | backend/routes/showtimes.js:57 | removing a list of seats is removing its first seat and then the rest |
| Showtimes.ExceptAbsent | backend/routes/showtimes.js:57 | removing absent seats changes nothing |
| Showtimes.ExceptOne | backend/routes/showtimes.js:57 | removing one present seat from a distinct list shortens it by one |
| Showtimes.ExceptDistinct | backend/routes/showtimes.js:57 | filtering keeps a list distinct |
| Showtimes.BookingConservesSeats | backend/routes/showtimes.js:52-58 | with distinct lists and all seats available, available plus booked keeps its size |
| Showtimes.AfterBooking | backend/routes/showtimes.js:57-58 | after a booking no requested seat is available and every requested seat is booked |
| Showtimes.BookingKeepsConsistent | backend/routes/showtimes.js:52-58 | a booking of distinct available seats keeps the available and booked lists disjoint and distinct |
| Showtimes.MatchingSpec | backend/routes/showtimes.js:13 | a showtime is listed iff it matches every field the filter names, in stored order |
| Showtimes.ShowtimeStore.constructor | backend/routes/showtimes.js:3 | the store starts empty |
| Showtimes.ShowtimeStore.LookupFrom | backend/routes/showtimes.js:25 | `findById` from an index finds the first stored showtime with that id, or none has it |
| Showtimes.ShowtimeStore.Lookup | backend/routes/showtimes.js:49 | `findById` finds the first stored showtime with that id, or none has it |
| Showtimes.ShowtimeStore.ListShowtimes | backend/routes/showtimes.js:6-18 | the filter names only the truthy query fields; every listed showtime matches them all, in stored order |
| Showtimes.ShowtimeStore.Seats | backend/routes/showtimes.js:21-31 | 400 iff there is no id, 404 iff no showtime has it, and otherwise the two seat lists of that showtime |
| Showtimes.ShowtimeStore.PostShowtime | backend/routes/showtimes.js:34-43 | 400 with nothing stored when a required field is missing; otherwise 201 with a new showtime appended whose booked list is empty |
| Showtimes.ShowtimeStore.PostBook | backend/routes/showtimes.js:46-64 | 404 for an unknown id; 500 without a seat list; 400 with the unavailable seats in request order and nothing changed; otherwise available minus the requested seats and booked plus them in request order, the showtime's movie, theater, date and time unchanged; no other showtime changes |
| Booking.CollectedSpec | src/pages/Booking.jsx:21-23 | the accumulated ids are distinct, exactly the drawn ones, and no more than the draws |
| Booking.GenerateOccupiedSeats | src/pages/Booking.jsx:11-27 | the loop returns the distinct drawn ids in first-draw order: at most 16, each a seat of the 10×8 plan, every draw present |
| Booking.RemoveSpec | src/pages/Booking.jsx:74 | `filter(s => s !== id)` removes exactly that id, keeps the order of the rest, and keeps a list distinct |
| Booking.ToggleRules | src/pages/Booking.jsx:66-79 | an occupied seat leaves the selection unchanged; a selected seat is removed and the rest keep their order; another seat is appended at the end |
| Booking.ToggleKeepsValid | src/pages/Booking.jsx:70-78 | a toggle keeps the selection distinct and free of occupied seats |
| Booking.SelectionAlwaysValid | src/pages/Booking.jsx:33 | from the empty selection, any sequence of clicks gives a distinct, unoccupied selection of clicked seats |
| Booking.ToggleTwiceRestores | src/pages/Booking.jsx:72-78 | toggling a free, unselected seat twice restores the selection exactly |
| Booking.RemoveAppended | src/pages/Booking.jsx:74-76 | removing a just-appended seat gives the list before it |
| Booking.StatusPriority | src/pages/Booking.jsx:89-94 | occupied iff occupied, selected iff selected and not occupied, available otherwise |
| Booking.SelectedSeatsShowSelected | src/pages/Booking.jsx:85-94 | every seat of a valid selection is shown as selected |
| Booking.TotalReadsBack | src/pages/Booking.jsx:96-98 | the total is a numeral, a point and two digits that read back as seats × 1299 cents |
| Booking.SummaryRules | src/pages/Booking.jsx:223-228 | no seats shows "None selected"; otherwise the labels, one per seat in order, joined by ", " |
| Booking.ConfirmRules | src/pages/Booking.jsx:100-122 | an empty selection only alerts and stores nothing; otherwise one record with the seats, the total and a "BK-" id is stored and shown |
| SeatCodes.LabelsOf | src/pages/Confirmation.jsx:130-134 | one label per seat |
| SeatCodes.ParseSeatIdRoundTrip | src/pages/Confirmation.jsx:34-35 | splitting a "row-col" id at '-' and parsing both halves gives back the row and column |
| SeatCodes.SeatLabelOfId | src/pages/Confirmation.jsx:33-36 | the label of seat (row, col) is the character with code 65 + row followed by the numeral of col + 1 |
| SeatCodes.FirstSeatId | src/pages/Booking.jsx:68 | the first seat has id "0-0" |
| SeatCodes.FirstRowLabels | src/pages/Confirmation.jsx:131-134 | row 0 is shown with the letter A and the 1-based column |
| SeatCodes.SeatLabelsDistinct | src/pages/Confirmation.jsx:131-134 | two different seats of a plan with at most 26 rows never share a label |
| SeatCodes.SeatIds | src/pages/Booking.jsx:19 | one id per cell |
| SeatCodes.LabelHasNoComma | src/pages/Confirmation.jsx:133-134 | a label holds no comma, so the joined list can be split again |
| SeatCodes.SeatLabelsInOrder | src/pages/Confirmation.jsx:130-134 | the joined labels split at ", " into each seat's label, in seat order |
| Confirmation.NoBookingRules | src/pages/Confirmation.jsx:17-18 | without a booking the page says so and no ticket is produced |
| Confirmation.FallbackTexts | src/pages/Confirmation.jsx:85-146 | missing booking id, movie name, date, showtime, seats and total show their fixed fallback texts; a present total is shown after the rupee sign |
| Confirmation.SeatsRowLabels | src/pages/Confirmation.jsx:126-138 | the seats row of a booking from the seating plan splits into one label per seat, in order |
| Confirmation.OptionalRows | src/pages/Confirmation.jsx:148-166 | the payment and order rows appear exactly when those ids are truthy, after the six fixed rows |
| Confirmation.FixedRowFields | src/pages/Confirmation.jsx:80-146 | the six fixed rows show neither a payment nor an order id |
| Confirmation.OptionalRowsAfter | src/pages/Confirmation.jsx:148-166 | after any six other rows, the optional rows are present exactly for truthy values, payment first |
| Confirmation.FieldsOfRows | src/pages/Confirmation.jsx:80-167 | a field is shown in two groups of rows iff it is shown in one of them |
| Confirmation.TestNotice | src/pages/Confirmation.jsx:169-173 | the test-payment notice is shown exactly for test payments |
| Confirmation.TicketContents | src/pages/Confirmation.jsx:17-44 | a ticket exists exactly when movie and seats are present; it holds the seats line, and the payment and order lines when those ids are truthy |
| Confirmation.ConfirmedBookingShown | src/pages/Booking.jsx:106-121 | a booking confirmed on the booking page shows its "BK-" id, its seat labels and its total, no payment or order row, no test notice, and can be downloaded |
| MovieCard.FormatTimeReadsBack | src/components/MovieCard.jsx:6-10 | the time is the minutes numeral, ':' and two digits below 60, and reading both back gives minutes × 60 + seconds = the input |
| MovieCard.FormatTimePadding | src/components/MovieCard.jsx:9 | seconds below ten are zero-padded; the minutes are never padded |
| MovieCard.PlayerChoice | src/components/MovieCard.jsx:151-179 | an iframe exactly for URLs naming youtube.com or youtu.be, an HTML5 video of the URL itself otherwise, nothing without a URL |
| MovieCard.WatchUrlRule | src/components/MovieCard.jsx:161-162 | a watch URL becomes the replaced URL up to its first '&' (all of it without one), holding no '&'; it is used even when youtu.be/ also occurs |
| MovieCard.WatchReplacementShape | src/components/MovieCard.jsx:162 | the first "watch?v=" is replaced by "embed/" and the rest is kept |
| MovieCard.ShortUrlRule | src/components/MovieCard.jsx:163-164 | a youtu.be URL becomes the embed base followed by the text after the first "youtu.be/", up to the next "youtu.be/" (or the end) and then up to its first '?' (or its end) |
| MovieCard.PieceOfRest | src/components/MovieCard.jsx:164 | the video id is a prefix of the text after "youtu.be/", holding no '?' |
| MovieCard.OtherYouTubeUrlUnchanged | src/components/MovieCard.jsx:165-166 | any other YouTube URL is embedded unchanged |
| MovieDetails.Values | src/pages/MovieDetails.jsx:45 | `Object.values` lists one movie per key |
| MovieDetails.OthersSpec | src/pages/MovieDetails.jsx:46 | the filter keeps exactly the movies with another id, in order |
| MovieDetails.OthersCount | src/pages/MovieDetails.jsx:46 | with distinct ids, filtering a present id drops exactly one movie |
| MovieDetails.RecommendationsRules | src/pages/MovieDetails.jsx:44-47 | recommendations never include the current movie, are at most 3, keep database order, and number min(3, other movies) |
| MovieDetails.RecommendationCount | src/pages/MovieDetails.jsx:44-47 | for a movie of a database with distinct ids, min(3, size − 1) movies are recommended |
| MovieDetails.LookupKey | src/pages/MovieDetails.jsx:58 | a lookup finds the entry with that key, or no entry has it |
| MovieDetails.UnknownIdKeepsLoading | src/pages/MovieDetails.jsx:58-67 | an id naming no key leaves the page loading, with no recommendations |
| MovieDetails.KnownKeyLoads | src/pages/MovieDetails.jsx:58-62 | a key's numeral loads that movie beside its recommendations |
| MovieDetails.BuiltInDatabase | src/pages/MovieDetails.jsx:7-47 | the built-in keys ascend, and each built-in movie is recommended on the other's page |
| JsStrings.IndexFrom | backend/routes/agentChat.js:44 | `indexOf` from an index finds the first occurrence at or after it, or there is none |
| JsStrings.ContainsIff | backend/routes/agentChat.js:44 | `includes` holds exactly when there is an occurrence |
| JsStrings.Split | src/pages/Confirmation.jsx:34 | `split` yields at least one piece, and at least two when the separator occurs |
| JsStrings.SplitJoin | src/pages/Confirmation.jsx:130-134 | splitting a join of separator-free parts gives the parts back |
| JsStrings.TrimShape | backend/routes/agentChat.js:61 | `trim` yields an infix of its input with no white space at either end |
| JsStrings.NatToString | src/pages/Booking.jsx:19 | `String(n)` is a non-empty run of digits with no leading zero |
| JsStrings.NatToStringValue | src/pages/Confirmation.jsx:35 | a numeral reads back as its number |
| JsStrings.NatToStringInjective | src/pages/Confirmation.jsx:133 | different numbers have different numerals |
| JsStrings.ParseIntNatToString | src/pages/Confirmation.jsx:35 | `parseInt` of a numeral gives its number |
| JsStrings.PadTwo | src/components/MovieCard.jsx:9 | the two-digit rendering of a number below 100 |
| JsStrings.FromCharCodeBelowSurrogates | src/pages/Confirmation.jsx:35 | `String.fromCharCode` of a code below the surrogates is that character |
| Wrappers.Take | src/pages/MovieDetails.jsx:46 | `slice(0, n)` is a prefix of length min(n, size) |
| Wrappers.NoDuplicatesAppend | src/pages/Booking.jsx:21-22 | a concatenation is distinct iff both parts are distinct and disjoint |

## Left out

- Case folding: `toLowerCase` is modelled on the ASCII letters only; other characters are kept.
- Strings are sequences of Unicode scalar values, one per `char`, while JavaScript strings are UTF-16 code units. Text outside the Basic Multilingual Plane, such as the ticket's emoji, is one `char` here and two code units there; no contract depends on the length of such text. A lone surrogate from `String.fromCharCode` cannot be a `char` and becomes U+FFFD.
- Money is integer cents. `SEAT_PRICE` 12.99 becomes 1299 cents, and `toFixed(2)` becomes the exact rendering of the cent amount. Floating-point rounding is not modelled.
- `formatTime` is modelled on whole non-negative seconds. Fractional and negative times are not.
- Randomness, the clock and locale formatting are parameters:
  - `Math.random` gives the occupancy draws and the booking code.
  - `new Date()` gives `today`, `now` and `generatedOn`.
  - `toLocaleDateString` is `formatDate`.
- The date and showtime set by the booking page's mount effect are parameters of the confirmation.
- The TMDb and generative-model HTTP calls are the `Sources` parameter. Left out with them: the system persona text, logging, the trailer and cast proxy endpoints (agentChat.js:312-338), and the request parameters not affecting the result (API key, sort order).
- Only the catalog fields the routes read are modelled; the contents of the local movie file are a parameter.
- Mongoose behaviour is left out:
  - casting an id to an ObjectId (a malformed id is a `CastError` and a 500);
  - `populate` of the listing;
  - a failing `save`;
  - schema validation other than the four required fields of a new showtime.
- Concurrency: the read-modify-write race of concurrent `/book` requests.
- Browser-side effects: `localStorage` (the booking history is a sequence), the `alert` text, navigation, the Blob download and its file name, and video controls.
- Non-string request values (numbers or objects in the JSON body) are not modelled.
- `parseInt` of numerals beyond 2^53, and `String` of numbers needing an exponent, are not modelled.
- Showtimes.BookingConservesSeats: requires distinct available and requested seats. For available ["x", "x"] and seats ["x"], the filter removes both copies and the sum shrinks.
- SeatCodes.SeatLabelOfId: requires 65 + row below the surrogate range, and the seating plan's labels use rows below 26. Beyond that, `fromCharCode` wraps modulo 2^16, which `LabelOfParsed` states but no lemma describes.
- MovieDetails.UnknownIdKeepsLoading: `DetailsPage` renders each route id from fresh component state. The page never clears `movie` (MovieDetails.jsx:56-63), so moving from a known id to an unknown one keeps showing the previous movie; that sequence of renders is not modelled.
- MovieDetails.KnownKeyLoads: stated for keys written as plain numerals. Other strings that `parseInt` reads as the key (leading spaces or zeros, a sign, trailing text) are covered by `DetailsPage` but not by a lemma.

## Behaviour worth noting

- An empty but successful discovery result goes on to the title branch, not to the local catalog.
- "Suggest an action movie to watch tonight" has the title "to watch tonight". The leftmost `movie|film|watch|show` followed by a space starts a title capture, so the message is not treated as having no title.
