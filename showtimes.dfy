/**
 * Showtimes and their seats (backend/routes/showtimes.js). A showtime document holds the
 * seats still for sale and the seats already sold; booking moves the requested seats from
 * the first list to the second in place, all or nothing.
 *
 * The collection is a store object holding the documents in insertion order; a document is
 * found by its id. Object ids are strings here, and reading and saving a document are the
 * store's lookup and the in-place update of the object found.
 */
module Showtimes {
  import opened Wrappers
  import opened JsStrings

  /** A showtime document. Its id never changes; every other field may be assigned. */
  class Showtime {
    const id: string
    var movie: string
    var theater: string
    var date: string
    var time: string
    var availableSeats: seq<string>
    var bookedSeats: seq<string>

    /** No seat is listed twice, and none is both for sale and sold. */
    predicate Consistent()
      reads this
    {
      NoDuplicates(availableSeats + bookedSeats)
    }

    constructor (id: string, movie: string, theater: string, date: string, time: string, availableSeats: seq<string>)
      ensures this.id == id && this.movie == movie && this.theater == theater
      ensures this.date == date && this.time == time
      ensures this.availableSeats == availableSeats && this.bookedSeats == []
    {
      this.id := id;
      this.movie := movie;
      this.theater := theater;
      this.date := date;
      this.time := time;
      this.availableSeats := availableSeats;
      this.bookedSeats := [];
    }
  }

  // =======================================================================================
  // Seat lists

  /** `xs.filter(x => !ys.includes(x))`: the elements of `xs` not in `ys`, in order. */
  function Except(xs: seq<string>, ys: seq<string>): seq<string>
    decreases |xs|
  {
    if xs == [] then []
    else (if xs[0] in ys then [] else [xs[0]]) + Except(xs[1..], ys)
  }

  /** `Except` keeps exactly the elements of `xs` outside `ys`, in their order. */
  lemma {:induction false} ExceptSpec(xs: seq<string>, ys: seq<string>)
    ensures forall x :: x in Except(xs, ys) <==> x in xs && x !in ys
    ensures IsSubsequence(Except(xs, ys), xs)
    ensures |Except(xs, ys)| <= |xs|
    decreases |xs|
  {
    if xs != [] {
      ExceptSpec(xs[1..], ys);
      assert xs == [xs[0]] + xs[1..];
      var rest := Except(xs[1..], ys);
      if xs[0] in ys {
        assert Except(xs, ys) == rest;
        SubsequenceCons(rest, xs[0], xs[1..]);
      } else {
        assert Except(xs, ys) == [xs[0]] + rest;
        assert Except(xs, ys)[1..] == rest;
      }
    }
  }

  /** Nothing is reported unavailable exactly when every requested seat is for sale. */
  lemma NoneUnavailableIff(seats: seq<string>, available: seq<string>)
    ensures Except(seats, available) == [] <==> forall s :: s in seats ==> s in available
  {
    ExceptSpec(seats, available);
    if Except(seats, available) != [] {
      assert Except(seats, available)[0] in Except(seats, available);
    }
  }

  lemma {:induction false} ExceptAppend(a: seq<string>, b: seq<string>, ys: seq<string>)
    ensures Except(a + b, ys) == Except(a, ys) + Except(b, ys)
    decreases |a|
  {
    if a == [] {
      assert a + b == b;
    } else {
      assert (a + b)[0] == a[0];
      assert (a + b)[1..] == a[1..] + b;
      ExceptAppend(a[1..], b, ys);
      var head := if a[0] in ys then [] else [a[0]];
      assert Except(a + b, ys) == head + Except(a[1..] + b, ys);
      assert Except(a, ys) == head + Except(a[1..], ys);
    }
  }

  /** Removing the seats `[x] + r` is removing `x` and then the seats `r`. */
  lemma {:induction false} ExceptCons(a: seq<string>, x: string, r: seq<string>)
    ensures Except(a, [x] + r) == Except(Except(a, [x]), r)
    decreases |a|
  {
    if a != [] {
      var h, t := a[0], a[1..];
      ExceptCons(t, x, r);
      assert a == [h] + t;
      ExceptAppend(if h in [x] then [] else [h], Except(t, [x]), r);
      assert Except([h], r) == (if h in r then [] else [h]) + Except([], r);
    }
  }

  lemma {:induction false} ExceptAbsent(xs: seq<string>, ys: seq<string>)
    requires forall x :: x in xs ==> x !in ys
    ensures Except(xs, ys) == xs
    decreases |xs|
  {
    if xs != [] {
      ExceptAbsent(xs[1..], ys);
      assert xs == [xs[0]] + xs[1..];
    }
  }

  /** Removing one seat listed once shortens the list by one. */
  lemma {:induction false} ExceptOne(a: seq<string>, x: string)
    requires x in a && NoDuplicates(a)
    ensures |Except(a, [x])| == |a| - 1
    decreases |a|
  {
    var h, t := a[0], a[1..];
    assert a == [h] + t;
    NoDuplicatesAppend([h], t);
    if h == x {
      ExceptAbsent(t, [x]);
    } else {
      ExceptOne(t, x);
    }
  }

  lemma {:induction false} ExceptDistinct(xs: seq<string>, ys: seq<string>)
    requires NoDuplicates(xs)
    ensures NoDuplicates(Except(xs, ys))
    decreases |xs|
  {
    if xs != [] {
      var h, t := xs[0], xs[1..];
      assert xs == [h] + t;
      NoDuplicatesAppend([h], t);
      ExceptDistinct(t, ys);
      ExceptSpec(t, ys);
      var head := if h in ys then [] else [h];
      NoDuplicatesAppend(head, Except(t, ys));
    }
  }

  /**
   * Booking distinct seats, all for sale, from a list with no repeats keeps the number of
   * seats: what leaves the available list is exactly what joins the booked list.
   */
  lemma {:induction false} BookingConservesSeats(available: seq<string>, seats: seq<string>)
    requires NoDuplicates(available) && NoDuplicates(seats)
    requires Except(seats, available) == []
    ensures |Except(available, seats)| + |seats| == |available|
    decreases |seats|
  {
    NoneUnavailableIff(seats, available);
    if seats == [] {
      ExceptAbsent(available, seats);
    } else {
      var x, r := seats[0], seats[1..];
      assert seats == [x] + r;
      NoDuplicatesAppend([x], r);
      ExceptCons(available, x, r);
      var rest := Except(available, [x]);
      ExceptOne(available, x);
      ExceptDistinct(available, [x]);
      ExceptSpec(available, [x]);
      NoneUnavailableIff(r, rest);
      BookingConservesSeats(rest, r);
    }
  }

  /** After a booking no requested seat is for sale and every requested seat is sold. */
  lemma AfterBooking(available: seq<string>, booked: seq<string>, seats: seq<string>)
    ensures forall s :: s in seats ==> s !in Except(available, seats) && s in booked + seats
  {
    ExceptSpec(available, seats);
  }

  /** A booking of distinct seats, all for sale, keeps a consistent showtime consistent. */
  lemma BookingKeepsConsistent(available: seq<string>, booked: seq<string>, seats: seq<string>)
    requires NoDuplicates(available + booked) && NoDuplicates(seats)
    requires Except(seats, available) == []
    ensures NoDuplicates(Except(available, seats) + (booked + seats))
  {
    NoDuplicatesAppend(available, booked);
    NoneUnavailableIff(seats, available);
    ExceptSpec(available, seats);
    ExceptDistinct(available, seats);
    NoDuplicatesAppend(booked, seats);
    NoDuplicatesAppend(Except(available, seats), booked + seats);
  }

  // =======================================================================================
  // The routes

  /** The `find` filter: only the query fields that were supplied. */
  datatype Filter = Filter(movie: Option<string>, theater: Option<string>, date: Option<string>)

  predicate Agrees(field: string, wanted: Option<string>) {
    wanted.None? || field == wanted.value
  }

  /** The reply of `GET /seats`. */
  datatype SeatsReply =
    | MissingId          // 400 'Showtime ID required'
    | UnknownShowtime    // 404 'Showtime not found'
    | SeatLists(availableSeats: seq<string>, bookedSeats: seq<string>)

  /** The reply of `POST /book`. */
  datatype BookReply =
    | ShowtimeNotFound                      // 404
    | BookingFailed                         // 500: the request has no seat list
    | SeatsTaken(unavailable: seq<string>)  // 400 'Some seats are already booked'
    | Booked(showtime: Showtime)            // 200 {success: true, showtime}

  /** The documents of `sts` matching every field the filter names, in order. */
  function Matching(sts: seq<Showtime>, f: Filter): seq<Showtime>
    reads sts
    decreases |sts|
  {
    if sts == [] then []
    else
      var st := sts[0];
      (if Agrees(st.movie, f.movie) && Agrees(st.theater, f.theater) && Agrees(st.date, f.date)
       then [st] else []) + Matching(sts[1..], f)
  }

  lemma {:induction false} MatchingSpec(sts: seq<Showtime>, f: Filter)
    ensures forall st :: st in Matching(sts, f) <==>
      st in sts && Agrees(st.movie, f.movie) && Agrees(st.theater, f.theater) && Agrees(st.date, f.date)
    ensures IsSubsequence(Matching(sts, f), sts)
    decreases |sts|
  {
    if sts != [] {
      MatchingSpec(sts[1..], f);
      assert sts == [sts[0]] + sts[1..];
      var st, rest := sts[0], Matching(sts[1..], f);
      if Agrees(st.movie, f.movie) && Agrees(st.theater, f.theater) && Agrees(st.date, f.date) {
        assert Matching(sts, f) == [st] + rest;
        assert Matching(sts, f)[1..] == rest;
      } else {
        assert Matching(sts, f) == rest;
        SubsequenceCons(rest, st, sts[1..]);
      }
    }
  }

  /** The showtimes collection. */
  class ShowtimeStore {
    var showtimes: seq<Showtime>

    constructor ()
      ensures showtimes == []
    {
      showtimes := [];
    }

    /** `findById(id)`: the first document with that id; `undefined` finds nothing. */
    function LookupFrom(id: Option<string>, k: nat): (r: Option<Showtime>)
      requires k <= |showtimes|
      reads this
      decreases |showtimes| - k
      ensures r.Some? ==> r.value in showtimes[k..] && id == Some(r.value.id)
      ensures r.Some? ==> exists j :: k <= j < |showtimes| && showtimes[j] == r.value &&
                                  forall i :: k <= i < j ==> id != Some(showtimes[i].id)
      ensures r.None? ==> forall j :: k <= j < |showtimes| ==> id != Some(showtimes[j].id)
    {
      if k == |showtimes| then None
      else if id == Some(showtimes[k].id) then Some(showtimes[k])
      else LookupFrom(id, k + 1)
    }

    function Lookup(id: Option<string>): (r: Option<Showtime>)
      reads this
      ensures r.Some? ==> r.value in showtimes && id == Some(r.value.id)
      ensures r.Some? ==> exists j :: 0 <= j < |showtimes| && showtimes[j] == r.value &&
                                  forall i :: 0 <= i < j ==> id != Some(showtimes[i].id)
      ensures r.None? ==> forall st :: st in showtimes ==> id != Some(st.id)
    {
      LookupFrom(id, 0)
    }

    /** `GET /?movie&theater&date`: the filter names only the truthy query fields. */
    method ListShowtimes(movie: Option<string>, theater: Option<string>, date: Option<string>)
      returns (result: seq<Showtime>)
      ensures forall st :: st in result <==> (st in showtimes &&
        (Truthy(movie) ==> st.movie == movie.value) &&
        (Truthy(theater) ==> st.theater == theater.value) &&
        (Truthy(date) ==> st.date == date.value))
      ensures IsSubsequence(result, showtimes)
    {
      var filter := Filter(None, None, None);
      if Truthy(movie) {
        filter := filter.(movie := movie);
      }
      if Truthy(theater) {
        filter := filter.(theater := theater);
      }
      if Truthy(date) {
        filter := filter.(date := date);
      }
      result := Matching(showtimes, filter);
      MatchingSpec(showtimes, filter);
    }

    /** `GET /seats?showtime=id`. */
    function Seats(showtime: Option<string>): (r: SeatsReply)
      reads this, showtimes
      ensures !Truthy(showtime) <==> r == MissingId
      ensures r == UnknownShowtime <==> Truthy(showtime) && Lookup(showtime).None?
      ensures r.SeatLists? ==> exists st :: (st in showtimes && showtime == Some(st.id) &&
        r == SeatLists(st.availableSeats, st.bookedSeats))
    {
      if !Truthy(showtime) then MissingId
      else match Lookup(showtime)
        case None => UnknownShowtime
        case Some(st) => SeatLists(st.availableSeats, st.bookedSeats)
    }

    /**
     * `POST /` with `{movie, theater, date, time, availableSeats}`: a missing required field
     * fails validation (400); otherwise a new document with no sold seats is stored (201).
     * `id` is the object id the new document receives.
     */
    method PostShowtime(id: string, movie: Option<string>, theater: Option<string>, date: Option<string>,
                        time: Option<string>, availableSeats: Option<seq<string>>)
      returns (status: int, created: Option<Showtime>)
      modifies this
      ensures !(Truthy(movie) && Truthy(theater) && Truthy(date) && Truthy(time)) ==>
        status == 400 && created == None && showtimes == old(showtimes)
      ensures Truthy(movie) && Truthy(theater) && Truthy(date) && Truthy(time) ==>
        status == 201 && created.Some? && fresh(created.value) &&
        showtimes == old(showtimes) + [created.value] &&
        created.value.id == id && created.value.movie == movie.value &&
        created.value.theater == theater.value && created.value.date == date.value &&
        created.value.time == time.value &&
        created.value.availableSeats == availableSeats.GetOr([]) &&
        created.value.bookedSeats == []
    {
      if !(Truthy(movie) && Truthy(theater) && Truthy(date) && Truthy(time)) {
        return 400, None;
      }
      var st := new Showtime(id, movie.value, theater.value, date.value, time.value, availableSeats.GetOr([]));
      showtimes := showtimes + [st];
      return 201, Some(st);
    }

    /**
     * `POST /book` with `{showtimeId, seats}`: all requested seats move from the available
     * to the booked list of the showtime, or, when some is not for sale, none does and the
     * reply lists those seats in request order. No other document changes.
     */
    method PostBook(showtimeId: Option<string>, seats: Option<seq<string>>) returns (reply: BookReply)
      modifies showtimes
      ensures showtimes == old(showtimes)
      ensures Lookup(showtimeId).None? ==> reply == ShowtimeNotFound
      ensures Lookup(showtimeId).Some? && seats.None? ==> reply == BookingFailed
      ensures Lookup(showtimeId).Some? && seats.Some? ==>
        var st := Lookup(showtimeId).value;
        var unavailable := Except(seats.value, old(st.availableSeats));
        if unavailable != [] then
          reply == SeatsTaken(unavailable) &&
          st.availableSeats == old(st.availableSeats) && st.bookedSeats == old(st.bookedSeats)
        else
          reply == Booked(st) &&
          st.movie == old(st.movie) && st.theater == old(st.theater) &&
          st.date == old(st.date) && st.time == old(st.time) &&
          st.availableSeats == Except(old(st.availableSeats), seats.value) &&
          st.bookedSeats == old(st.bookedSeats) + seats.value
      ensures forall other :: other in showtimes && Lookup(showtimeId) != Some(other) ==> unchanged(other)
      ensures !reply.Booked? ==> forall other :: other in showtimes ==> unchanged(other)
      ensures reply.Booked? && NoDuplicates(seats.value) && old(reply.showtime.Consistent()) ==>
        reply.showtime.Consistent()
    {
      var found := Lookup(showtimeId);
      if found.None? {
        return ShowtimeNotFound;
      }
      var st := found.value;
      if seats.None? {
        return BookingFailed;
      }
      var unavailable := Except(seats.value, st.availableSeats);
      if unavailable != [] {
        return SeatsTaken(unavailable);
      }
      var available, booked := st.availableSeats, st.bookedSeats;
      if NoDuplicates(available + booked) && NoDuplicates(seats.value) {
        BookingKeepsConsistent(available, booked, seats.value);
      }
      st.availableSeats := Except(st.availableSeats, seats.value);
      st.bookedSeats := st.bookedSeats + seats.value;
      reply := Booked(st);
    }
  }
}
