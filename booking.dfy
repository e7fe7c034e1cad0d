/**
 * The seat-selection page (src/pages/Booking.jsx): a 10 by 8 seating plan in which some
 * seats are already taken, a selection the user toggles seat by seat, the price of the
 * selection in integer cents, and the booking record the page stores and passes on.
 *
 * The random draws of the demo occupancy, the random booking code and the clock are
 * parameters; the booking history kept in the browser's storage is a sequence.
 */
module Booking {
  import opened Wrappers
  import opened JsStrings
  import opened SeatCodes

  const Rows: nat := 10
  const Cols: nat := 8
  const SeatPriceCents: nat := 1299

  /** `Math.floor(ROWS * COLS * 0.2)`: a fifth of the plan, 16 seats. */
  const OccupiedCount: nat := Rows * Cols * 20 / 100

  /** The id names a seat of the plan. */
  predicate OnPlan(id: string) {
    exists r: nat, c: nat :: r < Rows && c < Cols && id == SeatId(r, c)
  }

  // =======================================================================================
  // Demo occupancy

  /** `if (!acc.includes(id)) acc.push(id)`. */
  function AddNew(acc: seq<string>, id: string): seq<string> {
    if id in acc then acc else acc + [id]
  }

  /** The ids in order of first appearance, each once: what the occupancy loop accumulates. */
  function Collected(ids: seq<string>): seq<string>
    decreases |ids|
  {
    if ids == [] then [] else AddNew(Collected(ids[..|ids| - 1]), ids[|ids| - 1])
  }

  lemma {:induction false} CollectedSpec(ids: seq<string>)
    ensures NoDuplicates(Collected(ids))
    ensures forall id :: id in Collected(ids) <==> id in ids
    ensures |Collected(ids)| <= |ids|
    decreases |ids|
  {
    if ids != [] {
      var front, last := ids[..|ids| - 1], ids[|ids| - 1];
      CollectedSpec(front);
      assert ids == front + [last];
      if last !in Collected(front) {
        NoDuplicatesAppend(Collected(front), [last]);
      }
    }
  }

  /**
   * `generateOccupiedSeats`: `draws[i]` is the (row, column) of the i-th iteration's two
   * random draws; a seat drawn twice is kept once.
   */
  method GenerateOccupiedSeats(draws: seq<(nat, nat)>) returns (occupied: seq<string>)
    requires |draws| == OccupiedCount
    requires forall i :: 0 <= i < |draws| ==> draws[i].0 < Rows && draws[i].1 < Cols
    ensures occupied == Collected(SeatIds(draws))
    ensures NoDuplicates(occupied) && |occupied| <= 16
    ensures forall id :: id in occupied ==> OnPlan(id)
    ensures forall i :: 0 <= i < |draws| ==> SeatId(draws[i].0, draws[i].1) in occupied
  {
    var ids := SeatIds(draws);
    occupied := [];
    var i := 0;
    while i < OccupiedCount
      invariant 0 <= i <= OccupiedCount
      invariant occupied == Collected(ids[..i])
    {
      var row := draws[i].0;
      var col := draws[i].1;
      var seatId := SeatId(row, col);
      if seatId !in occupied {
        occupied := occupied + [seatId];
      }
      assert ids[..i + 1][..i] == ids[..i];
      i := i + 1;
    }
    assert ids[..i] == ids;
    CollectedSpec(ids);
    forall id | id in occupied ensures OnPlan(id) {
      var k :| 0 <= k < |ids| && ids[k] == id;
      assert id == SeatId(draws[k].0, draws[k].1);
    }
    forall i | 0 <= i < |draws| ensures SeatId(draws[i].0, draws[i].1) in occupied {
      assert ids[i] == SeatId(draws[i].0, draws[i].1);
    }
  }

  // =======================================================================================
  // Selection

  /** `xs.filter(s => s !== x)`. */
  function Remove(xs: seq<string>, x: string): seq<string>
    decreases |xs|
  {
    if xs == [] then [] else (if xs[0] == x then [] else [xs[0]]) + Remove(xs[1..], x)
  }

  lemma {:induction false} RemoveSpec(xs: seq<string>, x: string)
    ensures forall y :: y in Remove(xs, x) <==> y in xs && y != x
    ensures NoDuplicates(xs) ==> NoDuplicates(Remove(xs, x))
    ensures x !in xs ==> Remove(xs, x) == xs
    ensures IsSubsequence(Remove(xs, x), xs)
    decreases |xs|
  {
    RemoveKeepsOrder(xs, x);
    if xs != [] {
      RemoveSpec(xs[1..], x);
      assert xs == [xs[0]] + xs[1..];
      NoDuplicatesAppend([xs[0]], xs[1..]);
      var head := if xs[0] == x then [] else [xs[0]];
      NoDuplicatesAppend(head, Remove(xs[1..], x));
    }
  }

  lemma {:induction false} RemoveKeepsOrder(xs: seq<string>, x: string)
    ensures IsSubsequence(Remove(xs, x), xs)
    decreases |xs|
  {
    if xs != [] {
      RemoveKeepsOrder(xs[1..], x);
      var rest := Remove(xs[1..], x);
      if xs[0] == x {
        assert Remove(xs, x) == rest;
        SubsequenceCons(rest, xs[0], xs[1..]);
      } else {
        assert Remove(xs, x) == [xs[0]] + rest;
        assert Remove(xs, x)[1..] == rest;
      }
    }
  }

  /** `toggleSeat(row, col)`: the selection after clicking a seat. */
  function ToggleSeat(selected: seq<string>, occupied: seq<string>, row: nat, col: nat): seq<string> {
    var seatId := SeatId(row, col);
    if seatId in occupied then selected
    else if seatId in selected then Remove(selected, seatId)
    else selected + [seatId]
  }

  /** A selection lists each seat once and no occupied seat. */
  predicate ValidSelection(selected: seq<string>, occupied: seq<string>) {
    NoDuplicates(selected) && forall s :: s in selected ==> s !in occupied
  }

  /** The three cases of a click. */
  lemma ToggleRules(selected: seq<string>, occupied: seq<string>, row: nat, col: nat)
    ensures var id, after := SeatId(row, col), ToggleSeat(selected, occupied, row, col);
      && (id in occupied ==> after == selected)
      && (id !in occupied && id in selected ==>
            id !in after && (forall s :: s in after <==> s in selected && s != id) &&
            IsSubsequence(after, selected))
      && (id !in occupied && id !in selected ==> after == selected + [id] && after[|after| - 1] == id)
  {
    RemoveSpec(selected, SeatId(row, col));
  }

  lemma ToggleKeepsValid(selected: seq<string>, occupied: seq<string>, row: nat, col: nat)
    requires ValidSelection(selected, occupied)
    ensures ValidSelection(ToggleSeat(selected, occupied, row, col), occupied)
  {
    var id := SeatId(row, col);
    RemoveSpec(selected, id);
    if id !in occupied && id !in selected {
      NoDuplicatesAppend(selected, [id]);
    }
  }

  /** The selection after a series of clicks, starting from the empty selection. */
  function ApplyToggles(occupied: seq<string>, clicks: seq<(nat, nat)>): seq<string>
    decreases |clicks|
  {
    if clicks == [] then []
    else
      var last := clicks[|clicks| - 1];
      ToggleSeat(ApplyToggles(occupied, clicks[..|clicks| - 1]), occupied, last.0, last.1)
  }

  /** Whatever the clicks, the selection has no repeats, no occupied seat and only clicked seats. */
  lemma {:induction false} SelectionAlwaysValid(occupied: seq<string>, clicks: seq<(nat, nat)>)
    ensures ValidSelection(ApplyToggles(occupied, clicks), occupied)
    ensures forall s :: s in ApplyToggles(occupied, clicks) ==>
      exists i :: 0 <= i < |clicks| && s == SeatId(clicks[i].0, clicks[i].1)
    decreases |clicks|
  {
    if clicks != [] {
      var front, last := clicks[..|clicks| - 1], clicks[|clicks| - 1];
      SelectionAlwaysValid(occupied, front);
      var before := ApplyToggles(occupied, front);
      ToggleKeepsValid(before, occupied, last.0, last.1);
      RemoveSpec(before, SeatId(last.0, last.1));
      forall s | s in ApplyToggles(occupied, clicks)
        ensures exists i :: 0 <= i < |clicks| && s == SeatId(clicks[i].0, clicks[i].1)
      {
        if s == SeatId(last.0, last.1) {
          assert clicks[|clicks| - 1] == last;
        } else {
          assert s in before;
          var i :| 0 <= i < |front| && s == SeatId(front[i].0, front[i].1);
          assert clicks[i] == front[i];
        }
      }
    }
  }

  /** Clicking a free, unselected seat twice gives back the selection exactly. */
  lemma ToggleTwiceRestores(selected: seq<string>, occupied: seq<string>, row: nat, col: nat)
    requires SeatId(row, col) !in occupied && SeatId(row, col) !in selected
    ensures ToggleSeat(ToggleSeat(selected, occupied, row, col), occupied, row, col) == selected
  {
    var id := SeatId(row, col);
    RemoveAppended(selected, id);
  }

  lemma {:induction false} RemoveAppended(xs: seq<string>, x: string)
    requires x !in xs
    ensures Remove(xs + [x], x) == xs
    decreases |xs|
  {
    if xs == [] {
      assert Remove([x], x) == [] + Remove([], x);
    } else {
      assert (xs + [x])[0] == xs[0];
      assert (xs + [x])[1..] == xs[1..] + [x];
      RemoveAppended(xs[1..], x);
      assert xs == [xs[0]] + xs[1..];
    }
  }

  // =======================================================================================
  // Seat status and price

  datatype SeatStatus = Occupied | Selected | Available

  /** `getSeatStatus(row, col)`, with `isSeatOccupied` tested before `isSeatSelected`. */
  function StatusOf(selected: seq<string>, occupied: seq<string>, row: nat, col: nat): SeatStatus {
    var seatId := SeatId(row, col);
    if seatId in occupied then Occupied
    else if seatId in selected then Selected
    else Available
  }

  /** Occupied wins over selected; each status holds exactly in its own case. */
  lemma StatusPriority(selected: seq<string>, occupied: seq<string>, row: nat, col: nat)
    ensures var id, st := SeatId(row, col), StatusOf(selected, occupied, row, col);
      && (st == Occupied <==> id in occupied)
      && (st == Selected <==> id !in occupied && id in selected)
      && (st == Available <==> id !in occupied && id !in selected)
  {
  }

  /** A valid selection never shows a selected seat as occupied. */
  lemma SelectedSeatsShowSelected(selected: seq<string>, occupied: seq<string>, row: nat, col: nat)
    requires ValidSelection(selected, occupied) && SeatId(row, col) in selected
    ensures StatusOf(selected, occupied, row, col) == Selected
  {
  }

  /** An amount of cents as `toFixed(2)` shows it: whole units, a point, two digits. */
  function FormatCents(cents: nat): string {
    NatToString(cents / 100) + "." + PadTwo(cents % 100)
  }

  /** `calculateTotal()`: the seat count times the seat price. */
  function CalculateTotal(selected: seq<string>): string {
    FormatCents(|selected| * SeatPriceCents)
  }

  /** The shown total reads back as the seat count times 1299 cents. */
  lemma TotalReadsBack(selected: seq<string>)
    ensures var parts := Split(CalculateTotal(selected), ".");
      && |parts| == 2 && |parts[1]| == 2
      && DigitsValue(parts[0], 10) * 100 + DigitsValue(parts[1], 10) == |selected| * 1299
  {
    var c := |selected| * SeatPriceCents;
    NumeralAndPadTwo(c / 100, c % 100, '.');
  }

  /** The summary line: the labels of the selection, or "None selected". */
  function SummarySeats(selected: seq<string>): string {
    if |selected| > 0 then SeatLabels(selected) else "None selected"
  }

  lemma SummaryRules(cells: seq<(nat, nat)>)
    requires forall i :: 0 <= i < |cells| ==> cells[i].0 < 26
    ensures cells == [] ==> SummarySeats(SeatIds(cells)) == "None selected"
    ensures cells != [] ==> Split(SummarySeats(SeatIds(cells)), ", ") == LabelsOf(SeatIds(cells))
  {
    if cells != [] {
      SeatLabelsInOrder(cells);
    }
  }

  // =======================================================================================
  // Confirming

  /** The part of a movie object the confirmation page reads. */
  datatype MovieRef = MovieRef(name: Option<string>)

  /**
   * A booking record as the confirmation page receives it. The booking page fills the first
   * seven fields; a payment flow may add the payment and order ids and the test flag.
   */
  datatype BookingDetails = BookingDetails(
    movie: Option<MovieRef>,
    seats: Option<seq<string>>,
    showtime: Option<string>,
    date: Option<string>,
    total: Option<string>,
    bookingId: Option<string>,
    bookingDate: Option<string>,
    paymentId: Option<string>,
    orderId: Option<string>,
    isTestPayment: bool)

  datatype ConfirmResult =
    | SelectSeatAlert             // alert('Please select at least one seat to book.')
    | Confirmed(details: BookingDetails)

  /**
   * `confirmBooking()`: with no seat selected only an alert; otherwise the record is
   * appended to the stored history and passed to the confirmation page. `code` is the
   * random part of the booking id and `now` the ISO time of the booking.
   */
  function ConfirmBooking(movie: MovieRef, selected: seq<string>, showtime: string, date: string,
                          code: string, now: string, history: seq<BookingDetails>)
    : (ConfirmResult, seq<BookingDetails>)
  {
    if |selected| == 0 then (SelectSeatAlert, history)
    else
      var details := BookingDetails(Some(movie), Some(selected), Some(showtime), Some(date),
        Some(CalculateTotal(selected)), Some("BK-" + code), Some(now), None, None, false);
      (Confirmed(details), history + [details])
  }

  /** An empty selection creates no booking; otherwise exactly one record is stored and shown. */
  lemma ConfirmRules(movie: MovieRef, selected: seq<string>, showtime: string, date: string,
                     code: string, now: string, history: seq<BookingDetails>)
    ensures var (result, after) := ConfirmBooking(movie, selected, showtime, date, code, now, history);
      && (selected == [] <==> result == SelectSeatAlert)
      && (selected == [] ==> after == history)
      && (selected != [] ==>
            result.Confirmed? && after == history + [result.details] &&
            result.details.seats == Some(selected) &&
            result.details.total == Some(CalculateTotal(selected)) &&
            result.details.bookingId.Some? && result.details.bookingId.value[..3] == "BK-")
  {
  }
}
