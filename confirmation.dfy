/**
 * The confirmation page (src/pages/Confirmation.jsx): the booking record received from the
 * booking page is shown as a list of labelled rows with fixed fallback texts, optional
 * payment and order rows, and a downloadable plain-text ticket.
 *
 * Date formatting and the current time are parameters: `formatDate` stands for
 * `new Date(d).toLocaleDateString(...)` (its argument `None` is `new Date(undefined)`), and
 * `generatedOn` for `new Date().toLocaleString()`.
 */
module Confirmation {
  import opened Wrappers
  import opened JsStrings
  import opened SeatCodes
  import opened Booking

  /** The detail rows the page can show, in page order. */
  datatype Field = BookingId | MovieName | ShowDate | Showtime | Seats | TotalAmount | PaymentId | OrderId

  /** The caption printed before a row's value. */
  function Caption(f: Field): string {
    match f
    case BookingId => "Booking ID:"
    case MovieName => "Movie:"
    case ShowDate => "Date:"
    case Showtime => "Showtime:"
    case Seats => "Seats:"
    case TotalAmount => "Total Amount:"
    case PaymentId => "Payment ID:"
    case OrderId => "Order ID:"
  }

  datatype Row = Row(field: Field, value: string)

  datatype Page =
    | NoBookingFound                          // 'No booking found'
    | Details(rows: seq<Row>, testNotice: bool)

  /** `v || fallback`. */
  function Or(v: Option<string>, fallback: string): string {
    if Truthy(v) then v.value else fallback
  }

  /** `booking.movie?.name || 'No movie name available'`. */
  function MovieNameText(movie: Option<MovieRef>): string {
    if movie.Some? then Or(movie.value.name, "No movie name available") else "No movie name available"
  }

  /** The seat labels joined by ", ", or 'N/A' for a missing or empty list. */
  function SeatsText(seats: Option<seq<string>>): string {
    if seats.Some? && |seats.value| > 0 then SeatLabels(seats.value) else "N/A"
  }

  /** The six rows every booking shows, with their fallback texts. */
  function FixedRows(b: BookingDetails, formatDate: Option<string> -> string): seq<Row> {
    [ Row(BookingId, Or(b.bookingId, "No booking ID available")),
      Row(MovieName, MovieNameText(b.movie)),
      Row(ShowDate, if Truthy(b.date) then formatDate(b.date) else "N/A"),
      Row(Showtime, Or(b.showtime, "N/A")),
      Row(Seats, SeatsText(b.seats)),
      Row(TotalAmount, "₹" + Or(b.total, "N/A")) ]
  }

  /** `{v && (<row>)}`: a row shown only for a truthy value. */
  function OptionalRow(f: Field, v: Option<string>): seq<Row> {
    if Truthy(v) then [Row(f, v.value)] else []
  }

  /** The detail rows, in page order; the payment and order rows only when their id is truthy. */
  function DetailRows(b: BookingDetails, formatDate: Option<string> -> string): seq<Row> {
    FixedRows(b, formatDate) + OptionalRow(PaymentId, b.paymentId) + OptionalRow(OrderId, b.orderId)
  }

  /** The page for the navigation state `booking`. */
  function ConfirmationPage(booking: Option<BookingDetails>, formatDate: Option<string> -> string): Page {
    match booking
    case None => NoBookingFound
    case Some(b) => Details(DetailRows(b, formatDate), b.isTestPayment)
  }

  /** The ticket text up to the showtime line. */
  function TicketHead(b: BookingDetails, movieName: Option<string>, formatDate: Option<string> -> string): string {
    "\n🎬 MOVIE TICKET 🎬\n\nBooking ID: " + Show(b.bookingId) +
    "\nMovie: " + Show(movieName) +
    "\nDate: " + formatDate(b.date) +
    "\nShowtime: " + Show(b.showtime)
  }

  /** The seats line of the ticket, with the line breaks around it. */
  function TicketSeatsLine(seats: seq<string>): string {
    "\nSeats: " + SeatLabels(seats) + "\n"
  }

  /** The total line of the ticket and the blank line after it. */
  function TicketTotalLine(total: Option<string>): string {
    "Total Amount: ₹" + Show(total) + "\n\n"
  }

  /** The closing lines of the ticket. */
  function TicketFooter(generatedOn: string): string {
    "\n\n🎫 Enjoy your movie! 🎫\nGenerated on: " + generatedOn + "\n    "
  }

  /**
   * `downloadTicket()`'s text; `None` when there is no booking (nothing is downloaded) or when
   * the movie or the seat list is missing (the template throws before the download).
   */
  function TicketText(booking: Option<BookingDetails>, formatDate: Option<string> -> string,
                      generatedOn: string): Option<string> {
    match booking
    case None => None
    case Some(b) =>
      if b.movie.None? || b.seats.None? then None
      else Some(
        TicketHead(b, b.movie.value.name, formatDate) + TicketSeatsLine(b.seats.value) +
        TicketTotalLine(b.total) + Mention("Payment ID: ", b.paymentId) +
        "\n" + Mention("Order ID: ", b.orderId) + TicketFooter(generatedOn))
  }

  /** Without a booking the page says so and no ticket is produced. */
  lemma NoBookingRules(formatDate: Option<string> -> string, generatedOn: string)
    ensures ConfirmationPage(None, formatDate) == NoBookingFound
    ensures TicketText(None, formatDate, generatedOn) == None
  {
  }

  /** Missing values are replaced by the fixed fallback texts; present ones are shown as they are. */
  lemma FallbackTexts(b: BookingDetails, formatDate: Option<string> -> string)
    ensures var rows := DetailRows(b, formatDate);
      && |rows| >= 6
      && rows[0] == Row(BookingId, if Truthy(b.bookingId) then b.bookingId.value else "No booking ID available")
      && (b.movie.None? || !Truthy(b.movie.value.name) ==> rows[1] == Row(MovieName, "No movie name available"))
      && (!Truthy(b.date) ==> rows[2] == Row(ShowDate, "N/A"))
      && (!Truthy(b.showtime) ==> rows[3] == Row(Showtime, "N/A"))
      && (b.seats.None? || b.seats == Some([]) ==> rows[4] == Row(Seats, "N/A"))
      && (!Truthy(b.total) ==> rows[5] == Row(TotalAmount, "₹N/A"))
      && (Truthy(b.total) ==> rows[5] == Row(TotalAmount, "₹" + b.total.value))
  {
  }

  /** The seats row of a booking made on the seating plan lists one label per seat, in order. */
  lemma SeatsRowLabels(b: BookingDetails, formatDate: Option<string> -> string, cells: seq<(nat, nat)>)
    requires |cells| >= 1 && forall i :: 0 <= i < |cells| ==> cells[i].0 < 26
    requires b.seats == Some(SeatIds(cells))
    ensures Split(DetailRows(b, formatDate)[4].value, ", ") == LabelsOf(SeatIds(cells))
  {
    var rows := DetailRows(b, formatDate);
    assert rows[4] == Row(Seats, SeatsText(b.seats));
    assert SeatsText(b.seats) == SeatLabels(SeatIds(cells));
    SeatLabelsInOrder(cells);
  }

  /** The payment and order rows appear exactly when those ids are truthy, after the six fixed rows. */
  lemma OptionalRows(b: BookingDetails, formatDate: Option<string> -> string)
    ensures var rows := DetailRows(b, formatDate);
      && |rows| == 6 + (if Truthy(b.paymentId) then 1 else 0) + (if Truthy(b.orderId) then 1 else 0)
      && (HasField(rows, PaymentId) <==> Truthy(b.paymentId))
      && (HasField(rows, OrderId) <==> Truthy(b.orderId))
      && (Truthy(b.paymentId) ==> rows[6] == Row(PaymentId, b.paymentId.value))
  {
    FixedRowFields(b, formatDate);
    OptionalRowsAfter(FixedRows(b, formatDate), b.paymentId, b.orderId);
  }

  /** The six fixed rows show neither a payment nor an order id. */
  lemma FixedRowFields(b: BookingDetails, formatDate: Option<string> -> string)
    ensures var fixed := FixedRows(b, formatDate);
      |fixed| == 6 && !HasField(fixed, PaymentId) && !HasField(fixed, OrderId)
  {
    var fixed := FixedRows(b, formatDate);
    assert forall i :: 0 <= i < 6 ==> fixed[i].field in {BookingId, MovieName, ShowDate, Showtime, Seats, TotalAmount};
  }

  lemma OptionalRowsAfter(fixed: seq<Row>, paymentId: Option<string>, orderId: Option<string>)
    requires |fixed| == 6 && !HasField(fixed, PaymentId) && !HasField(fixed, OrderId)
    ensures var rows := fixed + OptionalRow(PaymentId, paymentId) + OptionalRow(OrderId, orderId);
      && |rows| == 6 + (if Truthy(paymentId) then 1 else 0) + (if Truthy(orderId) then 1 else 0)
      && (HasField(rows, PaymentId) <==> Truthy(paymentId))
      && (HasField(rows, OrderId) <==> Truthy(orderId))
      && (Truthy(paymentId) ==> rows[6] == Row(PaymentId, paymentId.value))
  {
    var pay := OptionalRow(PaymentId, paymentId);
    var order := OptionalRow(OrderId, orderId);
    assert HasField(pay, PaymentId) <==> Truthy(paymentId) by {
      if Truthy(paymentId) { assert pay[0].field == PaymentId; }
    }
    assert HasField(order, OrderId) <==> Truthy(orderId) by {
      if Truthy(orderId) { assert order[0].field == OrderId; }
    }
    assert !HasField(pay, OrderId) && !HasField(order, PaymentId);
    FieldsOfRows(fixed + pay, order, PaymentId);
    FieldsOfRows(fixed, pay, PaymentId);
    FieldsOfRows(fixed + pay, order, OrderId);
    FieldsOfRows(fixed, pay, OrderId);
  }

  /** Some row shows `f`. */
  predicate HasField(rows: seq<Row>, f: Field) {
    exists i :: 0 <= i < |rows| && rows[i].field == f
  }

  lemma FieldsOfRows(xs: seq<Row>, ys: seq<Row>, f: Field)
    ensures HasField(xs + ys, f) <==> HasField(xs, f) || HasField(ys, f)
  {
    var s := xs + ys;
    if HasField(s, f) {
      var i :| 0 <= i < |s| && s[i].field == f;
      if i >= |xs| {
        assert ys[i - |xs|] == s[i];
      } else {
        assert xs[i] == s[i];
      }
    }
    if HasField(xs, f) {
      var i :| 0 <= i < |xs| && xs[i].field == f;
      assert s[i] == xs[i];
    }
    if HasField(ys, f) {
      var i :| 0 <= i < |ys| && ys[i].field == f;
      assert s[|xs| + i] == ys[i];
    }
  }

  /** The test-payment notice is shown exactly for test payments. */
  lemma TestNotice(b: BookingDetails, formatDate: Option<string> -> string)
    ensures ConfirmationPage(Some(b), formatDate).testNotice <==> b.isTestPayment
  {
  }

  /**
   * A ticket exists exactly when the movie and the seat list are present; it carries the seat
   * labels and the payment and order lines when those ids are truthy.
   */
  lemma TicketContents(b: BookingDetails, formatDate: Option<string> -> string, generatedOn: string)
    ensures TicketText(Some(b), formatDate, generatedOn).Some? <==> b.movie.Some? && b.seats.Some?
    ensures b.seats.Some? && b.movie.Some? ==>
      Contains(TicketText(Some(b), formatDate, generatedOn).value, TicketSeatsLine(b.seats.value))
    ensures b.seats.Some? && b.movie.Some? && Truthy(b.paymentId) ==>
      Contains(TicketText(Some(b), formatDate, generatedOn).value, "Payment ID: " + b.paymentId.value)
    ensures b.seats.Some? && b.movie.Some? && Truthy(b.orderId) ==>
      Contains(TicketText(Some(b), formatDate, generatedOn).value, "Order ID: " + b.orderId.value)
  {
    if b.seats.Some? && b.movie.Some? {
      var head := TicketHead(b, b.movie.value.name, formatDate);
      var seatsLine := TicketSeatsLine(b.seats.value);
      var total := TicketTotalLine(b.total);
      var pay := Mention("Payment ID: ", b.paymentId);
      var order := Mention("Order ID: ", b.orderId);
      var footer := TicketFooter(generatedOn);
      ContainsInfix([], seatsLine, []);
      assert [] + seatsLine + [] == seatsLine;
      ContainsExtended(head, seatsLine, seatsLine);
      var upToTotal := head + seatsLine + total;
      ContainsExtended(head + seatsLine, total, seatsLine);
      ContainsInfix([], pay, []);
      assert [] + pay + [] == pay;
      ContainsExtended(upToTotal, pay, seatsLine);
      ContainsExtended(upToTotal, pay, pay);
      var upToPay := upToTotal + pay + "\n";
      ContainsExtended(upToTotal + pay, "\n", seatsLine);
      ContainsExtended(upToTotal + pay, "\n", pay);
      ContainsInfix([], order, []);
      assert [] + order + [] == order;
      ContainsExtended(upToPay, order, seatsLine);
      ContainsExtended(upToPay, order, pay);
      ContainsExtended(upToPay, order, order);
      ContainsExtended(upToPay + order, footer, seatsLine);
      ContainsExtended(upToPay + order, footer, pay);
      ContainsExtended(upToPay + order, footer, order);
      assert TicketText(Some(b), formatDate, generatedOn) == Some(upToPay + order + footer);
    }
  }

  /**
   * A booking confirmed on the booking page shows its "BK-" id, its seat labels and its
   * price, has no payment or order row and no test notice, and can be downloaded.
   */
  lemma ConfirmedBookingShown(movie: MovieRef, selected: seq<string>, showtime: string, date: string,
                              code: string, now: string, history: seq<BookingDetails>,
                              formatDate: Option<string> -> string, generatedOn: string)
    requires selected != []
    ensures var b := ConfirmBooking(movie, selected, showtime, date, code, now, history).0.details;
      && ConfirmationPage(Some(b), formatDate) == Details(DetailRows(b, formatDate), false)
      && |DetailRows(b, formatDate)| == 6
      && DetailRows(b, formatDate)[0] == Row(BookingId, "BK-" + code)
      && DetailRows(b, formatDate)[4] == Row(Seats, SeatLabels(selected))
      && DetailRows(b, formatDate)[5] == Row(TotalAmount, "₹" + CalculateTotal(selected))
      && TicketText(Some(b), formatDate, generatedOn).Some?
  {
    var b := ConfirmBooking(movie, selected, showtime, date, code, now, history).0.details;
    assert b.bookingId == Some("BK-" + code);
    assert ("BK-" + code)[0] == 'B';
    assert CalculateTotal(selected) != "" by {
      TotalReadsBack(selected);
    }
  }
}
