/**
 * Seat identifiers of the booking page and their human-readable labels.
 *
 * The booking page names the seat in row `r`, column `c` (both from 0) by the id "r-c";
 * the booking summary and the confirmation page display it as a row letter ('A' for row 0)
 * followed by the 1-based column number, by splitting the id at '-' and reading both halves
 * back with `parseInt`.
 */
module SeatCodes {
  import opened Wrappers
  import opened JsStrings

  /** `${row}-${col}`. */
  function SeatId(row: nat, col: nat): string {
    NatToString(row) + "-" + NatToString(col)
  }

  /** `const [row, col] = seat.split('-')` followed by `parseInt` of each half. */
  function ParseSeatId(seat: string): (Option<int>, Option<int>) {
    var parts := Split(seat, "-");
    (ParseInt(parts[0], 0), if |parts| > 1 then ParseInt(parts[1], 0) else None)
  }

  /** `${String.fromCharCode(65 + row)}${col + 1}` for the parsed halves (NaN stays NaN). */
  function LabelOfParsed(row: Option<int>, col: Option<int>): string {
    [FromCharCode(if row.None? then None else Some(65 + row.value))] +
    NumberToString(if col.None? then None else Some(col.value + 1))
  }

  /** `${String.fromCharCode(65 + parseInt(row))}${parseInt(col) + 1}`. */
  function SeatLabel(seat: string): string {
    LabelOfParsed(ParseSeatId(seat).0, ParseSeatId(seat).1)
  }

  /** `seats.map(...)`: the label of each seat, in the same order. */
  function LabelsOf(seats: seq<string>): (labels: seq<string>)
    ensures |labels| == |seats|
  {
    seq(|seats|, i requires 0 <= i < |seats| => SeatLabel(seats[i]))
  }

  /** The labels of `seats` joined by ", ". */
  function SeatLabels(seats: seq<string>): string {
    Join(LabelsOf(seats), ", ")
  }

  /** Parsing an id the booking page built gives back its row and column. */
  lemma ParseSeatIdRoundTrip(row: nat, col: nat)
    ensures ParseSeatId(SeatId(row, col)) == (Some(row), Some(col))
  {
    var a, b := NatToString(row), NatToString(col);
    assert SeatId(row, col) == a + ['-'] + b;
    SplitTwo(a, b, '-');
    ParseIntNatToString(row, 0);
    ParseIntNatToString(col, 0);
  }

  /** The label of seat (row, col) is the letter with code 65 + row and the number col + 1. */
  lemma SeatLabelOfId(row: nat, col: nat)
    requires 65 + row < 0xD800
    ensures SeatLabel(SeatId(row, col)) == [(65 + row) as char] + NatToString(col + 1)
  {
    ParseSeatIdRoundTrip(row, col);
    FromCharCodeBelowSurrogates(65 + row);
    assert NumberToString(Some(col + 1)) == NatToString(col + 1);
    assert LabelOfParsed(Some(row), Some(col)) == [(65 + row) as char] + NatToString(col + 1);
  }

  /** The first seat of the plan has the id "0-0" ... */
  lemma FirstSeatId()
    ensures SeatId(0, 0) == "0-0"
  {
    assert NatToString(0) == "0";
  }

  /** ... and the seats of row 0 are shown with the letter A followed by the 1-based column. */
  lemma FirstRowLabels(col: nat)
    ensures SeatLabel(SeatId(0, col)) == "A" + NatToString(col + 1)
  {
    var row := 0;
    SeatLabelOfId(row, col);
    assert [(65 + row) as char] == "A";
  }

  /** Two different seats of the seating plan never share a label. */
  lemma SeatLabelsDistinct(r1: nat, c1: nat, r2: nat, c2: nat)
    requires r1 < 26 && r2 < 26
    requires (r1, c1) != (r2, c2)
    ensures SeatLabel(SeatId(r1, c1)) != SeatLabel(SeatId(r2, c2))
  {
    SeatLabelOfId(r1, c1);
    SeatLabelOfId(r2, c2);
    var l1, l2 := SeatLabel(SeatId(r1, c1)), SeatLabel(SeatId(r2, c2));
    if r1 == r2 {
      if l1 == l2 {
        assert l1[1..] == NatToString(c1 + 1);
        assert l2[1..] == NatToString(c2 + 1);
        NatToStringInjective(c1 + 1, c2 + 1);
      }
    } else {
      assert l1[0] != l2[0];
    }
  }

  /** The ids of a list of (row, column) cells. */
  function SeatIds(cells: seq<(nat, nat)>): (ids: seq<string>)
    ensures |ids| == |cells|
  {
    seq(|cells|, i requires 0 <= i < |cells| => SeatId(cells[i].0, cells[i].1))
  }

  /** A label of the seating plan is a letter followed by digits, so it holds no comma. */
  lemma LabelHasNoComma(row: nat, col: nat)
    requires row < 26
    ensures var shown := [(65 + row) as char] + NatToString(col + 1);
      forall i :: 0 <= i < |shown| ==> shown[i] != ','
  {
    var digits := NatToString(col + 1);
    var shown := [(65 + row) as char] + digits;
    forall i | 1 <= i < |shown| ensures shown[i] != ',' {
      assert shown[i] == digits[i - 1];
    }
  }

  /**
   * The label list shows one label per seat, in seat order: splitting it at ", " gives each
   * seat's letter-and-number label in turn.
   */
  lemma SeatLabelsInOrder(cells: seq<(nat, nat)>)
    requires |cells| >= 1
    requires forall i :: 0 <= i < |cells| ==> cells[i].0 < 26
    ensures Split(SeatLabels(SeatIds(cells)), ", ") == LabelsOf(SeatIds(cells))
    ensures forall i :: 0 <= i < |cells| ==>
      LabelsOf(SeatIds(cells))[i] == [(65 + cells[i].0) as char] + NatToString(cells[i].1 + 1)
  {
    var ids := SeatIds(cells);
    var labels := LabelsOf(ids);
    forall k | 0 <= k < |labels|
      ensures labels[k] == [(65 + cells[k].0) as char] + NatToString(cells[k].1 + 1)
      ensures forall i :: 0 <= i < |labels[k]| ==> labels[k][i] != ", "[0]
    {
      assert ids[k] == SeatId(cells[k].0, cells[k].1);
      assert labels[k] == SeatLabel(ids[k]);
      SeatLabelOfId(cells[k].0, cells[k].1);
      LabelHasNoComma(cells[k].0, cells[k].1);
    }
    SplitJoin(labels, ", ");
  }
}
