/** Continuous seat numbering of the University seating-plan export: halls whose
    codes share a base (the part before the last '-', so "HALL-1" and "HALL-2")
    are numbered as one room, the second continuing where the first stopped and
    walking its rows in the opposite direction. */
module SeatNumbering {
  import opened Layout

  /** Index of the last '-' in s, or -1 when there is none. */
  function LastDash(s: string): (i: int)
    ensures -1 <= i < |s|
    ensures i >= 0 ==> s[i] == '-'
    ensures forall j :: i < j < |s| ==> s[j] != '-'
  {
    if s == [] then -1
    else if s[|s| - 1] == '-' then |s| - 1
    else LastDash(s[..|s| - 1])
  }

  /** `hall_code.rsplit('-', 1)[0] if '-' in hall_code else hall_code` */
  function Base(code: string): string
  {
    var i := LastDash(code);
    if i < 0 then code else code[..i]
  }

  /** The base is the whole code when it has no '-', and otherwise the part
      before its last '-'. */
  lemma BaseShape(code: string)
    ensures '-' !in code ==> Base(code) == code
    ensures '-' in code ==> |Base(code)| < |code| && code[..|Base(code)|] == Base(code) && code[|Base(code)|] == '-'
    ensures '-' in code ==> forall j :: |Base(code)| < j < |code| ==> code[j] != '-'
  {
    if '-' in code {
      var j :| 0 <= j < |code| && code[j] == '-';
      assert LastDash(code) >= j;
    }
  }

  /** The seat number the export prints in cell (r, c) of a hall whose
      numbering starts after `last`. */
  function SeatNo(last: nat, r: nat, c: nat, cols: nat, continueInReverse: bool): nat
    requires c < cols
  {
    last + 1 + SerpIndex(r, c, cols, continueInReverse)
  }

  /** The numbering loop for one hall, with the per-base record of the last
      number used. */
  method NumberSeats(code: string, rows: nat, cols: nat, lastSeatPerBase: map<string, nat>)
    returns (seatNoGrid: array2<nat>, lastSeatPerBase': map<string, nat>)
    ensures fresh(seatNoGrid) && seatNoGrid.Length0 == rows && seatNoGrid.Length1 == cols
    ensures var base := Base(code);
            var last := if base in lastSeatPerBase then lastSeatPerBase[base] else 0;
            && (forall r, c :: 0 <= r < rows && 0 <= c < cols ==>
                  seatNoGrid[r, c] == SeatNo(last, r, c, cols, base in lastSeatPerBase))
            && lastSeatPerBase' == lastSeatPerBase[base := last + rows * cols]
  {
    var base := Base(code);
    var last := if base in lastSeatPerBase then lastSeatPerBase[base] else 0;
    var seatNumber := last + 1;
    var continueInReverse := base in lastSeatPerBase;
    seatNoGrid := new nat[rows, cols];
    var r := 0;
    while r < rows
      invariant 0 <= r <= rows
      invariant seatNumber == last + 1 + r * cols
      invariant forall r', c' :: 0 <= r' < r && 0 <= c' < cols ==>
                  seatNoGrid[r', c'] == SeatNo(last, r', c', cols, continueInReverse)
    {
      var leftToRight := (r % 2 == 0 && !continueInReverse) || (r % 2 == 1 && continueInReverse);
      if leftToRight {
        var c := 0;
        while c < cols
          invariant 0 <= c <= cols
          invariant seatNumber == last + 1 + r * cols + c
          invariant forall r', c' :: 0 <= r' < r && 0 <= c' < cols ==>
                      seatNoGrid[r', c'] == SeatNo(last, r', c', cols, continueInReverse)
          invariant forall c' :: 0 <= c' < c ==> seatNoGrid[r, c'] == SeatNo(last, r, c', cols, continueInReverse)
        {
          seatNoGrid[r, c] := seatNumber;
          seatNumber := seatNumber + 1;
          c := c + 1;
        }
      } else {
        var c: int := cols - 1;
        while c >= 0
          invariant -1 <= c < cols
          invariant seatNumber == last + 1 + r * cols + (cols - 1 - c)
          invariant forall r', c' :: 0 <= r' < r && 0 <= c' < cols ==>
                      seatNoGrid[r', c'] == SeatNo(last, r', c', cols, continueInReverse)
          invariant forall c' :: c < c' < cols ==> seatNoGrid[r, c'] == SeatNo(last, r, c', cols, continueInReverse)
        {
          seatNoGrid[r, c] := seatNumber;
          seatNumber := seatNumber + 1;
          c := c - 1;
        }
      }
      assert (r + 1) * cols == r * cols + cols;
      r := r + 1;
    }
    lastSeatPerBase' := lastSeatPerBase[base := seatNumber - 1];
  }

  /** A hall's numbers are exactly last+1 .. last+rows*cols, each printed in
      exactly one cell: last+1+k sits in the k-th cell of the walk. */
  lemma SeatNumbersExact(last: nat, rows: nat, cols: nat, continueInReverse: bool)
    ensures forall r, c :: 0 <= r < rows && 0 <= c < cols ==>
              last < SeatNo(last, r, c, cols, continueInReverse) <= last + rows * cols
    ensures forall r1, c1, r2, c2 :: 0 <= r1 < rows && 0 <= c1 < cols && 0 <= r2 < rows && 0 <= c2 < cols
              && SeatNo(last, r1, c1, cols, continueInReverse) == SeatNo(last, r2, c2, cols, continueInReverse)
              ==> r1 == r2 && c1 == c2
    ensures forall k :: 0 <= k < rows * cols ==>
              RowOf(k, cols) < rows && SerpColOf(k, cols, continueInReverse) < cols
              && SeatNo(last, RowOf(k, cols), SerpColOf(k, cols, continueInReverse), cols, continueInReverse) == last + 1 + k
  {
    forall r1, c1, r2, c2 | 0 <= r1 < rows && 0 <= c1 < cols && 0 <= r2 < rows && 0 <= c2 < cols
      ensures SeatNo(last, r1, c1, cols, continueInReverse) <= last + rows * cols
      ensures SeatNo(last, r1, c1, cols, continueInReverse) == SeatNo(last, r2, c2, cols, continueInReverse)
              ==> r1 == r2 && c1 == c2
    {
      SerpIndexBijective(r1, c1, r2, c2, rows, cols, continueInReverse);
    }
    forall k | 0 <= k < rows * cols
      ensures RowOf(k, cols) < rows && SerpColOf(k, cols, continueInReverse) < cols
      ensures SeatNo(last, RowOf(k, cols), SerpColOf(k, cols, continueInReverse), cols, continueInReverse) == last + 1 + k
    {
      SerpIndexOnto(k, rows, cols, continueInReverse);
    }
  }

  /** Row r is printed left to right exactly when (r even) differs from
      continue_in_reverse; so a hall that continues a base starts its first row
      at the right-hand end. */
  lemma RowDirection(last: nat, r: nat, cols: nat, continueInReverse: bool)
    requires cols > 0
    ensures SeatNo(last, r, 0, cols, continueInReverse) < SeatNo(last, r, cols - 1, cols, continueInReverse)
            || cols == 1
            <==> (r % 2 == 0) != continueInReverse || cols == 1
    ensures continueInReverse ==> SeatNo(last, 0, cols - 1, cols, continueInReverse) == last + 1
    ensures !continueInReverse ==> SeatNo(last, 0, 0, cols, continueInReverse) == last + 1
  {
  }
}
