/** The stock optional value, used for empty grid cells and error results. */
module Optional {
  datatype Option<+T> = None | Some(value: T)
}

/** Halls as both allocators read them, and the input check they share: the two
    `validate_inputs` bodies (University_Exam_Seat_Allocater.py and
    Exam1_Seat_allocator.py) are the same code. */
module Halls {
  import opened Optional

  /** A hall row. rows and cols are grid dimensions; capacity is the declared
      "Total Capacity", which the check below compares with the grid. */
  datatype Hall = Hall(code: string, name: string, block: string, rows: nat, cols: nat, capacity: int)

  function Grid(h: Hall): nat
  {
    h.rows * h.cols
  }

  /** Σ rows*cols over the halls. */
  function TotalSeats(hs: seq<Hall>): nat
  {
    if hs == [] then 0 else Grid(hs[0]) + TotalSeats(hs[1..])
  }

  function Codes(hs: seq<Hall>): set<string>
  {
    set h | h in hs :: h.code
  }

  /** Hall codes are the keys of every per-hall dictionary of the allocators. */
  ghost predicate DistinctCodes(hs: seq<Hall>)
  {
    forall i, j :: 0 <= i < j < |hs| ==> hs[i].code != hs[j].code
  }

  /** A hall other than the last is one of the earlier ones, and its code
      differs from the last hall's. */
  lemma EarlierHall(hs: seq<Hall>, h: Hall)
    requires DistinctCodes(hs) && h in hs && h != hs[|hs| - 1]
    ensures h in hs[..|hs| - 1] && h.code != hs[|hs| - 1].code
  {
    var i :| 0 <= i < |hs| && hs[i] == h;
    assert hs[..|hs| - 1][i] == h;
  }

  datatype ValidationError =
    | CapacityExceedsGrid(code: string, capacity: int, grid: nat)
    | NotEnoughSeats(seats: nat, students: nat)

  /** Index of the first hall whose declared capacity exceeds its grid, or |hs|. */
  function FirstOverGrid(hs: seq<Hall>): (i: nat)
    ensures i <= |hs|
    ensures forall j :: 0 <= j < i ==> hs[j].capacity <= Grid(hs[j])
    ensures i < |hs| ==> hs[i].capacity > Grid(hs[i])
  {
    if hs == [] then 0
    else if hs[0].capacity > Grid(hs[0]) then 0
    else 1 + FirstOverGrid(hs[1..])
  }

  /** validate_inputs: the halls are scanned in order and the first whose
      capacity exceeds rows*cols is reported; only then is the student count
      compared with the total grid size. None means the check passed. */
  function ValidateInputs(halls: seq<Hall>, students: nat): Option<ValidationError>
  {
    var i := FirstOverGrid(halls);
    if i < |halls| then Some(CapacityExceedsGrid(halls[i].code, halls[i].capacity, Grid(halls[i])))
    else if students > TotalSeats(halls) then Some(NotEnoughSeats(TotalSeats(halls), students))
    else None
  }

  /** The check passes exactly when no hall's capacity exceeds its grid and the
      students fit in the total grid; both comparisons are strict, so an exact
      fit passes. */
  lemma ValidateInputsPasses(halls: seq<Hall>, students: nat)
    ensures ValidateInputs(halls, students) == None <==>
              (forall h :: h in halls ==> h.capacity <= Grid(h)) && students <= TotalSeats(halls)
  {
    var i := FirstOverGrid(halls);
    if i < |halls| {
      assert halls[i] in halls;
    } else {
      forall h | h in halls ensures h.capacity <= Grid(h) {
        var j :| 0 <= j < |halls| && halls[j] == h;
      }
    }
  }

  /** A failing check names the first hall in declared order whose capacity
      exceeds its grid, and reports a seat shortage only when every hall is
      within its grid. */
  lemma ValidateInputsReports(halls: seq<Hall>, students: nat)
    ensures ValidateInputs(halls, students).Some? && ValidateInputs(halls, students).value.CapacityExceedsGrid? ==>
              exists i :: 0 <= i < |halls| && halls[i].code == ValidateInputs(halls, students).value.code
                          && halls[i].capacity > Grid(halls[i])
                          && forall j :: 0 <= j < i ==> halls[j].capacity <= Grid(halls[j])
    ensures ValidateInputs(halls, students) == Some(NotEnoughSeats(TotalSeats(halls), students)) <==>
              (forall h :: h in halls ==> h.capacity <= Grid(h)) && students > TotalSeats(halls)
  {
    ValidateInputsPasses(halls, students);
    var i := FirstOverGrid(halls);
    if i < |halls| {
      assert halls[i] in halls;
    }
  }

  lemma {:induction false} TotalSeatsAppend(a: seq<Hall>, b: seq<Hall>)
    ensures TotalSeats(a + b) == TotalSeats(a) + TotalSeats(b)
  {
    if a == [] {
      assert a + b == b;
    } else {
      assert (a + b)[1..] == a[1..] + b;
      TotalSeatsAppend(a[1..], b);
    }
  }

  /** validate_inputs as both allocators run it: the seat total, then the
      scan of the halls in declared order, then the student count. */
  method CheckInputs(halls: seq<Hall>, students: nat) returns (e: Option<ValidationError>)
    ensures e == ValidateInputs(halls, students)
  {
    var totalSeats := TotalSeats(halls);
    var i := 0;
    while i < |halls|
      invariant 0 <= i <= |halls|
      invariant forall j :: 0 <= j < i ==> halls[j].capacity <= Grid(halls[j])
    {
      var expected := halls[i].rows * halls[i].cols;
      if halls[i].capacity > expected {
        return Some(CapacityExceedsGrid(halls[i].code, halls[i].capacity, expected));
      }
      i := i + 1;
    }
    if students > totalSeats {
      return Some(NotEnoughSeats(totalSeats, students));
    }
    return None;
  }

  // ---------------------------------------------------------------- seat grids

  /** `hall_seats[code]`: a list of rows, each a list of cells holding a
      register number or None. */
  type SeatGrid = seq<seq<Option<string>>>

  /** g has h.rows rows of h.cols cells. */
  ghost predicate Shaped(g: SeatGrid, h: Hall)
  {
    |g| == h.rows && forall r :: 0 <= r < |g| ==> |g[r]| == h.cols
  }

  ghost predicate SameShape(a: SeatGrid, b: SeatGrid)
  {
    |a| == |b| && forall r :: 0 <= r < |a| ==> |a[r]| == |b[r]|
  }

  /** The grid the constructor builds for h: every cell None. */
  function EmptyGrid(h: Hall): (g: SeatGrid)
    ensures Shaped(g, h)
    ensures forall r, c :: 0 <= r < h.rows && 0 <= c < h.cols ==> g[r][c] == None
  {
    seq(h.rows, _ => seq(h.cols, _ => None))
  }

  /** Every hall of use has a grid of its own size in seats. */
  ghost predicate GridsFor(seats: map<string, SeatGrid>, use: seq<Hall>)
  {
    forall k :: 0 <= k < |use| ==> use[k].code in seats && Shaped(seats[use[k].code], use[k])
  }

  /** Grids for a list of halls are grids for each of its prefixes. */
  lemma GridsPrefix(seats: map<string, SeatGrid>, use: seq<Hall>, n: nat)
    requires GridsFor(seats, use) && n <= |use|
    ensures GridsFor(seats, use[..n])
  {
    forall k | 0 <= k < n ensures use[..n][k].code in seats && Shaped(seats[use[..n][k].code], use[..n][k]) {
      assert use[..n][k] == use[k];
    }
  }

  /** A single hall with an empty grid of its own. */
  lemma OneHallGrids(h: Hall)
    ensures GridsFor(map[h.code := EmptyGrid(h)], [h])
  {
    assert [h][0] == h;
  }

  lemma ShapeKept(a: SeatGrid, b: SeatGrid, h: Hall)
    requires SameShape(a, b) && Shaped(b, h)
    ensures Shaped(a, h)
  {
  }
}
