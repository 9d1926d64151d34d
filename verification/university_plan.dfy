/** What `ExamSeatAllocator.allocate_seats` of University_Exam_Seat_Allocater.py
    computes, as functions of its inputs: the halls it selects in 25-seat
    blocks, the proportional per-hall targets, the students each hall receives
    from the two halves of the student list, where each of them sits, and the
    outcome. The class in UniversityAllocator is proved to build exactly this. */
module UniversityPlan {
  import opened Optional
  import opened Keys
  import opened Sorting
  import opened Layout
  import opened Halls

  datatype Student = Student(reg: string, department: string, course: string, title: string)

  /** An `allocations` entry: the hall, the 1-based row and column, and the
      student's course details. */
  datatype Seat = Seat(hallCode: string, hallName: string, block: string, row: nat, col: nat,
                       course: string, title: string, department: string)

  /** Register numbers key the ledger and the grid cells. */
  ghost predicate DistinctRegs(ss: seq<Student>)
  {
    forall i, j :: 0 <= i < j < |ss| ==> ss[i].reg != ss[j].reg
  }

  function Regs(ss: seq<Student>): seq<string>
  {
    seq(|ss|, i requires 0 <= i < |ss| => ss[i].reg)
  }

  function CoursesOf(ss: seq<Student>): set<string>
  {
    set s | s in ss :: s.course
  }

  // ---------------------------------------------------------------- selection

  const BLOCK: nat := 25

  /** `((total_students + 24) // 25) * 25`: the smallest multiple of 25 that
      holds every student. */
  function RequiredCapacity(n: nat): (r: nat)
    ensures r % BLOCK == 0 && n <= r < n + BLOCK
  {
    ((n + 24) / 25) * 25
  }

  /** `sorted(self.halls, key=rows*cols, reverse=True)`: largest grid first,
      halls of equal grid in declared order. */
  function CapacityKey(h: Hall): Key
  {
    [Num(-(Grid(h) as int))]
  }

  function ByCapacity(halls: seq<Hall>): seq<Hall>
  {
    SortBy(halls, CapacityKey)
  }

  /** How many halls of hs the accumulation loop takes: each hall is added to
      the running total and the loop stops once the total reaches required. */
  function TakeCount(hs: seq<Hall>, required: int): (k: nat)
    ensures k <= |hs|
  {
    if hs == [] then 0
    else if Grid(hs[0]) >= required then 1
    else 1 + TakeCount(hs[1..], required - Grid(hs[0]))
  }

  /** `[h for h in self.halls if h['hall_code'] in selected_codes]` */
  function KeepSelected(halls: seq<Hall>, selected: set<string>): (r: seq<Hall>)
    ensures |r| <= |halls|
    ensures forall h :: h in r <==> h in halls && h.code in selected
  {
    if halls == [] then []
    else (if halls[0].code in selected then [halls[0]] else []) + KeepSelected(halls[1..], selected)
  }

  /** halls_to_use. */
  function SelectedHalls(halls: seq<Hall>, n: nat): (r: seq<Hall>)
    ensures |r| <= |halls| && forall h :: h in r ==> h in halls
  {
    var sorted := ByCapacity(halls);
    KeepSelected(halls, Codes(sorted[..TakeCount(sorted, RequiredCapacity(n))]))
  }

  // ---------------------------------------------------------------- targets

  /** `int((cap / total_capacity) * total_students)` with exact arithmetic. */
  function Share(h: Hall, total: nat, n: nat): nat
  {
    if total > 0 then Grid(h) * n / total else 0
  }

  function SumShares(hs: seq<Hall>, total: nat, n: nat): nat
  {
    if hs == [] then 0 else Share(hs[0], total, n) + SumShares(hs[1..], total, n)
  }

  /** The loop handing out the remainder: while some remains, the next hall
      gets one seat more than its share. */
  function Topped(hs: seq<Hall>, total: nat, n: nat, rem: int): (t: seq<int>)
    ensures |t| == |hs|
  {
    if hs == [] then []
    else [Share(hs[0], total, n) + (if rem > 0 then 1 else 0)] + Topped(hs[1..], total, n, rem - 1)
  }

  /** students_per_hall, in the order of halls_to_use. */
  function Targets(use: seq<Hall>, n: nat): (t: seq<int>)
    ensures |t| == |use|
  {
    var total := TotalSeats(use);
    Topped(use, total, n, n - SumShares(use, total, n))
  }

  function SumInts(xs: seq<int>): int
  {
    if xs == [] then 0 else xs[0] + SumInts(xs[1..])
  }

  // ---------------------------------------------------------------- filling

  /** How many students one hall takes from the first and from the second
      half: each round of the loop takes the front of the first half, then,
      room permitting, the front of the second, until the hall is full or both
      halves are empty. */
  function Split(nf: nat, ns: nat, usable: int): (r: (nat, nat))
    ensures r.0 <= nf && r.1 <= ns
    decreases nf + ns
  {
    if usable <= 0 || nf + ns == 0 then (0, 0)
    else
      var a := if nf > 0 then 1 else 0;
      var b := if ns > 0 && a < usable then 1 else 0;
      var rest := Split(nf - a, ns - b, usable - a - b);
      (a + rest.0, b + rest.1)
  }

  /** The order the loop takes them in: first, second, first, second, ...,
      then the rest of whichever half is longer. */
  function Interleave(x: seq<Student>, y: seq<Student>): (z: seq<Student>)
    ensures |z| == |x| + |y|
  {
    if x == [] then y
    else if y == [] then x
    else [x[0], y[0]] + Interleave(x[1..], y[1..])
  }

  /** `min(grid_capacity, hall_capacity, target)` */
  function Usable(h: Hall, target: int): int
  {
    var m := if Grid(h) < h.capacity then Grid(h) else h.capacity;
    if m < target then m else target
  }

  /** The students of each selected hall, in hall order, and what is left of
      the two halves afterwards. */
  datatype Fill = Fill(lists: seq<seq<Student>>, first: seq<Student>, second: seq<Student>)

  function FillHalls(use: seq<Hall>, targets: seq<int>, first: seq<Student>, second: seq<Student>): (r: Fill)
    requires |targets| == |use|
    ensures |r.lists| == |use|
  {
    if use == [] then Fill([], first, second)
    else
      var (i, j) := Split(|first|, |second|, Usable(use[0], targets[0]));
      var rest := FillHalls(use[1..], targets[1..], first[i..], second[j..]);
      Fill([Interleave(first[..i], second[..j])] + rest.lists, rest.first, rest.second)
  }

  function Concat(lists: seq<seq<Student>>): seq<Student>
  {
    if lists == [] then [] else lists[0] + Concat(lists[1..])
  }

  // ---------------------------------------------------------------- outcome

  datatype Outcome =
    | Allocated
    | Invalid(error: ValidationError)
    | SelectionShort                   // the raise after the 25-seat-block selection
    | Unallocated(regs: seq<string>)   // the final raise, naming the students left over

  /** The halls used and the students each received, in placement order. */
  datatype Plan = Plan(outcome: Outcome, use: seq<Hall>, lists: seq<seq<Student>>)

  /** `(total_students + 1) // 2`: the first half takes the middle student
      of an odd count. */
  function HalfPoint(n: nat): (h: nat)
    ensures h + h == n || h + h == n + 1
  {
    (n + 1) / 2
  }

  function MakePlan(students: seq<Student>, halls: seq<Hall>): (p: Plan)
    ensures |p.lists| == |p.use|
  {
    var n := |students|;
    match ValidateInputs(halls, n)
    case Some(e) => Plan(Invalid(e), [], [])
    case None =>
      var use := SelectedHalls(halls, n);
      if TotalSeats(use) < n then Plan(SelectionShort, [], [])
      else
        var fill := FillHalls(use, Targets(use, n), students[..HalfPoint(n)], students[HalfPoint(n)..]);
        var left := fill.first + fill.second;
        Plan(if left == [] then Allocated else Unallocated(Regs(left)), use, fill.lists)
  }

  // ---------------------------------------------------------------- placement

  /** The ledger entry of the k-th student of hall h: the k-th cell of the
      serpentine walk, 1-based. */
  function SeatFor(h: Hall, k: nat, s: Student): Seat
    requires h.cols > 0
  {
    Seat(h.code, h.name, h.block, RowOf(k, h.cols) + 1, SerpColOf(k, h.cols, false) + 1,
         s.course, s.title, s.department)
  }

  /** The entries one hall adds to `allocations`, in placement order. */
  function HallLedger(h: Hall, ss: seq<Student>): map<string, Seat>
    requires |ss| <= Grid(h)
  {
    if ss == [] then map[]
    else
      GridSides(h);
      HallLedger(h, ss[..|ss| - 1])[ss[|ss| - 1].reg := SeatFor(h, |ss| - 1, ss[|ss| - 1])]
  }

  /** Writing the next student's seat extends the hall's ledger by one. */
  lemma LedgerStep(h: Hall, ss: seq<Student>, idx: nat, r: nat, c: nat, before: map<string, Seat>)
    requires idx < |ss| <= Grid(h) && h.cols > 0
    requires RowOf(idx, h.cols) == r && SerpColOf(idx, h.cols, false) == c
    ensures (before + HallLedger(h, ss[..idx]))[ss[idx].reg := Seat(h.code, h.name, h.block, r + 1, c + 1,
                                                                  ss[idx].course, ss[idx].title, ss[idx].department)]
            == before + HallLedger(h, ss[..idx + 1])
  {
    assert ss[..idx + 1][..idx] == ss[..idx];
  }

  lemma GridSides(h: Hall)
    requires Grid(h) > 0
    ensures h.rows > 0 && h.cols > 0
  {
  }

  /** Each hall's list fits its grid. */
  ghost predicate Fits(use: seq<Hall>, lists: seq<seq<Student>>)
  {
    |lists| == |use| && forall k :: 0 <= k < |use| ==> |lists[k]| <= Grid(use[k])
  }

  /** `allocations` after the placement loop: the entries of the halls in
      order, a later entry replacing an earlier one with the same key. */
  function PlanLedger(use: seq<Hall>, lists: seq<seq<Student>>): map<string, Seat>
    requires Fits(use, lists)
  {
    if use == [] then map[]
    else
      var m := |use| - 1;
      PlanLedger(use[..m], lists[..m]) + HallLedger(use[m], lists[m])
  }

  /** The cell content hall h's grid holds for its list ss. */
  function Cell(h: Hall, ss: seq<Student>, r: nat, c: nat): Option<string>
    requires c < h.cols
  {
    var k := SerpIndex(r, c, h.cols, false);
    if k < |ss| then Some(ss[k].reg) else None
  }

  // ---------------------------------------------------------------- seat grids

  /** The grid g of hall h once the first idx students of ss have taken
      their cells along the serpentine walk. */
  function PlaceUpTo(g: SeatGrid, h: Hall, ss: seq<Student>, idx: nat): (p: SeatGrid)
    requires Shaped(g, h) && idx <= |ss|
    ensures Shaped(p, h) && SameShape(p, g)
  {
    seq(h.rows, r requires 0 <= r < h.rows =>
      seq(h.cols, c requires 0 <= c < h.cols =>
        var k := SerpIndex(r, c, h.cols, false);
        if k < idx then Some(ss[k].reg) else g[r][c]))
  }

  /** Hall h's grid after its S-pattern placement of ss. */
  function Placement(g: SeatGrid, h: Hall, ss: seq<Student>): SeatGrid
    requires Shaped(g, h)
  {
    PlaceUpTo(g, h, ss, |ss|)
  }

  /** Each cell the walk reaches holds its student's register number, and
      every other cell keeps what it held. */
  lemma PlacementCells(g: SeatGrid, h: Hall, ss: seq<Student>)
    requires Shaped(g, h)
    ensures Shaped(Placement(g, h, ss), h)
    ensures forall r, c :: 0 <= r < h.rows && 0 <= c < h.cols ==>
              Placement(g, h, ss)[r][c] == if Cell(h, ss, r, c).Some? then Cell(h, ss, r, c) else g[r][c]
  {
  }

  /** Before anyone is placed the grid is as it was. */
  lemma PlaceUpToNone(g: SeatGrid, h: Hall, ss: seq<Student>)
    requires Shaped(g, h)
    ensures PlaceUpTo(g, h, ss, 0) == g
  {
    var p := PlaceUpTo(g, h, ss, 0);
    forall r | 0 <= r < h.rows ensures p[r] == g[r] {
    }
  }

  /** Writing student idx into the j-th cell visited in row r (whose walk
      position is idx) is placing one more student. */
  lemma PlaceUpToStep(g: SeatGrid, h: Hall, ss: seq<Student>, idx: nat, r: nat, j: nat)
    requires Shaped(g, h) && idx < |ss|
    requires r < h.rows && j < h.cols && idx == r * h.cols + j
    ensures var c := if r % 2 == 0 then j else h.cols - 1 - j;
            var p := PlaceUpTo(g, h, ss, idx);
            c < h.cols && p[r := p[r][c := Some(ss[idx].reg)]] == PlaceUpTo(g, h, ss, idx + 1)
  {
    var c := if r % 2 == 0 then j else h.cols - 1 - j;
    PlaceStep(r, j, h.rows, h.cols);
    var p, q := PlaceUpTo(g, h, ss, idx), PlaceUpTo(g, h, ss, idx + 1);
    var p' := p[r := p[r][c := Some(ss[idx].reg)]];
    forall r' | 0 <= r' < h.rows ensures p'[r'] == q[r'] {
      forall c' | 0 <= c' < h.cols ensures p'[r'][c'] == q[r'][c'] {
        if r' != r || c' != c {
          assert SerpIndex(r', c', h.cols, false) != idx;
        }
      }
    }
  }

  /** `hall_seats` after the placement loop: each hall that received
      students placed on its grid, in hall order. */
  function PlanGrids(seats: map<string, SeatGrid>, use: seq<Hall>, lists: seq<seq<Student>>): (g: map<string, SeatGrid>)
    requires |lists| == |use| && GridsFor(seats, use)
    ensures g.Keys == seats.Keys
    ensures forall code :: code in seats ==> SameShape(g[code], seats[code])
  {
    if use == [] then seats
    else
      var m := |use| - 1;
      assert GridsFor(seats, use[..m]) by {
        forall k | 0 <= k < m ensures use[..m][k] == use[k] {
        }
      }
      var before := PlanGrids(seats, use[..m], lists[..m]);
      ShapeKept(before[use[m].code], seats[use[m].code], use[m]);
      if lists[m] == [] then before
      else before[use[m].code := Placement(before[use[m].code], use[m], lists[m])]
  }

/** With distinct codes, each hall's grid ends up as its own placement
      over the grid it started with, and every other grid is untouched. */
  lemma {:induction false} PlanGridsHalls(seats: map<string, SeatGrid>, use: seq<Hall>, lists: seq<seq<Student>>)
    requires |lists| == |use| && GridsFor(seats, use) && DistinctCodes(use)
    ensures forall k :: 0 <= k < |use| ==>
              PlanGrids(seats, use, lists)[use[k].code] == Placement(seats[use[k].code], use[k], lists[k])
    ensures forall code :: code in seats && code !in Codes(use) ==> PlanGrids(seats, use, lists)[code] == seats[code]
  {
    if use != [] {
      var m := |use| - 1;
      var pre, preLists := use[..m], lists[..m];
      forall k | 0 <= k < m ensures pre[k] == use[k] && preLists[k] == lists[k] && use[k].code != use[m].code {
      }
      assert GridsFor(seats, pre) && DistinctCodes(pre);
      PlanGridsHalls(seats, pre, preLists);
      assert use[m].code !in Codes(pre);
      if lists[m] == [] {
        PlaceUpToNone(seats[use[m].code], use[m], lists[m]);
      }
      forall code | code in seats && code !in Codes(use) ensures code !in Codes(pre) && code != use[m].code {
        assert use[m] in use;
      }
    }
  }

  /** Cell by cell: a hall's grid holds its students' register numbers
      where the walk reaches them and its old contents elsewhere. */
  lemma PlanGridsCells(seats: map<string, SeatGrid>, use: seq<Hall>, lists: seq<seq<Student>>)
    requires |lists| == |use| && GridsFor(seats, use) && DistinctCodes(use)
    ensures forall k, r, c :: 0 <= k < |use| && 0 <= r < use[k].rows && 0 <= c < use[k].cols ==>
              var g := PlanGrids(seats, use, lists)[use[k].code];
              |g| == use[k].rows && |g[r]| == use[k].cols
              && g[r][c] == if Cell(use[k], lists[k], r, c).Some? then Cell(use[k], lists[k], r, c)
                            else seats[use[k].code][r][c]
  {
    PlanGridsHalls(seats, use, lists);
    forall k | 0 <= k < |use| ensures Shaped(Placement(seats[use[k].code], use[k], lists[k]), use[k]) {
      PlacementCells(seats[use[k].code], use[k], lists[k]);
    }
  }

    // ---------------------------------------------------------------- selection lemmas

  /** s is s2 with some elements dropped, the rest kept in order. */
  ghost predicate Subsequence<T>(s: seq<T>, s2: seq<T>)
    decreases |s2|
  {
    s == [] || (s2 != [] && ((s[0] == s2[0] && Subsequence(s[1..], s2[1..])) || Subsequence(s, s2[1..])))
  }

  lemma PrefixSeats(hs: seq<Hall>)
    requires hs != []
    ensures forall j :: 1 <= j <= |hs| ==> TotalSeats(hs[..j]) == Grid(hs[0]) + TotalSeats(hs[1..][..j - 1])
  {
    forall j | 1 <= j <= |hs| ensures TotalSeats(hs[..j]) == Grid(hs[0]) + TotalSeats(hs[1..][..j - 1]) {
      assert hs[..j][1..] == hs[1..][..j - 1];
    }
  }

  /** The accumulation loop takes at least one hall when there are any, stops
      at the first hall whose running total reaches required, and runs out of
      halls only when no shorter prefix reached it. */
  lemma {:induction false} TakeCountStops(hs: seq<Hall>, required: int)
    ensures hs != [] ==> TakeCount(hs, required) >= 1
    ensures TakeCount(hs, required) == |hs| || TotalSeats(hs[..TakeCount(hs, required)]) >= required
    ensures forall j :: 1 <= j < TakeCount(hs, required) ==> TotalSeats(hs[..j]) < required
  {
    if hs != [] {
      PrefixSeats(hs);
      if Grid(hs[0]) < required {
        TakeCountStops(hs[1..], required - Grid(hs[0]));
      }
    }
  }

  /** Those three properties determine the number of halls taken. */
  lemma TakeCountUnique(hs: seq<Hall>, required: int, k: nat)
    requires k <= |hs|
    requires hs != [] ==> k >= 1
    requires k == |hs| || TotalSeats(hs[..k]) >= required
    requires forall j :: 1 <= j < k ==> TotalSeats(hs[..j]) < required
    ensures k == TakeCount(hs, required)
  {
    TakeCountStops(hs, required);
  }

  /** One pass of the accumulation loop adds the next hall's code and grid. */
  lemma SelectionStep(hs: seq<Hall>, i: nat)
    requires i < |hs|
    ensures Codes(hs[..i + 1]) == Codes(hs[..i]) + {hs[i].code}
    ensures TotalSeats(hs[..i + 1]) == TotalSeats(hs[..i]) + Grid(hs[i])
  {
    assert hs[..i + 1] == hs[..i] + [hs[i]];
    TotalSeatsAppend(hs[..i], [hs[i]]);
    assert TotalSeats([hs[i]]) == Grid(hs[i]) by {
      assert [hs[i]][1..] == [];
    }
  }

  /** A prefix still short of the requirement extends the run of short
      prefixes the accumulation loop has seen. */
  lemma BelowExtend(hs: seq<Hall>, i: nat, required: int)
    requires i < |hs|
    requires forall j :: 1 <= j <= i ==> TotalSeats(hs[..j]) < required
    requires TotalSeats(hs[..i + 1]) < required
    ensures forall j :: 1 <= j <= i + 1 ==> TotalSeats(hs[..j]) < required
  {
  }

  /** The state the accumulation loop leaves determines the selection. */
  lemma SelectionLoopDone(halls: seq<Hall>, n: nat, i: nat)
    requires i <= |ByCapacity(halls)|
    requires ByCapacity(halls) != [] ==> i >= 1
    requires i == |ByCapacity(halls)| || TotalSeats(ByCapacity(halls)[..i]) >= RequiredCapacity(n)
    requires forall j :: 1 <= j < i ==> TotalSeats(ByCapacity(halls)[..j]) < RequiredCapacity(n)
    ensures KeepSelected(halls, Codes(ByCapacity(halls)[..i])) == SelectedHalls(halls, n)
  {
    TakeCountUnique(ByCapacity(halls), RequiredCapacity(n), i);
  }

  lemma {:induction false} KeepSelectedAppend(a: seq<Hall>, b: seq<Hall>, sel: set<string>)
    ensures KeepSelected(a + b, sel) == KeepSelected(a, sel) + KeepSelected(b, sel)
  {
    if a == [] {
      assert a + b == b;
    } else {
      assert (a + b)[1..] == a[1..] + b;
      KeepSelectedAppend(a[1..], b, sel);
    }
  }

  lemma KeepAll(hs: seq<Hall>, sel: set<string>)
    requires forall h :: h in hs ==> h.code in sel
    ensures KeepSelected(hs, sel) == hs
  {
    if hs != [] {
      KeepAll(hs[1..], sel);
    }
  }

  lemma KeepNone(hs: seq<Hall>, sel: set<string>)
    requires forall h :: h in hs ==> h.code !in sel
    ensures KeepSelected(hs, sel) == []
  {
    if hs != [] {
      KeepNone(hs[1..], sel);
    }
  }

  lemma {:induction false} KeepSelectedSubsequence(hs: seq<Hall>, sel: set<string>)
    ensures Subsequence(KeepSelected(hs, sel), hs)
  {
    if hs != [] {
      KeepSelectedSubsequence(hs[1..], sel);
      var rest := KeepSelected(hs[1..], sel);
      if hs[0].code in sel {
        assert KeepSelected(hs, sel) == [hs[0]] + rest;
        assert ([hs[0]] + rest)[1..] == rest;
      } else {
        assert KeepSelected(hs, sel) == rest;
      }
    }
  }

  /** The seats a code set stands for: the first hall's, if selected, and the rest's. */
  lemma KeepSeatsCons(xs: seq<Hall>, sel: set<string>)
    requires xs != []
    ensures TotalSeats(KeepSelected(xs, sel))
         == (if xs[0].code in sel then Grid(xs[0]) else 0) + TotalSeats(KeepSelected(xs[1..], sel))
  {
    TotalSeatsAppend(if xs[0].code in sel then [xs[0]] else [], KeepSelected(xs[1..], sel));
  }

  /** Insert puts its element between a prefix and the rest of the list. */
  lemma {:induction false} InsertPos(x: Hall, ys: seq<Hall>, key: Hall -> Key) returns (m: nat)
    ensures m <= |ys| && Insert(x, ys, key) == ys[..m] + [x] + ys[m..]
  {
    if ys == [] || KeyLe(key(x), key(ys[0])) {
      m := 0;
      assert ys[..0] == [] && ys[0..] == ys;
    } else {
      var m' := InsertPos(x, ys[1..], key);
      m := m' + 1;
      var t := Insert(x, ys[1..], key);
      assert Insert(x, ys, key) == [ys[0]] + t;
      assert ys[..m] == [ys[0]] + ys[1..][..m'];
      assert ys[m..] == ys[1..][m'..];
    }
  }

  lemma {:induction false} InsertKeepsSeats(x: Hall, ys: seq<Hall>, key: Hall -> Key, sel: set<string>)
    ensures TotalSeats(KeepSelected(Insert(x, ys, key), sel))
         == (if x.code in sel then Grid(x) else 0) + TotalSeats(KeepSelected(ys, sel))
  {
    if ys == [] || KeyLe(key(x), key(ys[0])) {
      KeepSelectedAppend([x], ys, sel);
      TotalSeatsAppend(KeepSelected([x], sel), KeepSelected(ys, sel));
    } else {
      InsertKeepsSeats(x, ys[1..], key, sel);
      KeepSelectedAppend([ys[0]], Insert(x, ys[1..], key), sel);
      TotalSeatsAppend(KeepSelected([ys[0]], sel), KeepSelected(Insert(x, ys[1..], key), sel));
      KeepSelectedAppend([ys[0]], ys[1..], sel);
      assert [ys[0]] + ys[1..] == ys;
      TotalSeatsAppend(KeepSelected([ys[0]], sel), KeepSelected(ys[1..], sel));
    }
  }

  /** Sorting does not change how many seats a set of hall codes stands for. */
  lemma {:induction false} SortKeepsSeats(xs: seq<Hall>, key: Hall -> Key, sel: set<string>)
    ensures TotalSeats(KeepSelected(SortBy(xs, key), sel)) == TotalSeats(KeepSelected(xs, sel))
  {
    if xs != [] {
      SortKeepsSeats(xs[1..], key, sel);
      assert SortBy(xs, key) == Insert(xs[0], SortBy(xs[1..], key), key);
      InsertKeepsSeats(xs[0], SortBy(xs[1..], key), key, sel);
      KeepSeatsCons(xs, sel);
    }
  }

  lemma SameElements(xs: seq<Hall>, ys: seq<Hall>)
    requires multiset(xs) == multiset(ys)
    ensures forall h :: h in xs <==> h in ys
    ensures Codes(xs) == Codes(ys)
  {
    forall h ensures h in xs <==> h in ys {
      assert h in xs <==> h in multiset(xs);
      assert h in ys <==> h in multiset(ys);
    }
  }

  lemma InsertDistinct(x: Hall, ys: seq<Hall>, key: Hall -> Key)
    requires DistinctCodes(ys) && x.code !in Codes(ys)
    ensures DistinctCodes(Insert(x, ys, key))
  {
    var m := InsertPos(x, ys, key);
    OtherCodes(x, ys);
    SpliceDistinct(x, ys, m);
  }

  /** Putting a hall with a fresh code anywhere keeps the codes distinct. */
  lemma SpliceDistinct(x: Hall, ys: seq<Hall>, m: nat)
    requires m <= |ys| && DistinctCodes(ys)
    requires forall k :: 0 <= k < |ys| ==> ys[k].code != x.code
    ensures DistinctCodes(ys[..m] + [x] + ys[m..])
  {
    var r := ys[..m] + [x] + ys[m..];
    forall i, j | 0 <= i < j < |r| ensures r[i].code != r[j].code {
      if j == m {
        assert r[i] == ys[i];
      } else if i == m {
        assert r[j] == ys[j - 1];
      } else {
        var i' := if i < m then i else i - 1;
        var j' := if j < m then j else j - 1;
        assert r[i] == ys[i'] && r[j] == ys[j'];
      }
    }
  }

  lemma OtherCodes(x: Hall, ys: seq<Hall>)
    requires x.code !in Codes(ys)
    ensures forall k :: 0 <= k < |ys| ==> ys[k].code != x.code
  {
    forall k | 0 <= k < |ys| ensures ys[k].code != x.code {
      assert ys[k] in ys;
    }
  }

  lemma {:induction false} SortDistinct(xs: seq<Hall>, key: Hall -> Key)
    requires DistinctCodes(xs)
    ensures DistinctCodes(SortBy(xs, key))
  {
    if xs != [] {
      assert DistinctCodes(xs[1..]) by {
        forall i, j | 0 <= i < j < |xs[1..]| ensures xs[1..][i].code != xs[1..][j].code {
          assert xs[1..][i] == xs[i + 1] && xs[1..][j] == xs[j + 1];
        }
      }
      SortDistinct(xs[1..], key);
      SameElements(SortBy(xs[1..], key), xs[1..]);
      forall h | h in xs[1..] ensures h.code != xs[0].code {
        var m :| 0 <= m < |xs[1..]| && xs[1..][m] == h;
        assert xs[m + 1] == h;
      }
      InsertDistinct(xs[0], SortBy(xs[1..], key), key);
    }
  }

  /** With distinct codes, no hall after position k shares a code with one before. */
  lemma PrefixCodesExclusive(hs: seq<Hall>, k: nat)
    requires DistinctCodes(hs) && k <= |hs|
    ensures forall h :: h in hs[k..] ==> h.code !in Codes(hs[..k])
  {
    forall h | h in hs[k..] ensures h.code !in Codes(hs[..k]) {
      var m :| 0 <= m < |hs[k..]| && hs[k..][m] == h;
      forall g | g in hs[..k] ensures g.code != h.code {
        var p :| 0 <= p < k && hs[..k][p] == g;
        assert hs[p].code != hs[k + m].code;
      }
    }
  }

  /** Selecting by the codes of a prefix keeps exactly the prefix's seats. */
  lemma PrefixSeatsKept(hs: seq<Hall>, k: nat)
    requires DistinctCodes(hs) && k <= |hs|
    ensures TotalSeats(KeepSelected(hs, Codes(hs[..k]))) == TotalSeats(hs[..k])
  {
    var a, b := hs[..k], hs[k..];
    var sel := Codes(a);
    KeepSelectedSplit(hs, k, sel);
    KeepOwnCodes(a);
    PrefixCodesExclusive(hs, k);
    KeepNone(b, sel);
    assert a + [] == a;
    assert KeepSelected(hs, sel) == a;
  }

  lemma KeepSelectedSplit(hs: seq<Hall>, k: nat, sel: set<string>)
    requires k <= |hs|
    ensures KeepSelected(hs, sel) == KeepSelected(hs[..k], sel) + KeepSelected(hs[k..], sel)
  {
    assert hs == hs[..k] + hs[k..];
    KeepSelectedAppend(hs[..k], hs[k..], sel);
  }

  lemma KeepOwnCodes(hs: seq<Hall>)
    ensures KeepSelected(hs, Codes(hs)) == hs
  {
    KeepAll(hs, Codes(hs));
  }

  /** sorted(..., key=rows*cols, reverse=True) puts larger grids first. */
  lemma ByCapacityDescending(halls: seq<Hall>)
    ensures forall i, j :: 0 <= i < j < |ByCapacity(halls)| ==>
              Grid(ByCapacity(halls)[i]) >= Grid(ByCapacity(halls)[j])
  {
    SortSorted(halls, CapacityKey);
    var sorted := ByCapacity(halls);
    forall i, j | 0 <= i < j < |sorted| ensures Grid(sorted[i]) >= Grid(sorted[j]) {
      assert KeyLe(CapacityKey(sorted[i]), CapacityKey(sorted[j]));
    }
  }

  /** The halls selected hold as many seats as the largest-first prefix the
      accumulation loop took. */
  lemma SelectedSeats(halls: seq<Hall>, n: nat)
    requires DistinctCodes(halls)
    ensures var sorted := ByCapacity(halls);
            TotalSeats(SelectedHalls(halls, n)) == TotalSeats(sorted[..TakeCount(sorted, RequiredCapacity(n))])
  {
    var sorted := ByCapacity(halls);
    var k := TakeCount(sorted, RequiredCapacity(n));
    SortKeepsSeats(halls, CapacityKey, Codes(sorted[..k]));
    SortDistinct(halls, CapacityKey);
    PrefixSeatsKept(sorted, k);
  }

  /** After validation the selected halls seat every student, so the error
      raised when the selected grids fall short cannot happen. */
  lemma SelectionCovers(halls: seq<Hall>, n: nat)
    requires DistinctCodes(halls)
    requires ValidateInputs(halls, n) == None
    ensures TotalSeats(SelectedHalls(halls, n)) >= n
  {
    var sorted := ByCapacity(halls);
    var k := TakeCount(sorted, RequiredCapacity(n));
    SelectedSeats(halls, n);
    TakeCountStops(sorted, RequiredCapacity(n));
    ValidateInputsPasses(halls, n);
    if k == |sorted| {
      assert sorted[..k] == sorted;
      SortKeepsSeats(halls, CapacityKey, Codes(halls));
      SameElements(sorted, halls);
      KeepAll(halls, Codes(halls));
      KeepAll(sorted, Codes(halls));
    }
  }

  /** The selection keeps the declared hall order, takes at least one hall when
      there are any, and prefers larger grids: every selected hall is at least
      as large as every hall left out. */
  lemma SelectedHallsLargest(halls: seq<Hall>, n: nat)
    requires DistinctCodes(halls)
    ensures Subsequence(SelectedHalls(halls, n), halls)
    ensures halls != [] ==> SelectedHalls(halls, n) != []
    ensures forall h, g :: h in SelectedHalls(halls, n) && g in halls && g !in SelectedHalls(halls, n) ==>
              Grid(h) >= Grid(g)
  {
    var sorted := ByCapacity(halls);
    var k := TakeCount(sorted, RequiredCapacity(n));
    var sel := Codes(sorted[..k]);
    KeepSelectedSubsequence(halls, sel);
    TakeCountStops(sorted, RequiredCapacity(n));
    SameElements(sorted, halls);
    if halls != [] {
      assert sorted[0] in sorted[..k];
      assert sorted[0] in halls;
    }
    forall h, g | h in SelectedHalls(halls, n) && g in halls && g !in SelectedHalls(halls, n)
      ensures Grid(h) >= Grid(g)
    {
      LargerSelected(halls, k, h, g);
    }
  }

  lemma LargerSelected(halls: seq<Hall>, k: nat, h: Hall, g: Hall)
    requires DistinctCodes(halls)
    requires k <= |halls|
    requires h in halls && h.code in Codes(ByCapacity(halls)[..k])
    requires g in halls && g.code !in Codes(ByCapacity(halls)[..k])
    ensures Grid(h) >= Grid(g)
  {
    var sorted := ByCapacity(halls);
    SortDistinct(halls, CapacityKey);
    SameElements(sorted, halls);
    ByCapacityDescending(halls);
    var y :| y in sorted[..k] && y.code == h.code;
    var i :| 0 <= i < k && sorted[..k][i] == y;
    var p :| 0 <= p < |sorted| && sorted[p] == h;
    var q :| 0 <= q < |sorted| && sorted[q] == g;
    assert sorted[i].code == sorted[p].code;
    assert p == i;
    assert p < q;
  }

  // ---------------------------------------------------------------- target lemmas

  function SumRems(hs: seq<Hall>, total: nat, n: nat): nat
    requires total > 0
  {
    if hs == [] then 0 else Grid(hs[0]) * n % total + SumRems(hs[1..], total, n)
  }

  lemma {:induction false} ShareDecomposition(hs: seq<Hall>, total: nat, n: nat)
    requires total > 0
    ensures total * SumShares(hs, total, n) + SumRems(hs, total, n) == n * TotalSeats(hs)
    ensures SumRems(hs, total, n) <= |hs| * (total - 1)
  {
    if hs != [] {
      ShareDecomposition(hs[1..], total, n);
      var g := Grid(hs[0]);
      var t := TotalSeats(hs[1..]);
      var f := SumShares(hs[1..], total, n);
      var q := g * n / total;
      var r := g * n % total;
      assert g * n == total * q + r;
      Distrib(n, g, t);
      Distrib(total, q, f);
      Distrib(total - 1, 1, |hs[1..]|);
    }
  }

  lemma Distrib(a: int, b: int, c: int)
    ensures a * (b + c) == a * b + a * c
    ensures (b + c) * a == b * a + c * a
  {
  }

  lemma MulMono(c: nat, a: int, b: int)
    requires a <= b
    ensures c * a <= c * b
  {
  }

  lemma MulCancelLt(c: nat, x: int, y: int)
    requires c > 0 && c * x < c * y
    ensures x < y
  {
    if x >= y {
      MulMono(c, y, x);
    }
  }

  /** Flooring the shares loses fewer seats than there are halls. */
  lemma SharesShortfall(hs: seq<Hall>, n: nat)
    requires TotalSeats(hs) > 0
    ensures SumShares(hs, TotalSeats(hs), n) <= n
    ensures n - SumShares(hs, TotalSeats(hs), n) < |hs|
  {
    var c := TotalSeats(hs);
    var f := SumShares(hs, c, n);
    var r := SumRems(hs, c, n);
    ShareDecomposition(hs, c, n);
    assert c * f + r == c * n;
    Distrib(c, n, 1);
    MulCancelLt(c, f, n + 1);
    Distrib(c, n - f, f);
    assert hs != [];
    Distrib(|hs|, c - 1, 1);
    MulCancelLt(c, n - f, |hs|);
  }

  /** With at most as many students as seats, no share exceeds its grid, and a
      share falls short of a non-empty grid when there are fewer students. */
  lemma ShareWithinGrid(h: Hall, total: nat, n: nat)
    requires n <= total && total > 0
    ensures Share(h, total, n) <= Grid(h)
    ensures n < total && Grid(h) > 0 ==> Share(h, total, n) < Grid(h)
  {
    var g := Grid(h);
    var q := g * n / total;
    assert total * q <= g * n;
    MulMono(g, n, total);
    if q > g {
      MulMono(total, g + 1, q);
    }
    if n < total && g > 0 {
      MulMono(g, n + 1, total);
      assert g * (n + 1) == g * n + g;
      if q >= g {
        MulMono(total, g, q);
      }
    }
  }

  lemma {:induction false} ToppedAt(hs: seq<Hall>, total: nat, n: nat, rem: int)
    ensures forall i :: 0 <= i < |hs| ==>
              Topped(hs, total, n, rem)[i] == Share(hs[i], total, n) + (if i < rem then 1 else 0)
  {
    if hs != [] {
      ToppedAt(hs[1..], total, n, rem - 1);
      var t := Topped(hs, total, n, rem);
      forall i | 0 <= i < |hs| ensures t[i] == Share(hs[i], total, n) + (if i < rem then 1 else 0) {
        if i > 0 {
          assert t[i] == Topped(hs[1..], total, n, rem - 1)[i - 1];
        }
      }
    }
  }

  lemma {:induction false} ToppedSum(hs: seq<Hall>, total: nat, n: nat, rem: int)
    requires 0 <= rem <= |hs|
    ensures SumInts(Topped(hs, total, n, rem)) == SumShares(hs, total, n) + rem
  {
    if hs != [] {
      ToppedSum(hs[1..], total, n, if rem > 0 then rem - 1 else 0);
      if rem == 0 {
        ToppedNoBonus(hs[1..], total, n, -1);
      }
    }
  }

  lemma {:induction false} ToppedNoBonus(hs: seq<Hall>, total: nat, n: nat, rem: int)
    requires rem <= 0
    ensures Topped(hs, total, n, rem) == Topped(hs, total, n, 0)
  {
    if hs != [] {
      ToppedNoBonus(hs[1..], total, n, rem - 1);
      ToppedNoBonus(hs[1..], total, n, -1);
    }
  }

  /** The targets share out exactly the students, never more than the grid of
      a hall with seats, and differ from the proportional share by at most the
      one extra seat the first halls receive. A hall without seats still gets
      that extra seat when the remainder reaches it. */
  lemma TargetsShape(use: seq<Hall>, n: nat)
    requires TotalSeats(use) >= n
    ensures SumInts(Targets(use, n)) == n
    ensures forall i :: 0 <= i < |use| ==>
              0 <= Targets(use, n)[i] && (Grid(use[i]) > 0 ==> Targets(use, n)[i] <= Grid(use[i]))
    ensures forall i :: 0 <= i < |use| ==>
              Share(use[i], TotalSeats(use), n) <= Targets(use, n)[i] <= Share(use[i], TotalSeats(use), n) + 1
  {
    var total := TotalSeats(use);
    var rem := n - SumShares(use, total, n);
    if total == 0 {
      ZeroShares(use, n);
    } else {
      SharesShortfall(use, n);
      TargetsWithinGrid(use, n);
    }
    ToppedSum(use, total, n, rem);
    ToppedAt(use, total, n, rem);
  }

  /** A hall with seats never gets more students than its grid holds. */
  lemma TargetsWithinGrid(use: seq<Hall>, n: nat)
    requires TotalSeats(use) >= n && TotalSeats(use) > 0
    ensures forall i :: 0 <= i < |use| && Grid(use[i]) > 0 ==> Targets(use, n)[i] <= Grid(use[i])
  {
    var total := TotalSeats(use);
    var rem := n - SumShares(use, total, n);
    ToppedAt(use, total, n, rem);
    if n == total {
      ExactShares(use, total);
    }
    forall i | 0 <= i < |use| && Grid(use[i]) > 0 ensures Targets(use, n)[i] <= Grid(use[i]) {
      ShareWithinGrid(use[i], total, n);
    }
  }

  /** Without any seat every share is zero. */
  lemma {:induction false} ZeroShares(hs: seq<Hall>, n: nat)
    ensures SumShares(hs, 0, n) == 0
  {
    if hs != [] {
      ZeroShares(hs[1..], n);
    }
  }

  /** The remainder goes to the halls in their declared order: a hall gets a
      seat above its share only if every earlier hall did. */
  lemma TargetsFavourEarlier(use: seq<Hall>, n: nat)
    ensures forall i, j :: 0 <= i < j < |use| && Targets(use, n)[j] > Share(use[j], TotalSeats(use), n) ==>
              Targets(use, n)[i] > Share(use[i], TotalSeats(use), n)
  {
    var total := TotalSeats(use);
    var rem := n - SumShares(use, total, n);
    var t := Targets(use, n);
    assert t == Topped(use, total, n, rem);
    ToppedAt(use, total, n, rem);
    forall i, j | 0 <= i < j < |use| && t[j] > Share(use[j], total, n) ensures t[i] > Share(use[i], total, n) {
      assert j < rem;
    }
  }

  /** When the students fill every seat, every share is exact. */
  lemma {:induction false} ExactShares(hs: seq<Hall>, total: nat)
    requires total > 0
    ensures SumShares(hs, total, total) == TotalSeats(hs)
  {
    if hs != [] {
      ExactShares(hs[1..], total);
      DivModOf(Grid(hs[0]), 0, total);
    }
  }

  // ---------------------------------------------------------------- fill lemmas

  function Room(usable: int, available: nat): nat
  {
    if usable <= 0 then 0 else if usable < available then usable else available
  }

  /** A hall takes as many students as it can use or as remain, and the split
      is balanced unless a half runs out. */
  lemma {:induction false} SplitShape(nf: nat, ns: nat, usable: int)
    ensures var (i, j) := Split(nf, ns, usable);
            i + j == Room(usable, nf + ns)
            && (j <= i <= j + 1 || (i == nf && i < j) || (j == ns && j + 1 < i))
    decreases nf + ns
  {
    if usable > 0 && nf + ns > 0 {
      var a := if nf > 0 then 1 else 0;
      var b := if ns > 0 && a < usable then 1 else 0;
      SplitShape(nf - a, ns - b, usable - a - b);
    }
  }

  lemma {:induction false} InterleavePrefix(x: seq<Student>, y: seq<Student>, i: nat, j: nat)
    requires i <= |x| && j <= |y|
    requires j <= i <= j + 1 || (i == |x| && i < j) || (j == |y| && j + 1 < i)
    ensures Interleave(x[..i], y[..j]) == Interleave(x, y)[..i + j]
  {
    if i == 0 {
      assert x[..0] == [];
    } else if j == 0 {
      assert y[..0] == [];
      if y != [] {
        assert Interleave(x, y)[..1] == [x[0]] == x[..1];
      }
    } else {
      InterleavePrefix(x[1..], y[1..], i - 1, j - 1);
      assert x[..i][1..] == x[1..][..i - 1];
      assert y[..j][1..] == y[1..][..j - 1];
    }
  }

  /** One hall receives the front of the two halves interleaved: as many
      students as it can use, or all that remain. */
  lemma HallTakesFront(first: seq<Student>, second: seq<Student>, usable: int)
    ensures var (i, j) := Split(|first|, |second|, usable);
            Interleave(first[..i], second[..j]) == Interleave(first, second)[..Room(usable, |first| + |second|)]
  {
    var (i, j) := Split(|first|, |second|, usable);
    SplitShape(|first|, |second|, usable);
    InterleavePrefix(first, second, i, j);
  }

  lemma {:induction false} InterleavePermutes(x: seq<Student>, y: seq<Student>)
    ensures multiset(Interleave(x, y)) == multiset(x) + multiset(y)
  {
    if x != [] && y != [] {
      InterleavePermutes(x[1..], y[1..]);
      assert Interleave(x, y) == [x[0], y[0]] + Interleave(x[1..], y[1..]);
      var z := Interleave(x[1..], y[1..]);
      assert multiset([x[0], y[0]] + z) == multiset{x[0], y[0]} + multiset(z);
      MultisetFront(x);
      MultisetFront(y);
    }
  }

  lemma MultisetFront(x: seq<Student>)
    requires x != []
    ensures multiset(x) == multiset{x[0]} + multiset(x[1..])
  {
    assert x == [x[0]] + x[1..];
  }

  /** The students a hall takes are exactly those the two halves lose. */
  lemma HallMoves(first: seq<Student>, second: seq<Student>, i: nat, j: nat)
    requires i <= |first| && j <= |second|
    ensures multiset(Interleave(first[..i], second[..j])) + multiset(first[i..]) + multiset(second[j..])
         == multiset(first) + multiset(second)
  {
    InterleavePermutes(first[..i], second[..j]);
    assert first == first[..i] + first[i..];
    assert second == second[..j] + second[j..];
  }

  /** Filling moves students from the halves into the halls: nobody is lost or
      duplicated. */
  lemma {:induction false} FillConserves(use: seq<Hall>, targets: seq<int>, first: seq<Student>, second: seq<Student>)
    requires |targets| == |use|
    ensures var r := FillHalls(use, targets, first, second);
            multiset(Concat(r.lists)) + multiset(r.first) + multiset(r.second) == multiset(first) + multiset(second)
  {
    if use != [] {
      var (i, j) := Split(|first|, |second|, Usable(use[0], targets[0]));
      var taken := Interleave(first[..i], second[..j]);
      var rest := FillHalls(use[1..], targets[1..], first[i..], second[j..]);
      FillConserves(use[1..], targets[1..], first[i..], second[j..]);
      HallMoves(first, second, i, j);
      ConcatMoves(taken, rest.lists, first, second, first[i..], second[j..], rest.first, rest.second);
    }
  }

  lemma ConcatMoves(taken: seq<Student>, lists: seq<seq<Student>>, f: seq<Student>, s: seq<Student>,
                    f1: seq<Student>, s1: seq<Student>, f2: seq<Student>, s2: seq<Student>)
    requires multiset(taken) + multiset(f1) + multiset(s1) == multiset(f) + multiset(s)
    requires multiset(Concat(lists)) + multiset(f2) + multiset(s2) == multiset(f1) + multiset(s1)
    ensures multiset(Concat([taken] + lists)) + multiset(f2) + multiset(s2) == multiset(f) + multiset(s)
  {
    assert ([taken] + lists)[1..] == lists;
    assert Concat([taken] + lists) == taken + Concat(lists);
    assert multiset(Concat([taken] + lists)) == multiset(taken) + multiset(Concat(lists));
    var rest := multiset(Concat(lists)) + multiset(f2) + multiset(s2);
    assert multiset(Concat([taken] + lists)) + multiset(f2) + multiset(s2) == multiset(taken) + rest;
    assert multiset(taken) + rest == multiset(taken) + (multiset(f1) + multiset(s1));
  }

  /** No hall receives more students than it can use. */
  lemma {:induction false} FillBounded(use: seq<Hall>, targets: seq<int>, first: seq<Student>, second: seq<Student>)
    requires |targets| == |use|
    ensures var r := FillHalls(use, targets, first, second);
            forall k :: 0 <= k < |use| ==> |r.lists[k]| <= Room(Usable(use[k], targets[k]), Grid(use[k]))
  {
    if use != [] {
      var u := Usable(use[0], targets[0]);
      var (i, j) := Split(|first|, |second|, u);
      var rest := FillHalls(use[1..], targets[1..], first[i..], second[j..]);
      SplitShape(|first|, |second|, u);
      FillBounded(use[1..], targets[1..], first[i..], second[j..]);
      var r := FillHalls(use, targets, first, second);
      forall k | 0 <= k < |use| ensures |r.lists[k]| <= Room(Usable(use[k], targets[k]), Grid(use[k])) {
        if k > 0 {
          assert r.lists[k] == rest.lists[k - 1] && use[k] == use[1..][k - 1] && targets[k] == targets[1..][k - 1];
        }
      }
    }
  }

  /** Σ of the seats each hall can use. */
  function TotalRoom(use: seq<Hall>, targets: seq<int>): nat
    requires |targets| == |use|
  {
    if use == [] then 0 else Room(Usable(use[0], targets[0]), Grid(use[0])) + TotalRoom(use[1..], targets[1..])
  }

  /** When the halls can use as many seats as there are students, nobody is left. */
  lemma {:induction false} FillEmpties(use: seq<Hall>, targets: seq<int>, first: seq<Student>, second: seq<Student>)
    requires |targets| == |use|
    requires TotalRoom(use, targets) >= |first| + |second|
    ensures FillHalls(use, targets, first, second).first == []
    ensures FillHalls(use, targets, first, second).second == []
  {
    if use != [] {
      var u := Usable(use[0], targets[0]);
      var (i, j) := Split(|first|, |second|, u);
      SplitShape(|first|, |second|, u);
      FillEmpties(use[1..], targets[1..], first[i..], second[j..]);
    }
  }

  // ---------------------------------------------------------------- outcome lemmas

  /** Every hall's list fits its grid, whatever the outcome. */
  lemma PlanFits(students: seq<Student>, halls: seq<Hall>)
    ensures Fits(MakePlan(students, halls).use, MakePlan(students, halls).lists)
  {
    var n := |students|;
    if ValidateInputs(halls, n) == None {
      var use := SelectedHalls(halls, n);
      if TotalSeats(use) >= n {
        var h := HalfPoint(n);
        var fill := FillHalls(use, Targets(use, n), students[..h], students[h..]);
        FillBounded(use, Targets(use, n), students[..h], students[h..]);
        assert MakePlan(students, halls).use == use && MakePlan(students, halls).lists == fill.lists;
      }
    }
  }

  /** The selection always reaches the students: the raise after the 25-seat
      block selection cannot happen when hall codes are distinct. */
  lemma PlanNeverSelectionShort(students: seq<Student>, halls: seq<Hall>)
    requires DistinctCodes(halls)
    ensures MakePlan(students, halls).outcome != SelectionShort
  {
    if ValidateInputs(halls, |students|) == None {
      SelectionCovers(halls, |students|);
    }
  }

  /** Nobody is lost or seated twice: the halls' lists together with the
      students reported as left over are the input students, and the run
      succeeds exactly when the lists hold every student. */
  lemma PlanAccounts(students: seq<Student>, halls: seq<Hall>)
    requires !MakePlan(students, halls).outcome.Invalid?
    requires !MakePlan(students, halls).outcome.SelectionShort?
    ensures var p := MakePlan(students, halls);
            (p.outcome == Allocated <==> multiset(Concat(p.lists)) == multiset(students))
            && (p.outcome.Unallocated? ==> p.outcome.regs != [] && |Concat(p.lists)| + |p.outcome.regs| == |students|)
  {
    var n := |students|;
    var h := HalfPoint(n);
    var use := SelectedHalls(halls, n);
    var first, second := students[..h], students[h..];
    var fill := FillHalls(use, Targets(use, n), first, second);
    var left := fill.first + fill.second;
    PlanValidated(students, halls);
    assert multiset(Concat(fill.lists)) + multiset(left) == multiset(students) by {
      FillConserves(use, Targets(use, n), first, second);
      HalvesJoin(students, h);
    }
    LeftAccounts(Concat(fill.lists), left, students);
    assert |Regs(left)| == |left|;
  }

  /** A run that neither fails validation nor the selection check fills
      the selected halls from the two halves and reports who is left. */
  lemma PlanValidated(students: seq<Student>, halls: seq<Hall>)
    requires !MakePlan(students, halls).outcome.Invalid?
    requires !MakePlan(students, halls).outcome.SelectionShort?
    ensures var n, h := |students|, HalfPoint(|students|);
            var use := SelectedHalls(halls, n);
            var fill := FillHalls(use, Targets(use, n), students[..h], students[h..]);
            var left := fill.first + fill.second;
            MakePlan(students, halls) == Plan(if left == [] then Allocated else Unallocated(Regs(left)), use, fill.lists)
  {
  }

  lemma HalvesJoin(students: seq<Student>, h: nat)
    requires h <= |students|
    ensures multiset(students[..h]) + multiset(students[h..]) == multiset(students)
  {
    assert students == students[..h] + students[h..];
  }

  /** Seated and left-over students that together make up the input are all
      of it exactly when nobody is left over. */
  lemma LeftAccounts(seated: seq<Student>, left: seq<Student>, students: seq<Student>)
    requires multiset(seated) + multiset(left) == multiset(students)
    ensures left == [] <==> multiset(seated) == multiset(students)
    ensures |seated| + |left| == |students|
  {
    assert |multiset(seated)| + |multiset(left)| == |multiset(students)|;
    if left != [] {
      assert left[0] in multiset(left);
    }
  }

  /** Every hall's share of the students fits what the hall can use, so
      nobody is left over, when the declared capacity of each selected hall
      covers its target. */
  lemma PlanSucceeds(students: seq<Student>, halls: seq<Hall>)
    requires DistinctCodes(halls)
    requires ValidateInputs(halls, |students|) == None
    requires forall h :: h in halls ==> Grid(h) > 0
    requires var use := SelectedHalls(halls, |students|);
             forall k :: 0 <= k < |use| ==> use[k].capacity >= Targets(use, |students|)[k]
    ensures MakePlan(students, halls).outcome == Allocated
  {
    var n := |students|;
    var use := SelectedHalls(halls, n);
    SelectionCovers(halls, n);
    assert forall h :: h in use ==> Grid(h) > 0;
    TargetsShape(use, n);
    var t := Targets(use, n);
    RoomOfTargets(use, t);
    FillEmpties(use, t, students[..HalfPoint(n)], students[HalfPoint(n)..]);
  }

  lemma {:induction false} RoomOfTargets(use: seq<Hall>, t: seq<int>)
    requires |t| == |use|
    requires forall k :: 0 <= k < |use| ==> 0 <= t[k] <= Grid(use[k]) && t[k] <= use[k].capacity
    ensures TotalRoom(use, t) == SumInts(t)
  {
    if use != [] {
      RoomOfTargets(use[1..], t[1..]);
    }
  }

  /** In particular every student is seated when each hall's declared
      capacity is its whole grid. */
  lemma PlanSucceedsAtFullCapacity(students: seq<Student>, halls: seq<Hall>)
    requires DistinctCodes(halls)
    requires |students| <= TotalSeats(halls)
    requires forall h :: h in halls ==> Grid(h) > 0 && h.capacity == Grid(h)
    ensures MakePlan(students, halls).outcome == Allocated
  {
    var n := |students|;
    ValidateInputsPasses(halls, n);
    var use := SelectedHalls(halls, n);
    SelectionCovers(halls, n);
    assert forall h :: h in use ==> Grid(h) > 0;
    TargetsShape(use, n);
    PlanSucceeds(students, halls);
  }

  // ---------------------------------------------------------------- halls without seats

  /** The halls with at least one seat, in declared order. */
  function SeatedHalls(halls: seq<Hall>): (r: seq<Hall>)
    ensures forall h :: h in r <==> h in halls && Grid(h) > 0
    ensures TotalSeats(r) == TotalSeats(halls)
    ensures (forall h :: h in halls ==> Grid(h) > 0) ==> r == halls
  {
    if halls == [] then []
    else
      var rest := SeatedHalls(halls[1..]);
      assert forall h :: h in halls <==> h == halls[0] || h in halls[1..];
      if Grid(halls[0]) > 0 then
        assert ([halls[0]] + rest)[1..] == rest;
        [halls[0]] + rest
      else rest
  }

  lemma {:induction false} SeatedDistinct(halls: seq<Hall>)
    requires DistinctCodes(halls)
    ensures DistinctCodes(SeatedHalls(halls))
    ensures forall k :: 0 <= k < |SeatedHalls(halls)| ==> SeatedHalls(halls)[k] in halls
  {
    if halls != [] {
      DistinctTail(halls);
      SeatedDistinct(halls[1..]);
      if Grid(halls[0]) > 0 {
        SeatedOtherCodes(halls);
        SeatedFront(halls[0], SeatedHalls(halls[1..]));
      }
    }
  }

  lemma DistinctTail(halls: seq<Hall>)
    requires halls != [] && DistinctCodes(halls)
    ensures DistinctCodes(halls[1..])
  {
    var tail := halls[1..];
    forall i, j | 0 <= i < j < |tail| ensures tail[i].code != tail[j].code {
      assert tail[i] == halls[i + 1] && tail[j] == halls[j + 1];
    }
  }

  /** No seated hall after the first has the first hall's code. */
  lemma SeatedOtherCodes(halls: seq<Hall>)
    requires halls != [] && DistinctCodes(halls)
    ensures forall k :: 0 <= k < |SeatedHalls(halls[1..])| ==> SeatedHalls(halls[1..])[k].code != halls[0].code
  {
    var tail := halls[1..];
    var rest := SeatedHalls(tail);
    forall k | 0 <= k < |rest| ensures rest[k].code != halls[0].code {
      assert rest[k] in rest;
      var j :| 0 <= j < |tail| && tail[j] == rest[k];
      assert halls[j + 1] == rest[k];
    }
  }

  /** A hall whose code differs from those of distinct-coded halls can be
      put in front of them. */
  lemma SeatedFront(h: Hall, rest: seq<Hall>)
    requires DistinctCodes(rest) && forall k :: 0 <= k < |rest| ==> rest[k].code != h.code
    ensures DistinctCodes([h] + rest)
  {
    var r := [h] + rest;
    forall i, j | 0 <= i < j < |r| ensures r[i].code != r[j].code {
      assert r[j] == rest[j - 1];
      if i > 0 {
        assert r[i] == rest[i - 1];
      }
    }
  }

  /** allocate_seats with the halls that have no seat left out once the
      inputs are validated, so that no remainder seat is handed to a hall
      that cannot take anyone. */
  function SeatedPlan(students: seq<Student>, halls: seq<Hall>): (p: Plan)
    ensures |p.lists| == |p.use|
  {
    match ValidateInputs(halls, |students|)
    case Some(e) => Plan(Invalid(e), [], [])
    case None => MakePlan(students, SeatedHalls(halls))
  }

  /** Leaving out the seatless halls changes nothing when every hall has a
      seat, and never turns inputs that pass validation into a failed
      validation. */
  lemma SeatedPlanAgrees(students: seq<Student>, halls: seq<Hall>)
    ensures (forall h :: h in halls ==> Grid(h) > 0) ==> SeatedPlan(students, halls) == MakePlan(students, halls)
    ensures ValidateInputs(halls, |students|) == None ==>
              ValidateInputs(SeatedHalls(halls), |students|) == None
              && SeatedPlan(students, halls) == MakePlan(students, SeatedHalls(halls))
    ensures ValidateInputs(halls, |students|).Some? ==> SeatedPlan(students, halls).outcome.Invalid?
  {
    ValidateInputsPasses(halls, |students|);
    ValidateInputsPasses(SeatedHalls(halls), |students|);
  }

  /** With every declared capacity equal to its grid and seats enough for
      everyone, the corrected run seats everyone, also when some halls have
      no seat. */
  lemma SeatedPlanSucceeds(students: seq<Student>, halls: seq<Hall>)
    requires DistinctCodes(halls)
    requires |students| <= TotalSeats(halls)
    requires forall h :: h in halls ==> h.capacity == Grid(h)
    ensures SeatedPlan(students, halls).outcome == Allocated
  {
    ValidateInputsPasses(halls, |students|);
    SeatedDistinct(halls);
    PlanSucceedsAtFullCapacity(students, SeatedHalls(halls));
  }

  /** The halls of the example below: Z has no seat, A and B three each. */
  predicate SeatlessExample(z: Hall, a: Hall, b: Hall)
  {
    z == Hall("Z", "Z", "X", 0, 5, 0) && a == Hall("A", "A", "X", 1, 3, 3) && b == Hall("B", "B", "X", 1, 3, 3)
  }

  /** A capacity key is at most another exactly when its hall's grid is at
      least the other's. */
  lemma CapacityKeyLe(g: Hall, h: Hall)
    ensures KeyLe(CapacityKey(g), CapacityKey(h)) <==> Grid(g) >= Grid(h)
  {
    var x, y := CapacityKey(g), CapacityKey(h);
    assert x[1..] == [] && y[1..] == [];
    if x[0] == y[0] {
      assert x == y;
    } else {
      assert KeyLt(x, y) <==> AtomLt(x[0], y[0]);
    }
  }

  /** A hall whose key is above those of two others is inserted after both. */
  lemma InsertLast(x: Hall, y: Hall, w: Hall)
    requires !KeyLe(CapacityKey(x), CapacityKey(y)) && !KeyLe(CapacityKey(x), CapacityKey(w))
    ensures Insert(x, [y, w], CapacityKey) == [y, w, x]
  {
    assert [y, w][1..] == [w] && [w][1..] == [];
    assert Insert(x, [w], CapacityKey) == [w] + Insert(x, [], CapacityKey);
  }

  /** Three halls whose grids decrease from the second to the third to the
      first sort as second, third, first. */
  lemma SortLast(x: Hall, y: Hall, w: Hall)
    requires Grid(y) >= Grid(w) > Grid(x)
    ensures ByCapacity([x, y, w]) == [y, w, x]
  {
    CapacityKeyLe(y, w);
    CapacityKeyLe(x, y);
    CapacityKeyLe(x, w);
    assert [w][1..] == [] && [y, w][1..] == [w] && [x, y, w][1..] == [y, w];
    assert SortBy([w], CapacityKey) == [w];
    assert SortBy([y, w], CapacityKey) == [y, w];
    InsertLast(x, y, w);
  }

  /** By decreasing grid the example's halls are A, B, Z. */
  lemma SeatlessSorted(z: Hall, a: Hall, b: Hall)
    requires SeatlessExample(z, a, b)
    ensures ByCapacity([z, a, b]) == [a, b, z]
  {
    assert Grid(z) == 0 && Grid(a) == 3 && Grid(b) == 3;
    SortLast(z, a, b);
  }

  /** When the accumulation loop runs through every hall, every hall is
      selected, in declared order. */
  lemma SelectedAll(halls: seq<Hall>, n: nat)
    requires TakeCount(ByCapacity(halls), RequiredCapacity(n)) == |halls|
    ensures SelectedHalls(halls, n) == halls
  {
    var sorted := ByCapacity(halls);
    assert sorted[..|halls|] == sorted;
    forall h | h in halls ensures h.code in Codes(sorted) {
      assert h in multiset(sorted);
    }
    KeepAll(halls, Codes(sorted));
  }

  /** A, B and Z together hold 6 of the 25 seats asked for, so the loop
      takes all three. */
  lemma SeatlessTakeCount(z: Hall, a: Hall, b: Hall)
    requires SeatlessExample(z, a, b)
    ensures TakeCount([a, b, z], 25) == 3
  {
    assert [a, b, z][1..] == [b, z] && [b, z][1..] == [z] && [z][1..] == [];
    assert Grid(z) == 0 && Grid(a) == 3 && Grid(b) == 3;
    assert TakeCount([z], 19) == 1;
    assert TakeCount([b, z], 22) == 2;
  }

  /** All three halls together stay below the 25 seats five students
      require, so all are selected. */
  lemma SeatlessSelection(z: Hall, a: Hall, b: Hall)
    requires SeatlessExample(z, a, b)
    ensures SelectedHalls([z, a, b], 5) == [z, a, b]
  {
    assert TakeCount(ByCapacity([z, a, b]), RequiredCapacity(5)) == |[z, a, b]| by {
      SeatlessSorted(z, a, b);
      SeatlessTakeCount(z, a, b);
      assert RequiredCapacity(5) == 25;
    }
    SelectedAll([z, a, b], 5);
  }

  /** The example's halls hold six seats, and five students share them as
      0, 2 and 2. */
  lemma SeatlessShares(z: Hall, a: Hall, b: Hall)
    requires SeatlessExample(z, a, b)
    ensures TotalSeats([z, a, b]) == 6 && SumShares([z, a, b], 6, 5) == 4
  {
    assert [z, a, b][1..] == [a, b] && [a, b][1..] == [b] && [b][1..] == [];
    assert Grid(z) == 0 && Grid(a) == 3 && Grid(b) == 3;
    assert TotalSeats([b]) == 3 && TotalSeats([a, b]) == 6;
    assert Share(z, 6, 5) == 0 && Share(a, 6, 5) == 2 && Share(b, 6, 5) == 2;
    assert SumShares([b], 6, 5) == 2 && SumShares([a, b], 6, 5) == 4;
  }

  /** The example's shares are 0, 2 and 2, and the remainder seat goes to Z. */
  lemma SeatlessTargets(z: Hall, a: Hall, b: Hall)
    requires SeatlessExample(z, a, b)
    ensures Targets([z, a, b], 5) == [1, 2, 2]
  {
    SeatlessShares(z, a, b);
    assert [z, a, b][1..] == [a, b] && [a, b][1..] == [b] && [b][1..] == [];
    assert Grid(z) == 0 && Grid(a) == 3 && Grid(b) == 3;
    assert Share(z, 6, 5) == 0 && Share(a, 6, 5) == 2 && Share(b, 6, 5) == 2;
    assert Topped([b], 6, 5, -1) == [2];
    assert Topped([a, b], 6, 5, 0) == [2, 2];
  }

  /** B, aiming at two, takes one student from each half. */
  lemma SeatlessFillB(b: Hall, first: seq<Student>, second: seq<Student>)
    requires b == Hall("B", "B", "X", 1, 3, 3) && |first| == 2 && |second| == 1
    ensures FillHalls([b], [2], first, second).first == [first[1]]
    ensures FillHalls([b], [2], first, second).second == []
  {
    assert Grid(b) == 3 && Usable(b, 2) == 2;
    assert Split(1, 0, 0) == (0, 0) && Split(2, 1, 2) == (1, 1);
    assert [b][1..] == [] && [2][1..] == [];
    assert first[1..] == [first[1]] && second[1..] == [];
  }

  /** A, aiming at two, takes one student from each half, and so does B. */
  lemma SeatlessFillAB(a: Hall, b: Hall, first: seq<Student>, second: seq<Student>)
    requires a == Hall("A", "A", "X", 1, 3, 3) && b == Hall("B", "B", "X", 1, 3, 3)
    requires |first| == 3 && |second| == 2
    ensures FillHalls([a, b], [2, 2], first, second).first == [first[2]]
    ensures FillHalls([a, b], [2, 2], first, second).second == []
  {
    SeatlessFillB(b, first[1..], second[1..]);
    assert Grid(a) == 3 && Usable(a, 2) == 2;
    assert Split(2, 1, 0) == (0, 0) && Split(3, 2, 2) == (1, 1);
    assert [a, b][1..] == [b] && [2, 2][1..] == [2];
  }

  /** Z takes nobody, then A and B take two students each, alternating
      between the halves: the third student is left in the first half. */
  lemma SeatlessFill(z: Hall, a: Hall, b: Hall, ss: seq<Student>)
    requires SeatlessExample(z, a, b) && |ss| == 5
    ensures var f := FillHalls([z, a, b], [1, 2, 2], ss[..3], ss[3..]);
            f.first == [ss[2]] && f.second == []
  {
    var first, second := ss[..3], ss[3..];
    SeatlessFillAB(a, b, first, second);
    assert Grid(z) == 0 && Usable(z, 1) == 0;
    assert Split(3, 2, 0) == (0, 0);
    assert [z, a, b][1..] == [a, b] && [1, 2, 2][1..] == [2, 2];
    assert first[0..] == first && second[0..] == second;
  }

  /** The example passes validation with six seats for five students. */
  lemma SeatlessValid(z: Hall, a: Hall, b: Hall)
    requires SeatlessExample(z, a, b)
    ensures ValidateInputs([z, a, b], 5) == None && TotalSeats([z, a, b]) == 6
  {
    SeatlessShares(z, a, b);
    ValidateInputsPasses([z, a, b], 5);
  }

  lemma SingleReg(s: Student)
    ensures Regs([s]) == [s.reg]
  {
  }

  /** In the example, the hall loop over the selected halls and their
      targets leaves only the third student. */
  lemma SeatlessLeft(z: Hall, a: Hall, b: Hall, ss: seq<Student>)
    requires SeatlessExample(z, a, b) && |ss| == 5
    ensures var use := SelectedHalls([z, a, b], 5);
            var f := FillHalls(use, Targets(use, 5), ss[..HalfPoint(5)], ss[HalfPoint(5)..]);
            TotalSeats(use) == 6 && f.first + f.second == [ss[2]]
  {
    SeatlessSelection(z, a, b);
    SeatlessTargets(z, a, b);
    SeatlessShares(z, a, b);
    SeatlessFill(z, a, b, ss);
    assert HalfPoint(5) == 3;
  }

  /** As written, the run over the example raises naming the third student. */
  lemma SeatlessAsWritten(z: Hall, a: Hall, b: Hall, ss: seq<Student>)
    requires SeatlessExample(z, a, b) && |ss| == 5 && ss[2].reg == "3"
    ensures MakePlan(ss, [z, a, b]).outcome == Unallocated(["3"])
  {
    SeatlessValid(z, a, b);
    SeatlessLeft(z, a, b, ss);
    SingleReg(ss[2]);
  }

  /** Leaving the seatless hall out, the example's run seats everyone. */
  lemma SeatlessCorrected(z: Hall, a: Hall, b: Hall, ss: seq<Student>)
    requires SeatlessExample(z, a, b) && |ss| == 5
    ensures SeatedPlan(ss, [z, a, b]).outcome == Allocated
  {
    SeatlessValid(z, a, b);
    assert DistinctCodes([z, a, b]);
    SeatedPlanSucceeds(ss, [z, a, b]);
  }

  /** A hall with no seat, first in declared order, ahead of two halls of
      three seats, and five students: every hall is selected, the remainder
      seat goes to the seatless hall, which takes nobody, and the run raises
      naming the third student although six seats exist. Leaving the
      seatless hall out seats everyone. */
  lemma SeatlessHallShortfall(z: Hall, a: Hall, b: Hall, ss: seq<Student>)
    requires SeatlessExample(z, a, b) && |ss| == 5 && ss[2].reg == "3"
    ensures ValidateInputs([z, a, b], |ss|) == None && TotalSeats([z, a, b]) == 6
    ensures MakePlan(ss, [z, a, b]).outcome == Unallocated(["3"])
    ensures SeatedPlan(ss, [z, a, b]).outcome == Allocated
  {
    SeatlessValid(z, a, b);
    SeatlessAsWritten(z, a, b, ss);
    SeatlessCorrected(z, a, b, ss);
  }

  // ---------------------------------------------------------------- ledger lemmas

  /** The k-th student of a hall sits in the k-th cell of the serpentine
      walk: the 1-based row and column are inside the grid, the grid holds
      the student's register number there, and no two students of the hall
      share a cell. */
  lemma HallPlacement(h: Hall, ss: seq<Student>)
    requires |ss| <= Grid(h)
    ensures ss != [] ==> h.cols > 0
    ensures forall k :: 0 <= k < |ss| ==>
              var st := SeatFor(h, k, ss[k]);
              1 <= st.row <= h.rows && 1 <= st.col <= h.cols
              && Cell(h, ss, st.row - 1, st.col - 1) == Some(ss[k].reg)
    ensures forall k1, k2 :: 0 <= k1 < |ss| && 0 <= k2 < |ss| && k1 != k2 ==>
              var st1, st2 := SeatFor(h, k1, ss[k1]), SeatFor(h, k2, ss[k2]);
              st1.row != st2.row || st1.col != st2.col
  {
    if ss != [] {
      GridSides(h);
    }
    forall k | 0 <= k < |ss|
      ensures var st := SeatFor(h, k, ss[k]);
              1 <= st.row <= h.rows && 1 <= st.col <= h.cols
              && Cell(h, ss, st.row - 1, st.col - 1) == Some(ss[k].reg)
    {
      SeatCell(h, ss, k);
    }
    forall k1, k2 | 0 <= k1 < |ss| && 0 <= k2 < |ss| && k1 != k2
      ensures var st1, st2 := SeatFor(h, k1, ss[k1]), SeatFor(h, k2, ss[k2]);
              st1.row != st2.row || st1.col != st2.col
    {
      SeatsApart(h, ss, k1, k2);
    }
  }

  lemma SeatsApart(h: Hall, ss: seq<Student>, k1: nat, k2: nat)
    requires k1 < |ss| && k2 < |ss| && |ss| <= Grid(h) && k1 != k2
    ensures var st1, st2 := SeatFor(h, k1, ss[k1]), SeatFor(h, k2, ss[k2]);
            st1.row != st2.row || st1.col != st2.col
  {
    SeatCell(h, ss, k1);
    SeatCell(h, ss, k2);
  }

  lemma SeatCell(h: Hall, ss: seq<Student>, k: nat)
    requires k < |ss| <= Grid(h)
    ensures h.cols > 0
    ensures var st := SeatFor(h, k, ss[k]);
            1 <= st.row <= h.rows && 1 <= st.col <= h.cols
            && SerpIndex(st.row - 1, st.col - 1, h.cols, false) == k
            && Cell(h, ss, st.row - 1, st.col - 1) == Some(ss[k].reg)
  {
    SerpIndexOnto(k, h.rows, h.cols, false);
    var r, c := RowOf(k, h.cols), SerpColOf(k, h.cols, false);
    var st := SeatFor(h, k, ss[k]);
    assert st.row - 1 == r && st.col - 1 == c;
  }

  /** The entries of one hall are keyed by its students' register numbers,
      and each is the seat of some student of the hall holding that number. */
  lemma {:induction false} HallLedgerEntries(h: Hall, ss: seq<Student>)
    requires |ss| <= Grid(h)
    ensures HallLedger(h, ss).Keys == set s | s in ss :: s.reg
    ensures forall reg :: reg in HallLedger(h, ss) ==>
              exists k :: 0 <= k < |ss| && ss[k].reg == reg && h.cols > 0 && HallLedger(h, ss)[reg] == SeatFor(h, k, ss[k])
  {
    if ss != [] {
      var m := |ss| - 1;
      var p := ss[..m];
      HallLedgerEntries(h, p);
      assert ss == p + [ss[m]];
      forall reg | reg in HallLedger(h, ss)
        ensures exists k :: 0 <= k < |ss| && ss[k].reg == reg && h.cols > 0 && HallLedger(h, ss)[reg] == SeatFor(h, k, ss[k])
      {
        if reg != ss[m].reg {
          var k :| 0 <= k < |p| && p[k].reg == reg && h.cols > 0 && HallLedger(h, p)[reg] == SeatFor(h, k, p[k]);
          assert ss[k] == p[k];
        }
      }
    }
  }

  lemma {:induction false} ConcatSnoc(lists: seq<seq<Student>>)
    requires lists != []
    ensures Concat(lists) == Concat(lists[..|lists| - 1]) + lists[|lists| - 1]
  {
    if |lists| == 1 {
      assert lists[1..] == [];
    } else {
      ConcatSnoc(lists[1..]);
      assert lists[1..][..|lists| - 2] == lists[..|lists| - 1][1..];
    }
  }

  /** `allocations` is keyed by the register numbers of the students the
      halls received, and each entry is the seat of one of them in its hall. */
  lemma PlanLedgerEntries(use: seq<Hall>, lists: seq<seq<Student>>)
    requires Fits(use, lists)
    ensures PlanLedger(use, lists).Keys == set s | s in Concat(lists) :: s.reg
    ensures forall reg :: reg in PlanLedger(use, lists) ==>
              exists k, i :: 0 <= k < |use| && 0 <= i < |lists[k]| && lists[k][i].reg == reg
                && use[k].cols > 0 && PlanLedger(use, lists)[reg] == SeatFor(use[k], i, lists[k][i])
  {
    PlanLedgerKeys(use, lists);
    PlanLedgerSeats(use, lists);
  }

  lemma {:induction false} PlanLedgerKeys(use: seq<Hall>, lists: seq<seq<Student>>)
    requires Fits(use, lists)
    ensures PlanLedger(use, lists).Keys == set s | s in Concat(lists) :: s.reg
  {
    if use != [] {
      var m := |use| - 1;
      assert Fits(use[..m], lists[..m]);
      PlanLedgerKeys(use[..m], lists[..m]);
      HallLedgerEntries(use[m], lists[m]);
      ConcatSnoc(lists);
      var a: seq<Student>, b: seq<Student> := Concat(lists[..m]), lists[m];
      assert (set s: Student | s in a + b :: s.reg) == (set s: Student | s in a :: s.reg) + (set s: Student | s in b :: s.reg);
    }
  }

  lemma {:induction false} PlanLedgerSeats(use: seq<Hall>, lists: seq<seq<Student>>)
    requires Fits(use, lists)
    ensures forall reg :: reg in PlanLedger(use, lists) ==>
              exists k, i :: 0 <= k < |use| && 0 <= i < |lists[k]| && lists[k][i].reg == reg
                && use[k].cols > 0 && PlanLedger(use, lists)[reg] == SeatFor(use[k], i, lists[k][i])
  {
    if use != [] {
      var m := |use| - 1;
      var before := PlanLedger(use[..m], lists[..m]);
      var last := HallLedger(use[m], lists[m]);
      assert Fits(use[..m], lists[..m]);
      PlanLedgerSeats(use[..m], lists[..m]);
      HallLedgerEntries(use[m], lists[m]);
      forall reg | reg in PlanLedger(use, lists)
        ensures exists k, i :: 0 <= k < |use| && 0 <= i < |lists[k]| && lists[k][i].reg == reg
                  && use[k].cols > 0 && PlanLedger(use, lists)[reg] == SeatFor(use[k], i, lists[k][i])
      {
        if reg in last {
          var i :| 0 <= i < |lists[m]| && lists[m][i].reg == reg && use[m].cols > 0 && last[reg] == SeatFor(use[m], i, lists[m][i]);
        } else {
          var k, i :| 0 <= k < m && 0 <= i < |lists[..m][k]| && lists[..m][k][i].reg == reg
                      && use[..m][k].cols > 0 && before[reg] == SeatFor(use[..m][k], i, lists[..m][k][i]);
          assert use[k] == use[..m][k] && lists[k] == lists[..m][k];
        }
      }
    }
  }

  lemma {:induction false} KeepSelectedDistinct(hs: seq<Hall>, sel: set<string>)
    requires DistinctCodes(hs)
    ensures DistinctCodes(KeepSelected(hs, sel))
  {
    if hs != [] {
      KeepSelectedDistinct(hs[1..], sel);
      var rest := KeepSelected(hs[1..], sel);
      var r := KeepSelected(hs, sel);
      if hs[0].code in sel {
        forall i, j | 0 <= i < j < |r| ensures r[i].code != r[j].code {
          if i == 0 {
            assert r[j] == rest[j - 1] && r[j] in hs[1..];
          } else {
            assert r[i] == rest[i - 1] && r[j] == rest[j - 1];
          }
        }
      }
    }
  }

  /** The halls a plan uses have distinct codes when the input halls do. */
  lemma PlanUseDistinct(students: seq<Student>, halls: seq<Hall>)
    requires DistinctCodes(halls)
    ensures DistinctCodes(MakePlan(students, halls).use)
  {
    var n := |students|;
    if ValidateInputs(halls, n) == None {
      var sorted := ByCapacity(halls);
      KeepSelectedDistinct(halls, Codes(sorted[..TakeCount(sorted, RequiredCapacity(n))]));
    }
  }

  /** No two register numbers in `allocations` share a seat. */
  lemma PlanSeatsDistinct(students: seq<Student>, halls: seq<Hall>)
    requires DistinctCodes(halls)
    ensures var p := MakePlan(students, halls);
            Fits(p.use, p.lists)
            && forall r1, r2 :: r1 in PlanLedger(p.use, p.lists) && r2 in PlanLedger(p.use, p.lists) && r1 != r2 ==>
                 var s1, s2 := PlanLedger(p.use, p.lists)[r1], PlanLedger(p.use, p.lists)[r2];
                 s1.hallCode != s2.hallCode || s1.row != s2.row || s1.col != s2.col
  {
    var p := MakePlan(students, halls);
    PlanFits(students, halls);
    PlanUseDistinct(students, halls);
    LedgerSeatsDistinct(p.use, p.lists);
  }

  lemma LedgerSeatsDistinct(use: seq<Hall>, lists: seq<seq<Student>>)
    requires Fits(use, lists) && DistinctCodes(use)
    ensures forall r1, r2 :: r1 in PlanLedger(use, lists) && r2 in PlanLedger(use, lists) && r1 != r2 ==>
              var s1, s2 := PlanLedger(use, lists)[r1], PlanLedger(use, lists)[r2];
              s1.hallCode != s2.hallCode || s1.row != s2.row || s1.col != s2.col
  {
    PlanLedgerSeats(use, lists);
    EntriesDistinct(use, lists, PlanLedger(use, lists));
  }

  /** Any map whose entries are seats of distinct students of the lists. */
  lemma EntriesDistinct(use: seq<Hall>, lists: seq<seq<Student>>, L: map<string, Seat>)
    requires Fits(use, lists) && DistinctCodes(use)
    requires forall reg :: reg in L ==>
               exists k, i :: 0 <= k < |use| && 0 <= i < |lists[k]| && lists[k][i].reg == reg
                 && use[k].cols > 0 && L[reg] == SeatFor(use[k], i, lists[k][i])
    ensures forall r1, r2 :: r1 in L && r2 in L && r1 != r2 ==>
              L[r1].hallCode != L[r2].hallCode || L[r1].row != L[r2].row || L[r1].col != L[r2].col
  {
    forall r1, r2 | r1 in L && r2 in L && r1 != r2
      ensures L[r1].hallCode != L[r2].hallCode || L[r1].row != L[r2].row || L[r1].col != L[r2].col
    {
      var k1, i1 :| 0 <= k1 < |use| && 0 <= i1 < |lists[k1]| && lists[k1][i1].reg == r1
                    && use[k1].cols > 0 && L[r1] == SeatFor(use[k1], i1, lists[k1][i1]);
      var k2, i2 :| 0 <= k2 < |use| && 0 <= i2 < |lists[k2]| && lists[k2][i2].reg == r2
                    && use[k2].cols > 0 && L[r2] == SeatFor(use[k2], i2, lists[k2][i2]);
      TwoSeatsApart(use, lists, k1, i1, k2, i2);
    }
  }

  /** Two different students of the lists get different seats: in different
      halls by the distinct codes, in one hall by the serpentine walk. */
  lemma TwoSeatsApart(use: seq<Hall>, lists: seq<seq<Student>>, k1: nat, i1: nat, k2: nat, i2: nat)
    requires Fits(use, lists) && DistinctCodes(use)
    requires k1 < |use| && i1 < |lists[k1]| && k2 < |use| && i2 < |lists[k2]|
    requires use[k1].cols > 0 && use[k2].cols > 0
    requires lists[k1][i1].reg != lists[k2][i2].reg
    ensures var st1, st2 := SeatFor(use[k1], i1, lists[k1][i1]), SeatFor(use[k2], i2, lists[k2][i2]);
            st1.hallCode != st2.hallCode || st1.row != st2.row || st1.col != st2.col
  {
    if k1 == k2 {
      SeatsApart(use[k1], lists[k1], i1, i2);
    }
  }

  /** On success every student has an entry, carrying the student's own
      course details and the seat of the student's place in one hall's list. */
  lemma PlanSeatsEveryone(students: seq<Student>, halls: seq<Hall>)
    requires DistinctRegs(students)
    requires MakePlan(students, halls).outcome == Allocated
    ensures var p := MakePlan(students, halls);
            Fits(p.use, p.lists)
            && PlanLedger(p.use, p.lists).Keys == (set s | s in students :: s.reg)
            && forall s :: s in students ==>
                 exists k, i :: 0 <= k < |p.use| && 0 <= i < |p.lists[k]| && p.lists[k][i] == s
                   && p.use[k].cols > 0 && PlanLedger(p.use, p.lists)[s.reg] == SeatFor(p.use[k], i, s)
  {
    var p := MakePlan(students, halls);
    PlanFits(students, halls);
    PlanAccounts(students, halls);
    LedgerCoversEveryone(p.use, p.lists, students);
  }

  lemma LedgerCoversEveryone(use: seq<Hall>, lists: seq<seq<Student>>, students: seq<Student>)
    requires Fits(use, lists) && DistinctRegs(students)
    requires multiset(Concat(lists)) == multiset(students)
    ensures PlanLedger(use, lists).Keys == (set s | s in students :: s.reg)
    ensures forall s :: s in students ==>
              exists k, i :: 0 <= k < |use| && 0 <= i < |lists[k]| && lists[k][i] == s
                && use[k].cols > 0 && PlanLedger(use, lists)[s.reg] == SeatFor(use[k], i, s)
  {
    PlanLedgerEntries(use, lists);
    EntriesCover(use, lists, students, PlanLedger(use, lists));
  }

  lemma EntriesCover(use: seq<Hall>, lists: seq<seq<Student>>, students: seq<Student>, L: map<string, Seat>)
    requires Fits(use, lists) && DistinctRegs(students)
    requires multiset(Concat(lists)) == multiset(students)
    requires L.Keys == set s | s in Concat(lists) :: s.reg
    requires forall reg :: reg in L ==>
               exists k, i :: 0 <= k < |use| && 0 <= i < |lists[k]| && lists[k][i].reg == reg
                 && use[k].cols > 0 && L[reg] == SeatFor(use[k], i, lists[k][i])
    ensures L.Keys == (set s | s in students :: s.reg)
    ensures forall s :: s in students ==>
              exists k, i :: 0 <= k < |use| && 0 <= i < |lists[k]| && lists[k][i] == s
                && use[k].cols > 0 && L[s.reg] == SeatFor(use[k], i, s)
  {
    var all := Concat(lists);
    SameStudents(all, students);
    forall s | s in students
      ensures exists k, i :: 0 <= k < |use| && 0 <= i < |lists[k]| && lists[k][i] == s
                && use[k].cols > 0 && L[s.reg] == SeatFor(use[k], i, s)
    {
      assert s in all;
      StudentEntry(use, lists, students, L[s.reg], s);
    }
  }

  /** The entry a student's register number maps to is the student's own
      seat: the student of the lists holding that number is this student. */
  lemma StudentEntry(use: seq<Hall>, lists: seq<seq<Student>>, students: seq<Student>, seat: Seat, s: Student)
    requires |lists| == |use| && DistinctRegs(students) && s in students
    requires multiset(Concat(lists)) == multiset(students)
    requires exists k, i :: 0 <= k < |use| && 0 <= i < |lists[k]| && lists[k][i].reg == s.reg
               && use[k].cols > 0 && seat == SeatFor(use[k], i, lists[k][i])
    ensures exists k, i :: 0 <= k < |use| && 0 <= i < |lists[k]| && lists[k][i] == s
              && use[k].cols > 0 && seat == SeatFor(use[k], i, s)
  {
    var k, i :| 0 <= k < |use| && 0 <= i < |lists[k]| && lists[k][i].reg == s.reg
                && use[k].cols > 0 && seat == SeatFor(use[k], i, lists[k][i]);
    ConcatHolds(lists, k, i);
    assert lists[k][i] in multiset(students);
    SameRegSameStudent(students, s, lists[k][i]);
  }

  lemma {:induction false} ConcatHolds(lists: seq<seq<Student>>, k: nat, i: nat)
    requires k < |lists| && i < |lists[k]|
    ensures lists[k][i] in Concat(lists)
  {
    if k > 0 {
      ConcatHolds(lists[1..], k - 1, i);
    }
  }

  lemma SameStudents(xs: seq<Student>, ys: seq<Student>)
    requires multiset(xs) == multiset(ys)
    ensures forall s :: s in xs <==> s in ys
  {
    forall s ensures s in xs <==> s in ys {
      assert s in xs <==> s in multiset(xs);
      assert s in ys <==> s in multiset(ys);
    }
  }

  lemma SameRegSameStudent(students: seq<Student>, s: Student, t: Student)
    requires DistinctRegs(students)
    requires s in students && t in students && s.reg == t.reg
    ensures s == t
  {
    var a :| 0 <= a < |students| && students[a] == s;
    var b :| 0 <= b < |students| && students[b] == t;
    if a < b || b < a {
    }
  }

  // ---------------------------------------------------------------- hall courses

  /** `hall_courses` after the placement loop: the constructor's map with
      each hall that received students set to its students' courses. */
  function PlanCourses(courses: map<string, set<string>>, use: seq<Hall>, lists: seq<seq<Student>>): map<string, set<string>>
    requires |lists| == |use|
  {
    if use == [] then courses
    else
      var m := |use| - 1;
      var before := PlanCourses(courses, use[..m], lists[..m]);
      if lists[m] == [] then before else before[use[m].code := CoursesOf(lists[m])]
  }

  /** A hall that received students lists exactly their courses; every other
      entry keeps its initial value. */
  lemma {:induction false} PlanCoursesExact(courses: map<string, set<string>>, use: seq<Hall>, lists: seq<seq<Student>>)
    requires |lists| == |use|
    requires DistinctCodes(use)
    ensures forall k :: 0 <= k < |use| && lists[k] != [] ==>
              use[k].code in PlanCourses(courses, use, lists)
              && PlanCourses(courses, use, lists)[use[k].code] == CoursesOf(lists[k])
    ensures forall code :: (forall k :: 0 <= k < |use| && lists[k] != [] ==> use[k].code != code) ==>
              (code in PlanCourses(courses, use, lists) <==> code in courses)
              && (code in courses ==> PlanCourses(courses, use, lists)[code] == courses[code])
  {
    if use != [] {
      var m := |use| - 1;
      assert DistinctCodes(use[..m]);
      PlanCoursesExact(courses, use[..m], lists[..m]);
      forall k | 0 <= k < m ensures use[..m][k] == use[k] && lists[..m][k] == lists[k] {
      }
    }
  }

  // ---------------------------------------------------------------- step lemmas for the loops

  /** Placing hall k after the first k extends the ledger by that hall's
      entries and sets its course set when it received anyone. */
  lemma PlanStep(courses: map<string, set<string>>, use: seq<Hall>, done: seq<seq<Student>>,
                 taken: seq<Student>, k: nat)
    requires k < |use| && Fits(use[..k], done) && |taken| <= Grid(use[k])
    ensures Fits(use[..k + 1], done + [taken])
    ensures PlanLedger(use[..k + 1], done + [taken]) == PlanLedger(use[..k], done) + HallLedger(use[k], taken)
    ensures PlanCourses(courses, use[..k + 1], done + [taken])
              == if taken == [] then PlanCourses(courses, use[..k], done)
                 else PlanCourses(courses, use[..k], done)[use[k].code := CoursesOf(taken)]
  {
    assert use[..k + 1][..k] == use[..k];
    assert (done + [taken])[..k] == done;
  }

  lemma LedgerAssoc(a: map<string, Seat>, b: map<string, Seat>, c: map<string, Seat>)
    ensures (a + b) + c == a + (b + c)
  {
  }

  /** One pass of the hall loop extends the fill by the hall's share of
      what the two halves have left. */
  lemma FillAdvance(use: seq<Hall>, targets: seq<int>, first0: seq<Student>, second0: seq<Student>, k: nat,
                    done: seq<seq<Student>>, first: seq<Student>, second: seq<Student>,
                    taken: seq<Student>, f2: seq<Student>, s2: seq<Student>)
    requires |targets| == |use| && k < |use|
    requires FillHalls(use[..k], targets[..k], first0, second0) == Fill(done, first, second)
    requires var (i, j) := Split(|first|, |second|, Usable(use[k], targets[k]));
             taken == Interleave(first[..i], second[..j]) && f2 == first[i..] && s2 == second[j..]
    ensures FillHalls(use[..k + 1], targets[..k + 1], first0, second0) == Fill(done + [taken], f2, s2)
  {
    FillStep(use, targets, first0, second0, k);
  }

  /** One pass of the hall loop extends the ledger, the course map and the
      grids by that hall's entries. */
  lemma RecordAdvance(use: seq<Hall>, ledger0: map<string, Seat>, courses0: map<string, set<string>>,
                      grids0: map<string, SeatGrid>, k: nat, done: seq<seq<Student>>,
                      ledger: map<string, Seat>, courses: map<string, set<string>>, grids: map<string, SeatGrid>,
                      taken: seq<Student>,
                      ledger2: map<string, Seat>, courses2: map<string, set<string>>, grids2: map<string, SeatGrid>)
    requires k < |use| && Fits(use[..k], done) && |taken| <= Grid(use[k]) && GridsFor(grids0, use)
    requires ledger == ledger0 + PlanLedger(use[..k], done)
    requires courses == PlanCourses(courses0, use[..k], done)
    requires GridsFor(grids0, use[..k]) && grids == PlanGrids(grids0, use[..k], done)
    requires ledger2 == ledger + HallLedger(use[k], taken)
    requires courses2 == if taken == [] then courses else courses[use[k].code := CoursesOf(taken)]
    requires use[k].code in grids && Shaped(grids[use[k].code], use[k])
    requires grids2 == if taken == [] then grids else grids[use[k].code := Placement(grids[use[k].code], use[k], taken)]
    ensures Fits(use[..k + 1], done + [taken])
    ensures ledger2 == ledger0 + PlanLedger(use[..k + 1], done + [taken])
    ensures courses2 == PlanCourses(courses0, use[..k + 1], done + [taken])
    ensures GridsFor(grids0, use[..k + 1]) && grids2 == PlanGrids(grids0, use[..k + 1], done + [taken])
  {
    PlanStep(courses0, use, done, taken, k);
    LedgerAssoc(ledger0, PlanLedger(use[..k], done), HallLedger(use[k], taken));
    assert use[..k + 1][..k] == use[..k];
    assert (done + [taken])[..k] == done;
    assert GridsFor(grids0, use[..k + 1]) by {
      forall k' | 0 <= k' < k + 1 ensures use[..k + 1][k'] == use[k'] {
      }
    }
  }

  /** A hall never takes more students than its grid holds. */
  lemma TakenFits(h: Hall, target: int, nf: nat, ns: nat)
    ensures var (i, j) := Split(nf, ns, Usable(h, target)); i + j <= Grid(h)
  {
    SplitShape(nf, ns, Usable(h, target));
  }

  /** A hall left out of the selection shares its code with no selected hall. */
  lemma KeepSelectedCodes(halls: seq<Hall>, sel: set<string>)
    ensures forall h :: h in halls && h !in KeepSelected(halls, sel) ==> h.code !in Codes(KeepSelected(halls, sel))
  {
    var r := KeepSelected(halls, sel);
    forall h | h in halls && h !in r ensures h.code !in Codes(r) {
      assert forall x :: x in r ==> x.code != h.code;
    }
  }

  lemma {:induction false} SumSharesAppend(a: seq<Hall>, b: seq<Hall>, total: nat, n: nat)
    ensures SumShares(a + b, total, n) == SumShares(a, total, n) + SumShares(b, total, n)
  {
    if a == [] {
      assert a + b == b;
    } else {
      assert (a + b)[1..] == a[1..] + b;
      SumSharesAppend(a[1..], b, total, n);
    }
  }

  /** Taking the front of the first half extends the interleaving at its end
      while the second half has not taken the lead. */
  lemma {:induction false} InterleaveSnocFirst(x: seq<Student>, y: seq<Student>, a: Student)
    requires |y| <= |x|
    ensures Interleave(x + [a], y) == Interleave(x, y) + [a]
  {
    if x != [] && y != [] {
      InterleaveSnocFirst(x[1..], y[1..], a);
      assert (x + [a])[1..] == x[1..] + [a];
    }
  }

  /** Taking the front of the second half extends the interleaving at its end
      while the first half is at most one ahead. */
  lemma {:induction false} InterleaveSnocSecond(x: seq<Student>, y: seq<Student>, b: Student)
    requires |x| <= |y| + 1
    ensures Interleave(x, y + [b]) == Interleave(x, y) + [b]
  {
    if x != [] && y != [] {
      InterleaveSnocSecond(x[1..], y[1..], b);
      assert (y + [b])[1..] == y[1..] + [b];
    }
  }

  /** Filling the first k + 1 halls is filling the first k and then hall k
      from what they left. */
  lemma FillStep(use: seq<Hall>, targets: seq<int>, first: seq<Student>, second: seq<Student>, k: nat)
    requires |targets| == |use| && k < |use|
    ensures var r := FillHalls(use[..k], targets[..k], first, second);
            var (i, j) := Split(|r.first|, |r.second|, Usable(use[k], targets[k]));
            FillHalls(use[..k + 1], targets[..k + 1], first, second)
              == Fill(r.lists + [Interleave(r.first[..i], r.second[..j])], r.first[i..], r.second[j..])
  {
    FillLast(use[..k + 1], targets[..k + 1], first, second);
    assert use[..k + 1][..k] == use[..k] && targets[..k + 1][..k] == targets[..k];
  }

  /** The last hall of a fill takes its share of what the others left. */
  lemma {:induction false} FillLast(use: seq<Hall>, targets: seq<int>, first: seq<Student>, second: seq<Student>)
    requires |targets| == |use| && use != []
    ensures var m := |use| - 1;
            var r := FillHalls(use[..m], targets[..m], first, second);
            var (i, j) := Split(|r.first|, |r.second|, Usable(use[m], targets[m]));
            FillHalls(use, targets, first, second)
              == Fill(r.lists + [Interleave(r.first[..i], r.second[..j])], r.first[i..], r.second[j..])
  {
    var m := |use| - 1;
    var (i0, j0) := Split(|first|, |second|, Usable(use[0], targets[0]));
    var x := Interleave(first[..i0], second[..j0]);
    if m == 0 {
      assert use[1..] == [] && use[..0] == [];
    } else {
      var u, t, f, g := use[1..], targets[1..], first[i0..], second[j0..];
      FillLast(u, t, f, g);
      assert use[..m][1..] == u[..m - 1] && targets[..m][1..] == t[..m - 1];
      assert u[m - 1] == use[m] && t[m - 1] == targets[m];
      var r := FillHalls(u[..m - 1], t[..m - 1], f, g);
      assert FillHalls(use[..m], targets[..m], first, second) == Fill([x] + r.lists, r.first, r.second);
      var (i, j) := Split(|r.first|, |r.second|, Usable(use[m], targets[m]));
      var y := Interleave(r.first[..i], r.second[..j]);
      assert FillHalls(use, targets, first, second) == Fill([x] + (r.lists + [y]), r.first[i..], r.second[j..]);
      assert [x] + (r.lists + [y]) == ([x] + r.lists) + [y];
    }
  }

  /** Where the round-robin loop can stand at the top of a round: both
      halves taken from equally, or one of them exhausted, or the hall full
      just after the first half's turn. */
  ghost predicate RoundStart(nf: nat, ns: nat, i: nat, j: nat, usable: int)
  {
    i <= nf && j <= ns && (i == j || (i == nf && i < j) || (j == ns && j < i) || (i == j + 1 && i + j >= usable))
  }

  /** What Split gives for a whole hall, once i and j students are taken. */
  function SplitFrom(nf: nat, ns: nat, usable: int, i: nat, j: nat): (nat, nat)
    requires i <= nf && j <= ns
  {
    var rest := Split(nf - i, ns - j, usable - i - j);
    (i + rest.0, j + rest.1)
  }

  /** The loop stops when the hall is full or both halves are empty, and
      then the students taken are the whole split. */
  lemma SplitDone(nf: nat, ns: nat, usable: int, i: nat, j: nat)
    requires i <= nf && j <= ns
    requires i + j >= usable || (i == nf && j == ns)
    ensures SplitFrom(nf, ns, usable, i, j) == (i, j)
  {
  }

  /** The counting half of one round: somebody is taken, the loop can stand
      at the top of the next round, and the rest of the split is unchanged. */
  lemma RoundCounts(nf: nat, ns: nat, usable: int, i: nat, j: nat)
    requires RoundStart(nf, ns, i, j, usable)
    requires i + j < usable && (i < nf || j < ns)
    ensures var a := if i < nf then 1 else 0;
            var b := if j < ns && i + j + a < usable then 1 else 0;
            a + b > 0
            && RoundStart(nf, ns, i + a, j + b, usable)
            && SplitFrom(nf, ns, usable, i, j) == SplitFrom(nf, ns, usable, i + a, j + b)
  {
  }

  /** The first half's turn: its front student joins the end of the
      interleaving. */
  lemma FirstTurn(first: seq<Student>, second: seq<Student>, i: nat, j: nat)
    requires i < |first| && j <= i && j <= |second|
    ensures Interleave(first[..i + 1], second[..j]) == Interleave(first[..i], second[..j]) + [first[i]]
    ensures first[i..][1..] == first[i + 1..]
  {
    InterleaveSnocFirst(first[..i], second[..j], first[i]);
    assert first[..i + 1] == first[..i] + [first[i]];
  }

  /** The second half's turn, while the first half is at most one ahead. */
  lemma SecondTurn(first: seq<Student>, second: seq<Student>, i: nat, j: nat)
    requires i <= |first| && j < |second| && i <= j + 1
    ensures Interleave(first[..i], second[..j + 1]) == Interleave(first[..i], second[..j]) + [second[j]]
    ensures second[j..][1..] == second[j + 1..]
  {
    InterleaveSnocSecond(first[..i], second[..j], second[j]);
    assert second[..j + 1] == second[..j] + [second[j]];
  }

}
