/** `ExamSeatAllocator` of Exam1_Seat_allocator.py as the object it is: the
    students and halls it loaded, one seat grid per hall, the `allocations`
    ledger and the `hall_courses` map, with `allocate_seats` proved to leave
    them as Exam1Plan.Allocate computes. */
module Exam1Allocator {
  import opened Optional
  import opened Keys
  import opened Sorting
  import opened Layout
  import opened Halls
  import opened Exam1Plan

  class Allocator {
    const students: seq<Student>
    const halls: seq<Hall>
    /** hall_seats: a rows x cols grid of register numbers per hall code. */
    var hallSeats: map<string, SeatGrid>
    var allocations: map<string, Seat>
    var hallCourses: map<string, set<string>>

    /** Every hall has a grid of its own size. */
    ghost predicate Valid()
      reads this
    {
      GridsFor(hallSeats, halls)
    }

    /** The constructor after loading: empty ledger, every cell of every
        grid empty, every hall with an empty course set. */
    constructor (students: seq<Student>, halls: seq<Hall>)
      requires DistinctCodes(halls)
      ensures this.students == students && this.halls == halls
      ensures Valid()
      ensures allocations == map[]
      ensures hallCourses == map c | c in Codes(halls) :: {}
      ensures hallSeats == map h | h in halls :: h.code := EmptyGrid(h)
    {
      this.students := students;
      this.halls := halls;
      hallSeats := map h | h in halls :: h.code := EmptyGrid(h);
      allocations := map[];
      hallCourses := map c | c in Codes(halls) :: {};
      new;
      forall k | 0 <= k < |halls| ensures halls[k].code in hallSeats && Shaped(hallSeats[halls[k].code], halls[k]) {
        assert halls[k] in halls;
      }
    }

    // ---------------------------------------------------------------- ranking

    /** The `defaultdict(list)` loop: each student is appended to its
        course's list, a course met for the first time becoming the last key. */
    static method GroupByCourse(sorted: seq<Student>) returns (order: seq<string>, members: map<string, seq<Student>>)
      ensures Groups(order, members) == GroupBy(sorted)
    {
      order, members := [], map[];
      for i := 0 to |sorted|
        invariant Groups(order, members) == GroupBy(sorted[..i])
      {
        var s := sorted[i];
        assert sorted[..i + 1][..i] == sorted[..i];
        if s.course in members {
          members := members[s.course := members[s.course] + [s]];
        } else {
          order := order + [s.course];
          members := members[s.course := [s]];
        }
      }
      assert sorted[..|sorted|] == sorted;
    }

    /** `courses_by_size` and `remaining_courses`, as the ranked course codes
        and their queues. */
    method RankStudents() returns (courses: seq<string>, queues: seq<seq<Student>>)
      ensures Ranking(courses, queues) == Rank(students)
    {
      var sorted := SortBy(students, CourseRegKey);
      var order, members := GroupByCourse(sorted);
      courses := SortBy(order, SizeKey(members));
      queues := seq(|courses|, i requires 0 <= i < |courses| =>
                  if courses[i] in members then members[courses[i]] else []);
    }

    // ---------------------------------------------------------------- one hall of the first pass

    /** `current_courses`: the ranked courses that still have students, up
        to the fourth, as positions in the ranking. */
    static method ChooseWindow(qs: seq<seq<Student>>) returns (w: seq<nat>)
      ensures w == Window(qs)
    {
      w := [];
      for i := 0 to |qs|
        invariant w == Active(qs, i) && |w| < 4
      {
        if qs[i] != [] {
          w := w + [i];
        }
        if |w| == 4 {
          WindowEarly(qs, i + 1);
          return;
        }
      }
    }

    /** The 2:1:1 loop for a window of three courses: `allocation_order`
        [0, 0, 1, 2] read cyclically by a counter that advances on every
        turn, whether or not the course's queue had anyone left. */
    static method TakeByPattern(qs0: seq<seq<Student>>, w: seq<nat>, usable: int)
      returns (qs: seq<seq<Student>>, taken: seq<Student>)
      requires Increasing(w, |qs0|) && |w| == 3
      ensures (qs, taken) == HallPicks(qs0, w, usable)
    {
      var order: seq<nat> := [0, 0, 1, 2];
      assert order == Pattern(|w|);
      qs, taken := qs0, [];
      var idx := 0;
      ghost var miss := 0;
      while |taken| < usable && AnyLeft(qs, w)
        invariant |qs| == |qs0| && Missed(qs, w, order, idx, miss)
        invariant HallPicks(qs0, w, usable) == Picks(qs, w, order, usable, idx, miss, taken)
        decreases Left(qs, w), |order| - miss
      {
        MissCover(qs, w, order, idx, miss);
        var c := w[order[idx % |order|]];
        if qs[c] != [] {
          assert c in w;
          LeftPop(qs, w, c);
          taken := taken + [qs[c][0]];
          qs := qs[c := qs[c][1..]];
          miss := 0;
        } else {
          miss := miss + 1;
        }
        idx := idx + 1;
      }
    }

    /** The round-robin loop for any other window: sweep the window in
        order, one student from each course that still has one, while the
        hall has room, and sweep again while any course has students. */
    static method TakeRoundRobin(qs0: seq<seq<Student>>, w: seq<nat>, usable: int)
      returns (qs: seq<seq<Student>>, taken: seq<Student>)
      requires Increasing(w, |qs0|) && w != [] && |w| != 3
      ensures (qs, taken) == HallPicks(qs0, w, usable)
    {
      ghost var pat := Pattern(|w|);
      ghost var goal := HallPicks(qs0, w, usable);
      OnTrackStart(qs0, w, usable);
      qs, taken := qs0, [];
      ghost var round: nat, idx: nat, miss: nat := 0, 0, 0;
      while |taken| < usable && AnyLeft(qs, w)
        invariant idx == round * |w| && OnTrack(goal, qs, w, pat, usable, idx, miss, taken)
        decreases Left(qs, w)
      {
        qs, taken, miss := RoundRobinSweep(w, usable, pat, goal, qs, taken, round, idx, miss);
        round, idx := round + 1, idx + |w|;
      }
      OnTrackDone(goal, qs, w, pat, usable, idx, miss, taken);
    }

    /** One sweep of the round robin over the window: a course gives up its
        first student when it has one and the hall still has room. A sweep
        that starts with room and a student left takes at least one. */
    static method RoundRobinSweep(w: seq<nat>, usable: int, ghost pat: seq<nat>,
                                  ghost goal: (seq<seq<Student>>, seq<Student>), qs1: seq<seq<Student>>,
                                  taken1: seq<Student>, ghost round: nat, ghost idx: nat, ghost miss1: nat)
      returns (qs: seq<seq<Student>>, taken: seq<Student>, ghost miss: nat)
      requires |w| != 3 && pat == Pattern(|w|) && idx == round * |w|
      requires OnTrack(goal, qs1, w, pat, usable, idx, miss1, taken1)
      requires |taken1| < usable && AnyLeft(qs1, w)
      ensures idx + |w| == (round + 1) * |w| && OnTrack(goal, qs, w, pat, usable, idx + |w|, miss, taken)
      ensures Left(qs, w) < Left(qs1, w)
    {
      NextRow(round, |w|);
      qs, taken, miss := qs1, taken1, miss1;
      ghost var turn := idx;
      for k := 0 to |w|
        invariant turn == idx + k && OnTrack(goal, qs, w, pat, usable, turn, miss, taken)
        invariant Left(qs, w) < Left(qs1, w) || (qs == qs1 && taken == taken1 && LeftFrom(qs1, w, k))
      {
        PatternTurn(w, round, idx, k);
        if qs == qs1 && qs1[w[k]] == [] {
          LeftFromNext(qs1, w, k);
        }
        qs, taken, miss := PickTurn(w, usable, pat, goal, qs, taken, k, turn, miss);
        turn := turn + 1;
      }
    }

    /** One turn of a pick loop: the course the turn falls on gives up its
        first student when it has one and the hall still has room. */
    static method PickTurn(w: seq<nat>, usable: int, ghost pat: seq<nat>,
                           ghost goal: (seq<seq<Student>>, seq<Student>), qs1: seq<seq<Student>>,
                           taken1: seq<Student>, pos: nat, ghost turn: nat, ghost miss1: nat)
      returns (qs: seq<seq<Student>>, taken: seq<Student>, ghost miss: nat)
      requires OnTrack(goal, qs1, w, pat, usable, turn, miss1, taken1) && pos == pat[turn % |pat|]
      ensures OnTrack(goal, qs, w, pat, usable, turn + 1, miss, taken) && |qs| == |qs1|
      ensures if qs1[w[pos]] != [] && |taken1| < usable then Left(qs, w) < Left(qs1, w)
              else qs == qs1 && taken == taken1
    {
      var c := w[pos];
      qs, taken := qs1, taken1;
      if qs[c] != [] && |taken| < usable {
        PicksTake(qs, w, pat, usable, turn, miss1, taken, c);
        taken := taken + [qs[c][0]];
        qs := qs[c := qs[c][1..]];
        miss := 0;
      } else if |taken| >= usable || !AnyLeft(qs, w) {
        PicksStop(qs, w, pat, usable, turn, miss1, taken);
        miss := 0;
      } else {
        PicksMiss(qs, w, pat, usable, turn, miss1, taken, c);
        miss := miss1 + 1;
      }
    }

    /** Row-wise seat assignment: every row in turn, its cells left to right
        until the students run out, each student written into the grid and
        into the ledger. */
    method PlaceRows(h: Hall, ss: seq<Student>)
      requires h.code in hallSeats && Shaped(hallSeats[h.code], h) && |ss| <= Grid(h)
      modifies this
      ensures hallSeats == old(hallSeats)[h.code := RowPlacement(old(hallSeats)[h.code], h, ss)]
      ensures allocations == old(allocations) + RowLedger(h, ss)
      ensures hallCourses == old(hallCourses)
    {
      ghost var g0 := hallSeats[h.code];
      RowPlaceUpToNone(g0, h, ss);
      assert hallSeats == old(hallSeats)[h.code := RowPlaceUpTo(g0, h, ss, 0)];
      assert allocations == old(allocations) + RowLedger(h, ss[..0]);
      var idx := 0;
      for r := 0 to h.rows
        invariant idx <= |ss| && (idx == |ss| || idx == r * h.cols)
        invariant allocations == old(allocations) + RowLedger(h, ss[..idx])
        invariant hallSeats == old(hallSeats)[h.code := RowPlaceUpTo(g0, h, ss, idx)]
        invariant hallCourses == old(hallCourses)
      {
        idx := PlaceRow(h, ss, r, idx, old(allocations), g0);
        NextRow(r, h.cols);
      }
      assert ss[..idx] == ss;
    }

    /** The inner loop of the row-wise assignment: row r, left to right,
        until the students run out. */
    method PlaceRow(h: Hall, ss: seq<Student>, r: nat, start: nat,
                    ghost before: map<string, Seat>, ghost g0: SeatGrid)
      returns (idx: nat)
      requires Shaped(g0, h)
      requires r < h.rows && start <= |ss| <= Grid(h) && (start == |ss| || start == r * h.cols)
      requires allocations == before + RowLedger(h, ss[..start])
      requires h.code in hallSeats && hallSeats[h.code] == RowPlaceUpTo(g0, h, ss, start)
      modifies this
      ensures start <= idx <= |ss| && (idx == |ss| || idx == start + h.cols)
      ensures allocations == before + RowLedger(h, ss[..idx])
      ensures hallCourses == old(hallCourses)
      ensures hallSeats == old(hallSeats)[h.code := RowPlaceUpTo(g0, h, ss, idx)]
    {
      idx := start;
      for c := 0 to h.cols
        invariant idx <= |ss| && (idx == |ss| || idx == start + c)
        invariant allocations == before + RowLedger(h, ss[..idx])
        invariant hallCourses == old(hallCourses)
        invariant hallSeats == old(hallSeats)[h.code := RowPlaceUpTo(g0, h, ss, idx)]
      {
        if idx >= |ss| {
          break;
        }
        PlaceCell(h, ss, r, c, idx, before, g0);
        idx := idx + 1;
      }
    }

    /** One step of the inner loop: student idx goes to cell (r, c) and
        gets its ledger entry. */
    method PlaceCell(h: Hall, ss: seq<Student>, r: nat, c: nat, idx: nat,
                     ghost before: map<string, Seat>, ghost g0: SeatGrid)
      requires Shaped(g0, h) && idx < |ss| <= Grid(h)
      requires r < h.rows && c < h.cols && idx == r * h.cols + c
      requires allocations == before + RowLedger(h, ss[..idx])
      requires h.code in hallSeats && hallSeats[h.code] == RowPlaceUpTo(g0, h, ss, idx)
      modifies this
      ensures allocations == before + RowLedger(h, ss[..idx + 1])
      ensures hallCourses == old(hallCourses)
      ensures hallSeats == old(hallSeats)[h.code := RowPlaceUpTo(g0, h, ss, idx + 1)]
    {
      var student := ss[idx];
      RowPlaceUpToStep(g0, h, ss, idx, r, c);
      var grid := hallSeats[h.code];
      hallSeats := hallSeats[h.code := grid[r := grid[r][c := Some(student.reg)]]];
      RowLedgerStep(h, ss, idx, r, c, before);
      allocations := allocations[student.reg := Seat(h.code, h.name, h.block, r + 1, c + 1,
                                                     student.course, student.title, student.department, student.date)];
    }

    /** One hall of the first pass: record its window in `hall_courses`;
        with a non-empty window, take the hall's picks, sort them by
        `_reg_sort_key` and seat them row by row. */
    method HallFirstPass(h: Hall, ranked: seq<string>, queues: seq<seq<Student>>) returns (qs: seq<seq<Student>>)
      requires |queues| == |ranked| && h.code in hallSeats && Shaped(hallSeats[h.code], h)
      modifies this
      ensures Pass(qs, hallSeats, allocations, hallCourses)
              == HallStep(h, ranked, Pass(queues, old(hallSeats), old(allocations), old(hallCourses)))
    {
      var w := ChooseWindow(queues);
      WindowShape(queues);
      hallCourses := hallCourses[h.code := WindowCourses(ranked, w)];
      qs := queues;
      if w == [] {
        return;
      }
      var usable := Min(h.capacity, h.rows * h.cols);
      var taken;
      if |w| == 3 {
        qs, taken := TakeByPattern(queues, w, usable);
      } else {
        qs, taken := TakeRoundRobin(queues, w, usable);
      }
      HallPicksBound(queues, w, usable);
      var list := SortBy(taken, RegSortKey);
      PlaceRows(h, list);
    }

    /** The first pass: every hall in declared order. */
    method FirstPassHalls(ranked: seq<string>, queues0: seq<seq<Student>>) returns (qs: seq<seq<Student>>)
      requires Valid() && |queues0| == |ranked|
      modifies this
      ensures Valid()
      ensures Pass(qs, hallSeats, allocations, hallCourses)
              == FirstPass(halls, ranked, Pass(queues0, old(hallSeats), old(allocations), old(hallCourses)))
    {
      ghost var p0 := Pass(queues0, hallSeats, allocations, hallCourses);
      qs := queues0;
      for i := 0 to |halls|
        invariant GridsFor(p0.seats, halls) && GridsFor(p0.seats, halls[..i])
        invariant Pass(qs, hallSeats, allocations, hallCourses) == FirstPass(halls[..i], ranked, p0)
      {
        GridsPrefix(p0.seats, halls, i + 1);
        qs := FirstPassNext(ranked, i, p0, qs);
      }
      assert halls[..|halls|] == halls;
      FirstPassGrids(halls, ranked, p0);
    }

    /** One turn of the first pass: hall i takes its picks from what the
        halls before it left. */
    method FirstPassNext(ranked: seq<string>, i: nat, ghost p0: Pass, queues: seq<seq<Student>>)
      returns (qs: seq<seq<Student>>)
      requires i < |halls| && |p0.queues| == |ranked|
      requires GridsFor(p0.seats, halls[..i]) && GridsFor(p0.seats, halls[..i + 1])
      requires Pass(queues, hallSeats, allocations, hallCourses) == FirstPass(halls[..i], ranked, p0)
      modifies this
      ensures Pass(qs, hallSeats, allocations, hallCourses) == FirstPass(halls[..i + 1], ranked, p0)
    {
      var h := halls[i];
      assert halls[..i + 1][..i] == halls[..i] && halls[..i + 1][i] == h;
      ShapeKept(hallSeats[h.code], p0.seats[h.code], h);
      qs := HallFirstPass(h, ranked, queues);
    }

    // ---------------------------------------------------------------- the second pass

    /** `allocated_count`: the cells of a grid holding a register number. */
    static method CountOccupied(g: SeatGrid) returns (n: nat)
      ensures n == Occupied(g)
    {
      n := 0;
      for r := 0 to |g|
        invariant n == Occupied(g[..r])
      {
        var row := g[r];
        var inRow := 0;
        for c := 0 to |row|
          invariant inRow == RowCount(row[..c])
        {
          assert row[..c + 1][..c] == row[..c];
          if row[c].Some? {
            inRow := inRow + 1;
          }
        }
        assert row[..|row|] == row;
        assert g[..r + 1][..r] == g[..r];
        n := n + inRow;
      }
      assert g[..|g|] == g;
    }

    /** One student of the second pass: scan hall h row by row for the
        first empty cell and seat the student there; a full hall leaves
        everything as it was. */
    method SeatInFirstEmpty(h: Hall, s: Student)
      requires h.code in hallSeats && Shaped(hallSeats[h.code], h)
      modifies this
      ensures hallCourses == old(hallCourses)
      ensures match FirstEmptyFrom(old(hallSeats)[h.code], h, 0)
              case None => hallSeats == old(hallSeats) && allocations == old(allocations)
              case Some(k) => hallSeats == old(hallSeats)[h.code := Fill(old(hallSeats)[h.code], h, k, s.reg)]
                              && allocations == old(allocations)[s.reg := RowSeat(h, k, s)]
    {
      var g := hallSeats[h.code];
      ghost var k: nat := 0;
      for r := 0 to h.rows
        invariant k == r * h.cols && FirstEmptyFrom(g, h, 0) == FirstEmptyFrom(g, h, k)
        invariant hallSeats == old(hallSeats) && allocations == old(allocations) && hallCourses == old(hallCourses)
      {
        for c := 0 to h.cols
          invariant FirstEmptyFrom(g, h, 0) == FirstEmptyFrom(g, h, k + c)
          invariant hallSeats == old(hallSeats) && allocations == old(allocations) && hallCourses == old(hallCourses)
        {
          CellAtRowMajor(g, h, r, c);
          if g[r][c] == None {
            DivModOf(r, c, h.cols);
            hallSeats := hallSeats[h.code := g[r := g[r][c := Some(s.reg)]]];
            allocations := allocations[s.reg := Seat(h.code, h.name, h.block, r + 1, c + 1,
                                                     s.course, s.title, s.department, s.date)];
            return;
          }
        }
        NextRow(r, h.cols);
        k := k + h.cols;
      }
    }

    /** One hall of the second pass: with `available_seats` above zero and
        students left, pop the next min(available, left) students one by
        one, each into the hall's first empty cell. */
    method SweepHall(h: Hall, left0: seq<Student>) returns (left: seq<Student>)
      requires h.code in hallSeats && Shaped(hallSeats[h.code], h)
      modifies this
      ensures hallCourses == old(hallCourses)
      ensures Sweep(hallSeats, allocations, left) == HallSweep(h, Sweep(old(hallSeats), old(allocations), left0))
    {
      ghost var g0, ledger0 := hallSeats[h.code], allocations;
      var usable := Min(h.capacity, h.rows * h.cols);
      var count := CountOccupied(hallSeats[h.code]);
      var available := usable - count;
      left := left0;
      if available > 0 && left != [] {
        var toAllocate := Min(available, |left|);
        for i := 0 to toAllocate
          invariant left == left0[i..] && hallCourses == old(hallCourses)
          invariant hallSeats == old(hallSeats)[h.code := FillEmpty(g0, h, left0[..i], ledger0).0]
          invariant allocations == FillEmpty(g0, h, left0[..i], ledger0).1
        {
          SeatNext(h, left0, i, g0, ledger0, old(hallSeats));
          left := left[1..];
        }
      }
    }

    /** One pop of the second pass: student i of the leftovers goes into the
        hall's first empty cell. */
    method SeatNext(h: Hall, left0: seq<Student>, i: nat, ghost g0: SeatGrid, ghost ledger0: map<string, Seat>,
                    ghost seats0: map<string, SeatGrid>)
      requires Shaped(g0, h) && i < |left0|
      requires hallSeats == seats0[h.code := FillEmpty(g0, h, left0[..i], ledger0).0]
      requires allocations == FillEmpty(g0, h, left0[..i], ledger0).1
      modifies this
      ensures hallCourses == old(hallCourses)
      ensures hallSeats == seats0[h.code := FillEmpty(g0, h, left0[..i + 1], ledger0).0]
      ensures allocations == FillEmpty(g0, h, left0[..i + 1], ledger0).1
    {
      assert left0[..i + 1][..i] == left0[..i] && left0[..i + 1][i] == left0[i];
      SeatInFirstEmpty(h, left0[i]);
    }

    /** The second pass: every hall in declared order, on the students
        the first pass left. */
    method SecondPassHalls(left0: seq<Student>) returns (left: seq<Student>)
      requires Valid()
      modifies this
      ensures Valid() && hallCourses == old(hallCourses)
      ensures Sweep(hallSeats, allocations, left) == SecondPass(halls, Sweep(old(hallSeats), old(allocations), left0))
    {
      ghost var sw0 := Sweep(hallSeats, allocations, left0);
      left := left0;
      for i := 0 to |halls|
        invariant GridsFor(sw0.seats, halls[..i]) && hallCourses == old(hallCourses)
        invariant Sweep(hallSeats, allocations, left) == SecondPass(halls[..i], sw0)
      {
        SecondPassStep(halls, i, sw0);
        left := SweepHall(halls[i], left);
      }
      assert halls[..|halls|] == halls;
      SecondPassGrids(halls, sw0);
    }

    // ---------------------------------------------------------------- allocate_seats

    /** `unallocated_students`: what the queues still hold, course after
        course in ranking order. */
    static method Gather(queues: seq<seq<Student>>) returns (unallocated: seq<Student>)
      ensures unallocated == Concat(queues)
    {
      unallocated := [];
      for i := 0 to |queues|
        invariant unallocated + Concat(queues[i..]) == Concat(queues)
      {
        assert queues[i..][1..] == queues[i + 1..];
        unallocated := unallocated + queues[i];
      }
      assert queues[|queues|..] == [];
    }

    /** When students are left, sort them by `_reg_sort_key2` and run the
        second pass on them. */
    method SecondPassIfLeft(rest: seq<Student>) returns (left: seq<Student>)
      requires Valid()
      modifies this
      ensures Valid() && hallCourses == old(hallCourses)
      ensures Sweep(hallSeats, allocations, left)
              == if rest != [] then SecondPass(halls, Sweep(old(hallSeats), old(allocations), SortBy(rest, RegSortKey2)))
                 else Sweep(old(hallSeats), old(allocations), [])
    {
      left := rest;
      if left != [] {
        left := SortBy(left, RegSortKey2);
        left := SecondPassHalls(left);
      }
    }

    /** allocate_seats: validate, rank, run the first pass, gather what
        the queues still hold, run the second pass on it, then report the
        students still unseated. */
    method AllocateSeats() returns (outcome: Outcome)
      requires Valid()
      modifies this
      ensures Valid()
      ensures var run := Allocate(students, halls, old(hallSeats), old(allocations), old(hallCourses));
              outcome == run.outcome && hallSeats == run.seats && allocations == run.ledger
              && hallCourses == run.courses
    {
      var e := CheckInputs(halls, |students|);
      if e.Some? {
        return Invalid(e.value);
      }
      ghost var seats0, ledger0, courses0 := hallSeats, allocations, hallCourses;
      var ranked, queues := RankStudents();
      ghost var p0 := Pass(queues, seats0, ledger0, courses0);
      queues := FirstPassHalls(ranked, queues);
      ghost var p := Pass(queues, hallSeats, allocations, hallCourses);
      var unallocated := Gather(queues);
      unallocated := SecondPassIfLeft(unallocated);
      ghost var sw := Sweep(hallSeats, allocations, unallocated);
      assert Passes(students, halls, seats0, ledger0, courses0) == (p, sw);
      outcome := FinalCheck(|unallocated|);
    }
  }
}
