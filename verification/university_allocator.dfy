/** `ExamSeatAllocator` of University_Exam_Seat_Allocater.py as the object it
    is: the students and halls it loaded, one seat grid per hall, the
    `allocations` ledger and the `hall_courses` map, with `allocate_seats`
    proved to leave them as UniversityPlan computes. */
module UniversityAllocator {
  import opened Optional
  import opened Layout
  import opened Halls
  import opened UniversityPlan

  class Allocator {
    const students: seq<Student>
    const halls: seq<Hall>
    /** hall_seats: a rows x cols grid of register numbers per hall code. */
    var hallSeats: map<string, SeatGrid>
    var allocations: map<string, Seat>
    var hallCourses: map<string, set<string>>

    /** Every hall has a grid of its own size. */
    ghost predicate Valid()
      reads this
    {
      GridsFor(hallSeats, halls)
    }

    /** The constructor after loading: empty ledger, every cell of every
        grid empty, every hall with an empty course set. */
    constructor (students: seq<Student>, halls: seq<Hall>)
      requires DistinctCodes(halls)
      ensures this.students == students && this.halls == halls
      ensures Valid()
      ensures allocations == map[]
      ensures hallCourses == map c | c in Codes(halls) :: {}
      ensures hallSeats == map h | h in halls :: h.code := EmptyGrid(h)
    {
      this.students := students;
      this.halls := halls;
      hallSeats := map h | h in halls :: h.code := EmptyGrid(h);
      allocations := map[];
      hallCourses := map c | c in Codes(halls) :: {};
      new;
      forall k | 0 <= k < |halls| ensures halls[k].code in hallSeats && Shaped(hallSeats[halls[k].code], halls[k]) {
        assert halls[k] in halls;
      }
    }

    /** The 25-seat-block selection from pool: the accumulation loop over
        the halls by decreasing grid, then the declared-order filter. */
    method SelectHalls(pool: seq<Hall>) returns (use: seq<Hall>)
      ensures use == SelectedHalls(pool, |students|)
    {
      var n := |students|;
      var required := RequiredCapacity(n);
      var byCapacity := ByCapacity(pool);
      var selected: set<string> := {};
      var capAcc := 0;
      var i := 0;
      while i < |byCapacity|
        invariant 0 <= i <= |byCapacity|
        invariant selected == Codes(byCapacity[..i])
        invariant capAcc == TotalSeats(byCapacity[..i])
        invariant forall j :: 1 <= j <= i ==> TotalSeats(byCapacity[..j]) < required
      {
        var h := byCapacity[i];
        SelectionStep(byCapacity, i);
        capAcc := capAcc + Grid(h);
        selected := selected + {h.code};
        i := i + 1;
        if capAcc >= required {
          break;
        }
        BelowExtend(byCapacity, i - 1, required);
      }
      SelectionLoopDone(pool, n, i);
      use := KeepSelected(pool, selected);
    }

    /** students_per_hall, aligned with use: the proportional shares, then
        one more for each hall in order while a remainder is left. */
    method ComputeTargets(use: seq<Hall>) returns (targets: seq<int>)
      ensures targets == Targets(use, |students|)
    {
      var n := |students|;
      var totalCapacity := TotalSeats(use);
      targets := [];
      var allocatedCount := 0;
      var i := 0;
      while i < |use|
        invariant 0 <= i <= |use|
        invariant |targets| == i
        invariant forall j :: 0 <= j < i ==> targets[j] == Share(use[j], totalCapacity, n)
        invariant allocatedCount == SumShares(use[..i], totalCapacity, n)
      {
        var cap := use[i].rows * use[i].cols;
        var count := if totalCapacity > 0 then cap * n / totalCapacity else 0;
        SumSharesAppend(use[..i], [use[i]], totalCapacity, n);
        assert use[..i + 1] == use[..i] + [use[i]];
        targets := targets + [count];
        allocatedCount := allocatedCount + count;
        i := i + 1;
      }
      assert use[..|use|] == use;
      var rem := n - allocatedCount;
      ghost var rem0 := rem;
      i := 0;
      while i < |use|
        invariant 0 <= i <= |use| && |targets| == |use|
        invariant rem == rem0 - i
        invariant i == 0 || i <= rem0
        invariant forall j :: 0 <= j < |use| ==>
                    targets[j] == Share(use[j], totalCapacity, n) + (if j < i then 1 else 0)
      {
        if rem <= 0 {
          break;
        }
        targets := targets[i := targets[i] + 1];
        rem := rem - 1;
        i := i + 1;
      }
      ToppedAt(use, totalCapacity, n, rem0);
      forall j | 0 <= j < |use| ensures targets[j] == Topped(use, totalCapacity, n, rem0)[j] {
        assert j < i <==> j < rem0;
      }
    }

    /** The round-robin loop for one hall: the deques are the two sequences,
        popped at the front. */
    method FillHall(usable: int, first: seq<Student>, second: seq<Student>)
      returns (taken: seq<Student>, restFirst: seq<Student>, restSecond: seq<Student>)
      ensures var (i, j) := Split(|first|, |second|, usable);
              taken == Interleave(first[..i], second[..j]) && restFirst == first[i..] && restSecond == second[j..]
    {
      var f, s := first, second;
      taken := [];
      ghost var i, j := 0, 0;
      while |taken| < usable && (f != [] || s != [])
        invariant RoundStart(|first|, |second|, i, j, usable)
        invariant f == first[i..] && s == second[j..]
        invariant taken == Interleave(first[..i], second[..j])
        invariant Split(|first|, |second|, usable) == SplitFrom(|first|, |second|, usable, i, j)
        decreases |f| + |s|
      {
        RoundCounts(|first|, |second|, usable, i, j);
        ghost var a := if i < |first| then 1 else 0;
        ghost var b := if j < |second| && i + j + a < usable then 1 else 0;
        ghost var i0, j0 := i, j;
        if f != [] && |taken| < usable {
          FirstTurn(first, second, i, j);
          taken := taken + [f[0]];
          f := f[1..];
          i := i + 1;
        }
        if s != [] && |taken| < usable {
          SecondTurn(first, second, i, j);
          taken := taken + [s[0]];
          s := s[1..];
          j := j + 1;
        }
        assert i == i0 + a && j == j0 + b;
      }
      SplitDone(|first|, |second|, usable, i, j);
      restFirst, restSecond := f, s;
    }

    /** The S-pattern placement of one hall's students: row by row until
        they run out, each student written into the grid and into the
        ledger. */
    method PlaceHall(h: Hall, ss: seq<Student>)
      requires h.code in hallSeats && Shaped(hallSeats[h.code], h)
      requires |ss| <= Grid(h)
      modifies this
      ensures allocations == old(allocations) + HallLedger(h, ss)
      ensures hallCourses == old(hallCourses)
      ensures hallSeats == old(hallSeats)[h.code := Placement(old(hallSeats)[h.code], h, ss)]
    {
      ghost var g0 := hallSeats[h.code];
      PlaceUpToNone(g0, h, ss);
      assert hallSeats == old(hallSeats)[h.code := PlaceUpTo(g0, h, ss, 0)];
      var idx := 0;
      var r := 0;
      while r < h.rows
        invariant 0 <= r <= h.rows
        invariant idx <= |ss| && (idx == |ss| || idx == r * h.cols)
        invariant allocations == old(allocations) + HallLedger(h, ss[..idx])
        invariant hallCourses == old(hallCourses)
        invariant hallSeats == old(hallSeats)[h.code := PlaceUpTo(g0, h, ss, idx)]
      {
        if idx >= |ss| {
          break;
        }
        idx := PlaceRow(h, ss, r, idx, old(allocations), g0);
        NextRow(r, h.cols);
        r := r + 1;
      }
      assert ss[..idx] == ss;
    }

    /** The inner loop of the placement: row r, left to right when r is even
        and right to left when it is odd, until the students run out. */
    method PlaceRow(h: Hall, ss: seq<Student>, r: nat, start: nat,
                    ghost before: map<string, Seat>, ghost g0: SeatGrid)
      returns (idx: nat)
      requires Shaped(g0, h)
      requires r < h.rows && start == r * h.cols && start < |ss| <= Grid(h)
      requires allocations == before + HallLedger(h, ss[..start])
      requires h.code in hallSeats && hallSeats[h.code] == PlaceUpTo(g0, h, ss, start)
      modifies this
      ensures start < idx <= |ss| && (idx == |ss| || idx == start + h.cols)
      ensures allocations == before + HallLedger(h, ss[..idx])
      ensures hallCourses == old(hallCourses)
      ensures hallSeats == old(hallSeats)[h.code := PlaceUpTo(g0, h, ss, idx)]
    {
      GridSides(h);
      idx := start;
      var j := 0;
      while j < h.cols
        invariant 0 <= j <= h.cols
        invariant idx == start + j && idx <= |ss|
        invariant allocations == before + HallLedger(h, ss[..idx])
        invariant hallCourses == old(hallCourses)
        invariant hallSeats == old(hallSeats)[h.code := PlaceUpTo(g0, h, ss, idx)]
      {
        if idx >= |ss| {
          break;
        }
        PlaceCell(h, ss, r, j, idx, before, g0);
        idx := idx + 1;
        j := j + 1;
      }
    }

    /** One step of the inner loop: student idx goes to the j-th cell of
        row r and gets its ledger entry. */
    method PlaceCell(h: Hall, ss: seq<Student>, r: nat, j: nat, idx: nat,
                     ghost before: map<string, Seat>, ghost g0: SeatGrid)
      requires Shaped(g0, h) && idx < |ss| <= Grid(h)
      requires r < h.rows && j < h.cols && idx == r * h.cols + j
      requires allocations == before + HallLedger(h, ss[..idx])
      requires h.code in hallSeats && hallSeats[h.code] == PlaceUpTo(g0, h, ss, idx)
      modifies this
      ensures allocations == before + HallLedger(h, ss[..idx + 1])
      ensures hallCourses == old(hallCourses)
      ensures hallSeats == old(hallSeats)[h.code := PlaceUpTo(g0, h, ss, idx + 1)]
    {
      var c := if r % 2 == 0 then j else h.cols - 1 - j;
      PlaceStep(r, j, h.rows, h.cols);
      PlaceUpToStep(g0, h, ss, idx, r, j);
      var student := ss[idx];
      var grid := hallSeats[h.code];
      hallSeats := hallSeats[h.code := grid[r := grid[r][c := Some(student.reg)]]];
      LedgerStep(h, ss, idx, r, c, before);
      allocations := allocations[student.reg := Seat(h.code, h.name, h.block, r + 1, c + 1,
                                                     student.course, student.title, student.department)];
    }

    /** One pass of the hall loop: the hall's share of the two halves,
        its course set, and its placement. A hall whose target is not
        positive is skipped. */
    method FillOne(hall: Hall, target: int, first: seq<Student>, second: seq<Student>)
      returns (taken: seq<Student>, restFirst: seq<Student>, restSecond: seq<Student>)
      requires hall.code in hallSeats && Shaped(hallSeats[hall.code], hall)
      modifies this
      ensures var (i, j) := Split(|first|, |second|, Usable(hall, target));
              taken == Interleave(first[..i], second[..j]) && restFirst == first[i..] && restSecond == second[j..]
      ensures |taken| <= Grid(hall)
      ensures allocations == old(allocations) + HallLedger(hall, taken)
      ensures hallCourses == if taken == [] then old(hallCourses) else old(hallCourses)[hall.code := CoursesOf(taken)]
      ensures hallSeats == if taken == [] then old(hallSeats)
                           else old(hallSeats)[hall.code := Placement(old(hallSeats)[hall.code], hall, taken)]
    {
      TakenFits(hall, target, |first|, |second|);
      taken, restFirst, restSecond := [], first, second;
      if target > 0 {
        var usable := Usable(hall, target);
        taken, restFirst, restSecond := FillHall(usable, first, second);
        if taken != [] {
          hallCourses := hallCourses[hall.code := CoursesOf(taken)];
          PlaceHall(hall, taken);
          return;
        }
      } else {
        assert first[..0] == [] && second[..0] == [] && first[0..] == first && second[0..] == second;
      }
      assert allocations + map[] == allocations;
    }

    /** The hall loop of allocate_seats over the selected halls. */
    method FillAndPlace(use: seq<Hall>, targets: seq<int>, first0: seq<Student>, second0: seq<Student>)
      returns (first: seq<Student>, second: seq<Student>)
      requires |targets| == |use| && GridsFor(hallSeats, use)
      modifies this
      ensures var f := FillHalls(use, targets, first0, second0);
              first == f.first && second == f.second && Fits(use, f.lists)
              && allocations == old(allocations) + PlanLedger(use, f.lists)
              && hallCourses == PlanCourses(old(hallCourses), use, f.lists)
              && hallSeats == PlanGrids(old(hallSeats), use, f.lists)
    {
      first, second := first0, second0;
      ghost var done: seq<seq<Student>> := [];
      var k := 0;
      while k < |use|
        invariant 0 <= k <= |use|
        invariant FillHalls(use[..k], targets[..k], first0, second0) == Fill(done, first, second)
        invariant Fits(use[..k], done) && GridsFor(old(hallSeats), use[..k])
        invariant allocations == old(allocations) + PlanLedger(use[..k], done)
        invariant hallCourses == PlanCourses(old(hallCourses), use[..k], done)
        invariant hallSeats == PlanGrids(old(hallSeats), use[..k], done)
      {
        ghost var ledger, courses, grids := allocations, hallCourses, hallSeats;
        var taken, f2, s2 := FillOne(use[k], targets[k], first, second);
        FillAdvance(use, targets, first0, second0, k, done, first, second, taken, f2, s2);
        RecordAdvance(use, old(allocations), old(hallCourses), old(hallSeats), k, done,
                      ledger, courses, grids, taken, allocations, hallCourses, hallSeats);
        first, second := f2, s2;
        done := done + [taken];
        k := k + 1;
      }
      assert use[..|use|] == use && targets[..|use|] == targets;
    }

    /** allocate_seats, with the halls that have no seat left out once the
        inputs are validated (see SeatedPlan). The two early raises leave the
        state as it was; the final raise comes after every hall was filled,
        as in the source. */
    method AllocateSeats() returns (outcome: Outcome)
      requires Valid()
      modifies this
      ensures outcome == SeatedPlan(students, halls).outcome
      ensures var p := SeatedPlan(students, halls);
              Fits(p.use, p.lists) && GridsFor(old(hallSeats), p.use)
              && allocations == old(allocations) + PlanLedger(p.use, p.lists)
              && hallCourses == PlanCourses(old(hallCourses), p.use, p.lists)
              && hallSeats == PlanGrids(old(hallSeats), p.use, p.lists)
    {
      var n := |students|;
      var err := CheckInputs(halls, n);
      if err.Some? {
        assert allocations + map[] == allocations;
        return Invalid(err.value);
      }
      var seated := SeatedHalls(halls);
      SeatedPlanAgrees(students, halls);
      PlanFits(students, seated);
      var use := SelectHalls(seated);
      assert GridsFor(hallSeats, use) by {
        forall k | 0 <= k < |use| ensures use[k] in halls {
          assert use[k] in use;
        }
      }
      if TotalSeats(use) < n {
        assert allocations + map[] == allocations;
        return SelectionShort;
      }
      var half := (n + 1) / 2;
      var targets := ComputeTargets(use);
      var first, second := FillAndPlace(use, targets, students[..half], students[half..]);
      var remaining := first + second;
      if remaining != [] {
        return Unallocated(Regs(remaining));
      }
      return Allocated;
    }
  }
}
