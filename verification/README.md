# Exam seat allocation, modelled in Dafny

The repository assigns exam students to seats in halls. Two independent engines do this, and this project models both. Each engine starts from a list of student records and a list of hall records. Each hall has a code, a name, a block, a rows × cols grid and a declared "Total Capacity". Each engine fills three dictionaries:

- one rows × cols grid per hall, holding register numbers;
- a ledger (`allocations`) from register number to seat;
- the set of course codes placed in each hall.

**University engine** (`University_Exam_Seat_Allocater.py`, `ExamSeatAllocator.allocate_seats`). It works in these steps:

- It validates the inputs.
- It rounds the student count up to a multiple of 25.
- It chooses halls largest grid first, until the chosen grids hold that many seats. It then keeps the chosen halls in their declared order.
- It gives each chosen hall an integer share of the students, proportional to its grid. The remainder goes one student at a time to the earliest halls.
- It splits the students into a first half (the larger half for an odd count) and a second half. Each hall takes students alternately from the front of each half.
- It places each hall's students in an S-pattern: even rows run left to right, odd rows right to left.

The same file's PDF report holds two helpers that are modelled too:

- continuous seat numbering per hall "base" code, with the direction flipped when a base continues;
- compression of sorted register numbers into "start-end" runs.

**Exam1 engine** (`Exam1_Seat_allocator.py`). It works in these steps:

- It groups the students by course, each course's queue ordered by register number.
- It ranks the courses by size, largest first.
- For every hall in declared order, it takes a window of up to four courses that still have students. With exactly three courses in the window it picks in a 2:1:1 pattern; otherwise it uses plain round robin.
- It sorts the hall's students with a numeric-aware register key and seats them row by row.
- A second pass puts the leftovers, sorted by course and register, into the first empty cell of each hall that has room.

**exam_gui.py.** Only the filename sanitiser and the date/session prefix of the exported files are modelled.

The model has one module per concern:

- `Keys`: Python's tuple ordering of sort keys.
- `Sorting`: Python's stable `sorted`, as an insertion sort by key.
- `Layout`: serpentine and row-major index arithmetic.
- `Halls`: hall records and the shared `validate_inputs`.
- `UniversityPlan`: what the University engine computes, as pure functions.
- `UniversityAllocator`: a class whose fields are the engine's dictionaries. Its methods run the engine's loops and are proved to produce exactly what `UniversityPlan` says.
- `SeatNumbering` and `RegisterRanges`: the two report helpers.
- `Exam1Plan` and `Exam1Allocator`: the Exam1 engine, with the same split between functions and a class.
- `ExportNames`: the GUI's filename helpers.

## Model

| member | source | states |
|---|---|---|
| Halls.ValidateInputsPasses | University_Exam_Seat_Allocater.py:88-99 | The check passes exactly when no hall declares more capacity than rows*cols and the student count is at most the sum of rows*cols. An exact fit passes. |
| Halls.ValidateInputsReports | Exam1_Seat_allocator.py:68-79 | A capacity error names the first offending hall in declared order. The seat-count error is raised exactly when every capacity is within its grid and the students outnumber the seats. |
| Halls.CheckInputs | University_Exam_Seat_Allocater.py:88-99 | The loop-and-raise check returns the verdict of ValidateInputs. |
| Halls.FirstOverGrid | University_Exam_Seat_Allocater.py:91-97 | It returns the position of the first hall whose capacity exceeds its grid; every hall before it is within its grid. |
| Halls.EmptyGrid | University_Exam_Seat_Allocater.py:19-22 | The initial grid of a hall has rows rows of cols cells, all empty. |
| Keys.StrLtTrichotomy | Exam1_Seat_allocator.py:86 | Python's string comparison is a strict total order: two different strings are ordered one way and only one way. |
| Keys.KeyLtTrichotomy | Exam1_Seat_allocator.py:86 | Tuple keys such as (course_code, reg_no) compare as a strict total order. |
| Keys.KeyLtTransitive | Exam1_Seat_allocator.py:86 | Tuple comparison is transitive. |
| Keys.KeyLeTotal | Exam1_Seat_allocator.py:94 | Any two keys are comparable, and keys that are each at most the other are equal. |
| Keys.KeyLeTransitive | Exam1_Seat_allocator.py:94 | Key order is transitive. |
| Sorting.SortBy | Exam1_Seat_allocator.py:86 | Sorting returns a permutation of its input. |
| Sorting.SortSorted | Exam1_Seat_allocator.py:86 | The sorted list is in key order. |
| Sorting.SortStable | University_Exam_Seat_Allocater.py:121 | Elements with equal keys keep their input order. Python's sort is stable, also with reverse=True. |
| Sorting.SortTieBreak | Exam1_Seat_allocator.py:94 | Sorting by one key a list already in order by a second key gives key order with ties in the second order. |
| Sorting.SortDistinctElems | Exam1_Seat_allocator.py:153 | Sorting a list without repeats leaves it without repeats. |
| Layout.SerpIndexBijective | University_Exam_Seat_Allocater.py:189-198 | The S-pattern walk gives every cell a position below rows*cols, and distinct cells get distinct positions. |
| Layout.SerpIndexOnto | University_Exam_Seat_Allocater.py:189-198 | Every position k below rows*cols is the cell in row k div cols, at that row's k mod cols-th column of the walk. |
| Layout.PlaceStep | University_Exam_Seat_Allocater.py:189-198 | The j-th step along row r lands at column j on even rows and cols-1-j on odd rows, at walk position r*cols+j. No other cell has that position. |
| Layout.RowMajorBijective | Exam1_Seat_allocator.py:157-176 | Row-major placement gives every cell a position below rows*cols, and distinct cells get distinct positions. |
| Layout.RowMajorOnto | Exam1_Seat_allocator.py:157-176 | The k-th row-major position is the cell (k div cols, k mod cols). |
| SeatNumbering.LastDash | University_Exam_Seat_Allocater.py:292 | It returns the index of the last '-' in the code, or -1 when there is none. |
| SeatNumbering.BaseShape | University_Exam_Seat_Allocater.py:292 | The base is the whole code when it has no '-'. Otherwise it is the proper prefix that ends just before the last '-'. |
| SeatNumbering.NumberSeats | University_Exam_Seat_Allocater.py:290-313 | Every cell gets the number of its place in the S-walk, counted on from the base's last number. The walk is flipped when the base was seen before. The base's last number advances by rows*cols. |
| SeatNumbering.SeatNumbersExact | University_Exam_Seat_Allocater.py:298-313 | A hall's numbers are exactly last+1 … last+rows*cols, each used once. The k-th cell of the walk gets last+1+k. |
| SeatNumbering.RowDirection | University_Exam_Seat_Allocater.py:300-310 | Row r numbers left to right exactly when (r is even) differs from continue_in_reverse. Number last+1 sits at the starting corner of the first row. |
| RegisterRanges.RunsTo | University_Exam_Seat_Allocater.py:372-385 | A non-empty list is cut into between 1 and n runs, each inside the list. |
| RegisterRanges.RunsMaximal | University_Exam_Seat_Allocater.py:372-385 | The runs tile the list. Inside a run each number parses to the previous one plus 1. Between runs that fails. |
| RegisterRanges.ExtendLastRun | University_Exam_Seat_Allocater.py:377-378 | A number that follows its predecessor extends the last run, and the runs stay maximal. |
| RegisterRanges.StartNewRun | University_Exam_Seat_Allocater.py:379-384 | A number that does not follow, or does not parse, starts a new run, and the runs stay maximal. |
| RegisterRanges.RunValues | University_Exam_Seat_Allocater.py:377 | Inside a run the values rise by exactly one per step. |
| RegisterRanges.RunLabel | University_Exam_Seat_Allocater.py:380 | A run is written "start-end", and a single number is written bare. |
| RegisterRanges.CompressRanges | University_Exam_Seat_Allocater.py:372-385 | The loop outputs the labels of the maximal runs; there are between 1 and len(regs) of them. |
| ExportNames.LStrip | exam_gui.py:324 | It removes exactly the leading whitespace. |
| ExportNames.RStrip | exam_gui.py:324 | It removes exactly the trailing whitespace. |
| ExportNames.SanitizeSafe | exam_gui.py:322-328 | The output contains only ASCII letters, digits, '_' and '-'. Sanitising "" gives "". |
| ExportNames.SanitizeCharwise | exam_gui.py:324-328 | The output is as long as the stripped input. Each character is replaced one for one: '/' and '\\' become '-', allowed characters stay, and spaces and all others become '_'. |
| ExportNames.SanitizeIdempotent | exam_gui.py:324-328 | Sanitising a sanitised string changes nothing. |
| ExportNames.JoinPartsShape | exam_gui.py:332-338 | The prefix is exactly date + "_" + session when both parts are non-empty, the non-empty part when only one is, and "" exactly when both are empty. It contains only safe characters. |
| ExportNames.PrefixShape | exam_gui.py:330-338 | For the raw date and session, the prefix is the sanitised date + "_" + the sanitised session when both are non-empty, the non-empty one when only one is, and "" otherwise. It contains only safe characters. |
| ExportNames.Sanitize | exam_gui.py:319-328 | `_sanitize` never lengthens its input, and returns "" exactly when the stripped input is empty. |
| ExportNames.JoinParts | exam_gui.py:332-338 | The prefix is empty exactly when both parts are, and starts with the date part when there is one. |
| ExportNames.Prefix | exam_gui.py:330-338 | The prefix is at most as long as the raw date and session plus one separator. |
| ExportNames.FileNameSafe | exam_gui.py:340-341 | Joining a safe prefix and a safe file name with '_' keeps the name safe. |
| ExportNames.FileNamesShape | exam_gui.py:340-341 | The file names are prefix_Seating_Plans.pdf and prefix_Master_Seating_Plan.pdf, or the bare names for an empty prefix, and contain only safe characters and '.'. |
| UniversityPlan.RequiredCapacity | University_Exam_Seat_Allocater.py:116 | It returns the smallest multiple of 25 that is at least the student count. |
| UniversityPlan.TakeCountStops | University_Exam_Seat_Allocater.py:124-128 | The loop takes at least one hall when there is one. It stops at the first prefix whose grids reach the required capacity, or takes every hall. |
| UniversityPlan.TakeCountUnique | University_Exam_Seat_Allocater.py:124-128 | Those stopping conditions determine how many halls are taken. |
| UniversityPlan.SelectionStep | University_Exam_Seat_Allocater.py:124-126 | Taking one more hall adds its code to the selected codes and its grid to cap_acc. |
| UniversityPlan.KeepSelected | University_Exam_Seat_Allocater.py:131 | A hall is kept exactly when it is one of the halls and its code was selected. |
| UniversityPlan.KeepSelectedSubsequence | University_Exam_Seat_Allocater.py:131 | The kept halls are a subsequence of the halls in declared order. |
| UniversityPlan.ByCapacityDescending | University_Exam_Seat_Allocater.py:121 | The halls sorted by capacity have non-increasing grid sizes. |
| UniversityPlan.SelectedSeats | University_Exam_Seat_Allocater.py:121-131 | The kept halls hold as many seats as the halls the loop accumulated. |
| UniversityPlan.SelectedHallsLargest | University_Exam_Seat_Allocater.py:118-131 | The halls used are a non-empty subsequence in declared order, and each has a grid at least as large as any unused hall's. |
| UniversityPlan.SelectionCovers | University_Exam_Seat_Allocater.py:108-134 | Once validate_inputs has passed, the selected halls hold at least as many seats as there are students. |
| UniversityPlan.PlanNeverSelectionShort | University_Exam_Seat_Allocater.py:132-134 | The error after the 25-seat-block selection is never raised. |
| UniversityPlan.SharesShortfall | University_Exam_Seat_Allocater.py:141-151 | The floor shares add up to at most the student count, short of it by less than the number of halls. |
| UniversityPlan.ShareWithinGrid | University_Exam_Seat_Allocater.py:146 | A floor share never exceeds the hall's grid, and stays below it while students are fewer than seats. |
| UniversityPlan.ToppedAt | University_Exam_Seat_Allocater.py:150-156 | The i-th hall's target is its share plus one exactly when i is below the remainder. |
| UniversityPlan.TargetsShape | University_Exam_Seat_Allocater.py:141-156 | For any used halls holding the students, seatless halls included, the targets add up to the student count. Each target is its floor share or one more, so never negative. It is at most rows*cols for a hall with a seat; a seatless hall can still get the one extra student. |
| UniversityPlan.TargetsFavourEarlier | University_Exam_Seat_Allocater.py:150-156 | If a hall got an extra student, so did every earlier hall. |
| UniversityPlan.HalfPoint | University_Exam_Seat_Allocater.py:137 | The first half holds ceil(n/2) students. |
| UniversityPlan.RoundCounts | University_Exam_Seat_Allocater.py:174-178 | Each round of the loop takes at least one student and leaves the rest of the split to the later rounds. |
| UniversityPlan.FirstTurn | University_Exam_Seat_Allocater.py:175-176 | Popping the front of the first half appends it to the hall's list in interleaved order. |
| UniversityPlan.SecondTurn | University_Exam_Seat_Allocater.py:177-178 | Popping the front of the second half appends it to the hall's list in interleaved order. |
| UniversityPlan.SplitShape | University_Exam_Seat_Allocater.py:169-178 | A hall takes min(usable, students left) students, alternating between the halves while both last. |
| UniversityPlan.HallTakesFront | University_Exam_Seat_Allocater.py:173-178 | A hall's students are the first ones of the alternating order of the two halves. |
| UniversityPlan.InterleavePermutes | University_Exam_Seat_Allocater.py:173-178 | Interleaving the two halves loses and duplicates no student. |
| UniversityPlan.FillConserves | University_Exam_Seat_Allocater.py:158-182 | The halls' lists plus what is left of the halves are exactly the two halves: each student is popped at most once. |
| UniversityPlan.FillBounded | University_Exam_Seat_Allocater.py:165-178 | Each hall receives at most min(rows*cols, total_capacity, target) students. |
| UniversityPlan.FillEmpties | University_Exam_Seat_Allocater.py:158-182 | When the halls' room covers every student, both halves end up empty. |
| UniversityPlan.FillLast | University_Exam_Seat_Allocater.py:159-178 | Filling a list of halls fills all but the last, then the last from what they left. |
| UniversityPlan.PlanFits | University_Exam_Seat_Allocater.py:165-178 | Every hall's list fits its grid. |
| UniversityPlan.PlanAccounts | University_Exam_Seat_Allocater.py:211-215 | The engine succeeds exactly when the seated students are all the students. Otherwise the error names a non-empty set of students, and seated plus named make up the count. |
| UniversityPlan.PlanSucceeds | University_Exam_Seat_Allocater.py:101-215 | The engine succeeds whenever validation passes, every grid has a seat, and every selected hall's declared capacity covers its target. |
| UniversityPlan.PlanSucceedsAtFullCapacity | University_Exam_Seat_Allocater.py:101-215 | The engine succeeds whenever every hall's capacity equals its non-empty grid and the seats suffice. |
| UniversityPlan.PlacementCells | University_Exam_Seat_Allocater.py:187-198 | After placement, a cell holds the register number of the student placed there, or what it held before. |
| UniversityPlan.PlaceUpToStep | University_Exam_Seat_Allocater.py:192-198 | Writing the next cell of the S-walk advances the placement by one student. |
| UniversityPlan.HallPlacement | University_Exam_Seat_Allocater.py:188-209 | The k-th student of a hall sits in 1-based row k div cols + 1, at the S-walk column; that cell holds its register number; distinct students get distinct seats. |
| UniversityPlan.HallLedgerEntries | University_Exam_Seat_Allocater.py:196-208 | A hall adds a ledger entry for exactly its students, each recording the student's cell. |
| UniversityPlan.PlanLedgerEntries | University_Exam_Seat_Allocater.py:159-209 | The ledger has an entry for exactly the seated students, each recording that student's cell in its hall. |
| UniversityPlan.PlanSeatsDistinct | University_Exam_Seat_Allocater.py:188-209 | No two register numbers in the ledger share a hall, row and column. |
| UniversityPlan.PlanSeatsEveryone | University_Exam_Seat_Allocater.py:211-215 | On success every student has exactly one ledger entry, and it records the cell where the student was placed. |
| UniversityPlan.PlanGridsHalls | University_Exam_Seat_Allocater.py:187-198 | Each used hall's grid is its placement, and every other hall's grid is untouched. |
| UniversityPlan.PlanGridsCells | University_Exam_Seat_Allocater.py:187-198 | Every cell of a used hall holds its student or its earlier content. |
| UniversityPlan.PlanCoursesExact | University_Exam_Seat_Allocater.py:180-185 | hall_courses of a hall that received students is exactly their set of courses. Halls that received no one keep their old entry. |
| UniversityPlan.CapacityKeyLe | University_Exam_Seat_Allocater.py:121 | The sort key puts one hall at or before another exactly when its grid is at least as large. |
| UniversityPlan.SelectedHalls | University_Exam_Seat_Allocater.py:116-131 | halls_to_use is drawn from the declared halls and is no longer than their list. SelectedHallsLargest and SelectedSeats say which halls it holds. |
| UniversityPlan.SelectedAll | University_Exam_Seat_Allocater.py:121-131 | When the accumulation loop runs through every hall, every hall is used, in declared order. |
| UniversityPlan.Targets | University_Exam_Seat_Allocater.py:141-156 | students_per_hall has one target per used hall. TargetsShape and TargetsFavourEarlier state the values. |
| UniversityPlan.Split | University_Exam_Seat_Allocater.py:173-178 | A hall takes no more students from a half than the half holds. SplitShape states the exact counts. |
| UniversityPlan.Interleave | University_Exam_Seat_Allocater.py:173-178 | The alternating order of the two halves holds as many students as both halves. InterleavePermutes states that it is a permutation. |
| UniversityPlan.FillHalls | University_Exam_Seat_Allocater.py:158-182 | The hall loop gives one student list per used hall. FillConserves, FillBounded and FillEmpties state the lists and what is left. |
| UniversityPlan.MakePlan | University_Exam_Seat_Allocater.py:101-215 | allocate_seats as written gives one student list per hall used. PlanAccounts, PlanSucceeds and the Findings table state its outcome. |
| UniversityPlan.SeatedHalls | University_Exam_Seat_Allocater.py:150-156 | The halls with at least one seat, in declared order. They hold every seat, and are all the halls when every hall has a seat. |
| UniversityPlan.SeatedPlan | University_Exam_Seat_Allocater.py:101-215 | allocate_seats with the seatless halls left out after validation gives one student list per hall used. |
| UniversityPlan.SeatedPlanAgrees | University_Exam_Seat_Allocater.py:88-215 | The corrected run equals the run as written when every hall has a seat. It fails validation exactly when the run as written does; otherwise it is the run as written over the seated halls. |
| UniversityPlan.SeatedPlanSucceeds | University_Exam_Seat_Allocater.py:101-215 | When every capacity equals its grid and the seats suffice, the corrected run seats everyone, also when some halls have no seat. |
| UniversityPlan.SeatlessSelection | University_Exam_Seat_Allocater.py:116-131 | With hall Z (0×5, capacity 0) ahead of halls A and B (1×3, capacity 3) and five students, all three halls are used. |
| UniversityPlan.SeatlessTargets | University_Exam_Seat_Allocater.py:141-156 | There the shares are 0, 2 and 2, and the remainder seat goes to Z: the targets are 1, 2 and 2. |
| UniversityPlan.SeatlessFill | University_Exam_Seat_Allocater.py:158-182 | There Z takes nobody, and A and B take two students each, so the third student stays in the first half. |
| UniversityPlan.SeatlessHallShortfall | University_Exam_Seat_Allocater.py:88-215 | Those inputs pass validation with six seats for five students. The run as written still raises, naming the third student; the corrected run succeeds. |
| UniversityAllocator.Allocator.constructor | University_Exam_Seat_Allocater.py:12-23 | The ledger starts empty, every grid starts with all cells empty, and every hall starts with an empty course set. |
| UniversityAllocator.Allocator.SelectHalls | University_Exam_Seat_Allocater.py:113-131 | The sort-and-accumulate loop over the halls it is given returns the selected halls in declared order. |
| UniversityAllocator.Allocator.ComputeTargets | University_Exam_Seat_Allocater.py:141-156 | The share loop and the remainder loop return the proportional targets. |
| UniversityAllocator.Allocator.FillHall | University_Exam_Seat_Allocater.py:171-178 | The round-robin loop takes the alternating front of the two deques, up to usable. It returns what is left of each deque. |
| UniversityAllocator.Allocator.PlaceCell | University_Exam_Seat_Allocater.py:193-209 | Writing one cell and one ledger entry advances the placement and the ledger by one student. |
| UniversityAllocator.Allocator.PlaceRow | University_Exam_Seat_Allocater.py:189-209 | One row of the S-pattern places the next cols students, or all that remain. |
| UniversityAllocator.Allocator.PlaceHall | University_Exam_Seat_Allocater.py:187-209 | The nested loops write the hall's placement into its grid and add its entries to the ledger. |
| UniversityAllocator.Allocator.FillOne | University_Exam_Seat_Allocater.py:159-209 | One hall's turn: it takes its students, records their courses and seats them. A hall that gets no one is skipped. |
| UniversityAllocator.Allocator.FillAndPlace | University_Exam_Seat_Allocater.py:158-209 | The hall loop leaves the ledger, the grids and hall_courses exactly as the plan says. |
| UniversityAllocator.Allocator.AllocateSeats | University_Exam_Seat_Allocater.py:101-215 | The whole run, with the seatless halls left out after validation, ends with SeatedPlan's outcome, ledger, grids and course sets. |
| Exam1Plan.Digits | Exam1_Seat_allocator.py:148 | Removing the non-digits leaves only digits, no longer than the input. |
| Exam1Plan.DigitsEmpty | Exam1_Seat_allocator.py:148-151 | No digits remain exactly when the register number has no digit. |
| Exam1Plan.RegSortKeyOrder | Exam1_Seat_allocator.py:145-153 | Register numbers with a digit come before those without. Among the former, order is by the value of their digits; among the latter, by the string. |
| Exam1Plan.RegSortKey2Order | Exam1_Seat_allocator.py:189-197 | Leftovers order by course first, then by the numeric-aware register key. |
| Exam1Plan.HallListOrdered | Exam1_Seat_allocator.py:141-155 | After the sort, each hall's list is in numeric-aware register order. |
| Exam1Plan.LeftoversOrdered | Exam1_Seat_allocator.py:183-199 | After the sort, the leftovers are in course order, numeric-aware within a course. |
| Exam1Plan.OfCourseMembers | Exam1_Seat_allocator.py:88-91 | A course's group holds exactly the students of that course, with their multiplicities. |
| Exam1Plan.GroupByKeys | Exam1_Seat_allocator.py:88-94 | There is one group per course present, and the insertion order lists each course once. |
| Exam1Plan.GroupByMembers | Exam1_Seat_allocator.py:88-91 | Each group is non-empty and holds its course's students in sorted order. |
| Exam1Plan.GroupOrderAscending | Exam1_Seat_allocator.py:86-91 | The insertion order of the groups is ascending course order. |
| Exam1Plan.RankQueues | Exam1_Seat_allocator.py:85-96 | The ranked courses are the courses present, each once. Each queue is non-empty, holds exactly its course's students and is ordered by reg_no. |
| Exam1Plan.RankOrder | Exam1_Seat_allocator.py:93-96 | Courses are ranked by descending size, with ties in ascending course code. |
| Exam1Plan.RankKeepsStudents | Exam1_Seat_allocator.py:85-96 | The queues together hold exactly the students. |
| Exam1Plan.ActiveExact | Exam1_Seat_allocator.py:111-113 | The scan collects exactly the courses that still have students, in ranked order. |
| Exam1Plan.WindowShape | Exam1_Seat_allocator.py:110-116 | The window holds at most four courses, in ranked order, all with students. Any course with students left out comes after the fourth. |
| Exam1Plan.WindowCourses | Exam1_Seat_allocator.py:117-118 | hall_courses is set to the window's course codes. |
| Exam1Plan.Pattern | Exam1_Seat_allocator.py:123-139 | The turn pattern ([A, A, B, C] for three courses, each course once otherwise) gives every window course a turn. |
| Exam1Plan.PatternTurn | Exam1_Seat_allocator.py:136-139 | In round robin the k-th turn of every round goes to the k-th window course. |
| Exam1Plan.PicksTake | Exam1_Seat_allocator.py:128-133 | A turn whose course has students and whose hall has room pops that course's front student onto the hall's list. |
| Exam1Plan.PicksMiss | Exam1_Seat_allocator.py:128-133 | A turn whose course is empty only moves on to the next turn. |
| Exam1Plan.PicksStop | Exam1_Seat_allocator.py:128 | The picks stop once the hall is full or the window is exhausted. |
| Exam1Plan.PicksCount | Exam1_Seat_allocator.py:123-139 | A hall's picks extend its list, up to min(usable, students in the window). |
| Exam1Plan.PicksConserve | Exam1_Seat_allocator.py:128-139 | The hall's picks plus the queues after them are exactly the queues before, so no student is taken twice. |
| Exam1Plan.PicksQueues | Exam1_Seat_allocator.py:131-139 | Picks only shorten window queues from the front. Courses outside the window are untouched. |
| Exam1Plan.HallPicksBound | Exam1_Seat_allocator.py:105 | A hall never takes more than min(total_capacity, rows*cols) students. |
| Exam1Plan.HallPicksConserve | Exam1_Seat_allocator.py:123-139 | A hall's list plus the remaining queues are exactly the queues it started from. |
| Exam1Plan.HallList | Exam1_Seat_allocator.py:123-155 | A hall's sorted list fits its grid. |
| Exam1Plan.RowPlaceUpToStep | Exam1_Seat_allocator.py:163-164 | Writing the next row-major cell advances the placement by one student. |
| Exam1Plan.RowLedgerAt | Exam1_Seat_allocator.py:165-175 | The k-th student's ledger entry records row k div cols + 1 and column k mod cols + 1. |
| Exam1Plan.RowPlacementAgrees | Exam1_Seat_allocator.py:157-176 | The k-th student's cell (k div cols, k mod cols) holds their register number, and the ledger records the same cell 1-based. |
| Exam1Plan.HallStepSeats | Exam1_Seat_allocator.py:99-176 | Every student a hall takes off the queues gets a ledger entry. |
| Exam1Plan.FirstPassSeats | Exam1_Seat_allocator.py:98-176 | After the first pass every student is in the ledger or still queued, and the queues only shrink. |
| Exam1Plan.HallStepWithinUsable | Exam1_Seat_allocator.py:105-176 | A hall that is empty before its turn holds at most min(total_capacity, rows*cols) students after it. |
| Exam1Plan.FirstPassWithinUsable | Exam1_Seat_allocator.py:98-176 | Every hall's occupancy after the first pass is within its usable capacity. |
| Exam1Plan.FirstPassOthers | Exam1_Seat_allocator.py:98-176 | The first pass changes no grid of a hall outside the list. |
| Exam1Plan.FirstEmptyIsFirst | Exam1_Seat_allocator.py:217-219 | The scan finds an empty cell, and every cell before it in row-major order is occupied. |
| Exam1Plan.FirstEmptyExists | Exam1_Seat_allocator.py:217-219 | A grid with fewer occupied cells than rows*cols has an empty cell. |
| Exam1Plan.FillAt | Exam1_Seat_allocator.py:219-220 | Filling an empty cell adds one occupied cell and changes no other cell. |
| Exam1Plan.FillEmptySeatsAll | Exam1_Seat_allocator.py:213-235 | With enough room, each student finds an empty cell, and occupancy grows by the number seated. |
| Exam1Plan.FillEmptyLedger | Exam1_Seat_allocator.py:214-231 | The ledger gains an entry for exactly the students seated. |
| Exam1Plan.FillEmptyKeeps | Exam1_Seat_allocator.py:219 | An occupied cell is never overwritten. |
| Exam1Plan.HallSweepSeats | Exam1_Seat_allocator.py:201-235 | A hall seats a prefix of the leftovers, each with a ledger entry. Its occupied cells grow by exactly the number seated, and a hall within its usable capacity stays within it. |
| Exam1Plan.SecondPassSeats | Exam1_Seat_allocator.py:201-235 | The second pass seats a prefix of the sorted leftovers and records each of them in the ledger. |
| Exam1Plan.SecondPassWithinUsable | Exam1_Seat_allocator.py:201-235 | No hall's occupancy ever exceeds min(total_capacity, rows*cols). |
| Exam1Plan.SecondPassAccounts | Exam1_Seat_allocator.py:178-235 | Every leftover ends in the ledger or still unallocated, and the ledger only grows. |
| Exam1Plan.FinalCheck | Exam1_Seat_allocator.py:237-240 | The run raises exactly when the count it checks is non-zero, and the error carries that count. |
| Exam1Plan.Allocate | Exam1_Seat_allocator.py:81-240 | A failed validation changes nothing. The run succeeds exactly when validation passes and no student is left after the second pass. |
| Exam1Plan.AllocateAccounts | Exam1_Seat_allocator.py:81-240 | Every student ends in the ledger or among those left, and no student is invented. |
| Exam1Plan.AllocatedSeatsEveryone | Exam1_Seat_allocator.py:237-240 | On success every student has a ledger entry. |
| Exam1Plan.AllocateWithinUsable | Exam1_Seat_allocator.py:98-235 | Starting from empty grids, no hall ends with more than min(total_capacity, rows*cols) occupied cells. |
| Exam1Plan.OwnCoursesPasses | Exam1_Seat_allocator.py:98-235 | With one hall that has room for everyone and five or more students, each in a course of their own: the first pass leaves all but four queued, and the second pass seats them all. |
| Exam1Plan.AsWrittenMiscounts | Exam1_Seat_allocator.py:237-240 | In that situation the check as written reports all but four students unallocated, while the corrected check reports success. |
| Exam1Plan.FiveCoursesOneHall | Exam1_Seat_allocator.py:237-240 | Five students in five courses and one 1×5 hall of capacity 5: as written, one student is reported unallocated; corrected, the run succeeds. |
| Exam1Plan.RegSortKey | Exam1_Seat_allocator.py:145-151 | `_reg_sort_key` is a pair whose first element is 0 exactly when the register number holds a digit. RegSortKeyOrder states the order it induces. |
| Exam1Plan.RegSortKey2 | Exam1_Seat_allocator.py:189-195 | `_reg_sort_key2` is the course code followed by `_reg_sort_key`. |
| Exam1Plan.Rank | Exam1_Seat_allocator.py:85-96 | There is one queue per ranked course. RankQueues, RankOrder and RankKeepsStudents state the ranking and the queues. |
| Exam1Plan.Window | Exam1_Seat_allocator.py:110-116 | The window holds at most four ranking positions, each of a course that still has students. WindowShape adds order and maximality. |
| Exam1Plan.Picks | Exam1_Seat_allocator.py:128-139 | The pick loop keeps one queue per course. PicksTake, PicksMiss, PicksStop, PicksCount and PicksConserve state its steps and its result. |
| Exam1Plan.HallPicks | Exam1_Seat_allocator.py:123-139 | A hall's picks keep one queue per course. HallPicksBound and HallPicksConserve state how many it takes and from where. |
| Exam1Plan.HallStep | Exam1_Seat_allocator.py:99-176 | One hall of the first pass keeps one queue per course, the same hall codes, and the shape of every grid. HallStepSeats states who is seated. |
| Exam1Plan.FirstPass | Exam1_Seat_allocator.py:98-176 | The first pass keeps one queue per course, the same hall codes, and the shape of every grid. FirstPassSeats, FirstPassWithinUsable and FirstPassOthers state the rest. |
| Exam1Plan.FillEmpty | Exam1_Seat_allocator.py:214-235 | Seating leftovers in a hall keeps its grid's shape. FillEmptySeatsAll, FillEmptyLedger and FillEmptyKeeps state who is seated and where. |
| Exam1Plan.HallSweep | Exam1_Seat_allocator.py:201-235 | One hall of the second pass keeps the hall codes and the hall's grid shape, and changes no other hall's grid. HallSweepSeats states who is seated. |
| Exam1Plan.SecondPass | Exam1_Seat_allocator.py:201-235 | The second pass keeps the hall codes and the shape of every grid. SecondPassSeats and SecondPassAccounts state who is seated. |
| Exam1Plan.Passes | Exam1_Seat_allocator.py:85-235 | Both passes together keep the set of hall grids. |
| Exam1Plan.AllocateAsWritten | Exam1_Seat_allocator.py:81-240 | The run as written leaves the same grids, ledger, course sets and leftovers as the corrected run, and reports success only when the corrected run does. AsWrittenMiscounts shows that the converse fails. |
| Exam1Allocator.Allocator.constructor | Exam1_Seat_allocator.py:12-23 | The ledger starts empty, every grid starts with all cells empty, and every hall starts with an empty course set. |
| Exam1Allocator.Allocator.GroupByCourse | Exam1_Seat_allocator.py:88-91 | The defaultdict loop builds the course groups and their insertion order. |
| Exam1Allocator.Allocator.RankStudents | Exam1_Seat_allocator.py:85-96 | It returns the ranked courses and their queues. |
| Exam1Allocator.Allocator.ChooseWindow | Exam1_Seat_allocator.py:110-116 | The scan returns the window of up to four courses with students. |
| Exam1Allocator.Allocator.PickTurn | Exam1_Seat_allocator.py:129-133 | One turn pops the front of its course into the hall when both allow it; otherwise it changes nothing. |
| Exam1Allocator.Allocator.TakeByPattern | Exam1_Seat_allocator.py:123-133 | The 2:1:1 loop returns the hall's picks and the remaining queues. |
| Exam1Allocator.Allocator.RoundRobinSweep | Exam1_Seat_allocator.py:137-139 | One round of the for-loop over the window keeps to the picks and takes at least one student. |
| Exam1Allocator.Allocator.TakeRoundRobin | Exam1_Seat_allocator.py:134-139 | The round-robin loop returns the hall's picks and the remaining queues. |
| Exam1Allocator.Allocator.PlaceCell | Exam1_Seat_allocator.py:163-176 | Writing one cell and one ledger entry advances the row-major placement by one student. |
| Exam1Allocator.Allocator.PlaceRow | Exam1_Seat_allocator.py:160-176 | One row places the next cols students, or all that remain. |
| Exam1Allocator.Allocator.PlaceRows | Exam1_Seat_allocator.py:157-176 | The nested loops write the row-major placement and its ledger entries. |
| Exam1Allocator.Allocator.HallFirstPass | Exam1_Seat_allocator.py:99-176 | One hall of the first pass: it sets the window courses, takes the picks, sorts them and seats them. |
| Exam1Allocator.Allocator.FirstPassNext | Exam1_Seat_allocator.py:99-176 | The hall loop's body advances the first pass by one hall. |
| Exam1Allocator.Allocator.FirstPassHalls | Exam1_Seat_allocator.py:98-176 | The hall loop leaves the queues, grids, ledger and course sets as the first pass says. |
| Exam1Allocator.Allocator.Gather | Exam1_Seat_allocator.py:179-181 | The unallocated list is the remaining queues concatenated in ranked order. |
| Exam1Allocator.Allocator.CountOccupied | Exam1_Seat_allocator.py:208 | It counts the cells holding a register number. |
| Exam1Allocator.Allocator.SeatInFirstEmpty | Exam1_Seat_allocator.py:216-235 | One student goes into the first empty cell in row-major order with a matching ledger entry; a full hall is left as it was. |
| Exam1Allocator.Allocator.SeatNext | Exam1_Seat_allocator.py:214-235 | Seating one more leftover advances the sweep by one student. |
| Exam1Allocator.Allocator.SweepHall | Exam1_Seat_allocator.py:202-235 | One hall's loop of the second pass leaves the grids, ledger and leftovers as that hall's sweep says. hall_courses does not change. |
| Exam1Allocator.Allocator.SecondPassHalls | Exam1_Seat_allocator.py:201-235 | The hall loop of the second pass ends as the second pass says. |
| Exam1Allocator.Allocator.SecondPassIfLeft | Exam1_Seat_allocator.py:183-235 | With leftovers, they are sorted and swept through the halls; without, nothing changes. |
| Exam1Allocator.Allocator.AllocateSeats | Exam1_Seat_allocator.py:81-240 | The whole run ends with Allocate's outcome, grids, ledger and course sets. |

## Left out

- Excel loading (`_load_students`, `_load_halls`), the column checks and NaN skipping. These are I/O; the inputs are sequences of records.
- `print_seating_plan` and all ReportLab document, table, style and colour construction. These are rendering.
- Everything in exam_gui.py outside the filename helpers: widgets, dialogs, previews, the worker thread, date formatting, and the fallbacks over export signatures. These are UI, concurrency and dynamic dispatch.
- UniversityPlan.Share: the float expression `int((cap / total_capacity) * total_students)` is modelled as exact floor division `cap * n / total`. A Python float can differ from it by one near integer boundaries.
- Exam1Plan.Digits: `re.sub(r"\D", "", reg)` and `int(...)` are restricted to ASCII digits. Unicode decimal digits are not modelled.
- RegisterRanges.ParseInt: `int()` is modelled as the parse of a non-empty ASCII digit string. Signs, surrounding whitespace and underscores, which Python's `int()` accepts, count as parse failures here. A digit string longer than 4300 digits parses here; CPython (from 3.11, and the matching 3.10 and 3.9 security releases) refuses such a string, which the source then treats as a parse failure.
- The `try/except` fallbacks around the Exam1 sorts (lines 142-155 and 186-199). The keys never raise on string register numbers of at most 4300 digits, so the fallbacks never run. Above CPython's 4300-digit limit on converting a string to an int (from 3.11, and the matching 3.10 and 3.9 security releases), `int()` raises and the fallback keys would be used; that case is not modelled.
- Duplicate hall codes and duplicate register numbers. Both are modelled as preconditions (`DistinctCodes`, `DistinctRegs`) of the properties that need them. The source would silently overwrite dictionary entries.
- Sorting.SortBy: Python's sort is modelled as a stable insertion sort on values. The in-place `list.sort` of the hall list is not modelled as an array algorithm.
- The per-hall grids are modelled as a `map` from hall code to a sequence of rows that the methods reassign. Aliasing between the grid lists is not modelled; the source never shares them.
- Exam1Plan.AllocateWithinUsable: it assumes the grids start empty, as the constructor leaves them. A second call on a filled allocator is not covered.
- Exam1Allocator.Allocator.AllocateSeats: it is proved against the corrected final check (see Findings), not the check as written. The check as written is modelled by Exam1Plan.AllocateAsWritten.
- Halls.Hall: rows and cols are natural numbers. The loaders read them with `int()` and check no sign (University_Exam_Seat_Allocater.py:45-46, Exam1_Seat_allocator.py:39-40). A hall with rows -2, cols -3 and capacity 6 passes validation in the source, because (-2)*(-3) = 6, yet its grid has no cells. The University engine would then hand that hall students, record their courses, seat none of them and still report success. Such halls are not modelled, so PlanAccounts and the placement lemmas cover only halls with non-negative sides.
- UniversityAllocator.Allocator.AllocateSeats: it is proved against the corrected run SeatedPlan (see Findings), not the run as written. The run as written is modelled by UniversityPlan.MakePlan, which SeatedPlan equals whenever every hall has a seat.
- The ghost turn and miss counters of the Exam1 pick loops exist only to prove termination and the loop invariants. They have no counterpart in the source.

## Findings

| source | as written | input that shows it | evidently intended | confidence | as-written member | corrected member |
|---|---|---|---|---|---|---|
| Exam1_Seat_allocator.py:237-240 | The final check sums the lengths of `remaining_courses`. The second pass pops only from `unallocated_students`, a copy, so the check counts everyone the first pass left, even those the second pass seated. | Five students, each in their own course; one hall with 1 row, 5 columns and capacity 5. The window takes four courses, and the fifth student is seated by the second pass. The run still raises "Remaining unallocated: 1". | Raise only for students the second pass could not seat, and report success here. | not executed | Exam1Plan.AllocateAsWritten, Exam1Plan.AsWrittenMiscounts, Exam1Plan.FiveCoursesOneHall | Exam1Plan.Allocate, Exam1Plan.AllocatedSeatsEveryone |
| University_Exam_Seat_Allocater.py:150-156 | The rounding remainder goes one student at a time to the used halls in declared order, also to a hall whose grid has no seat. That hall's usable count is then 0, so it takes nobody, and the extra student is never seated. | Hall Z with 0 rows, 5 columns and capacity 0, declared before halls A and B with 1 row, 3 columns and capacity 3; five students. Validation passes (six seats). All three halls are used, the targets are 1, 2 and 2, Z takes nobody, and the run raises naming the third student. | Seat everyone when the seats suffice. This holds when the seatless halls get no remainder, here by leaving them out after validation. | not executed | UniversityPlan.MakePlan, UniversityPlan.SeatlessHallShortfall | UniversityPlan.SeatedPlan, UniversityPlan.SeatedPlanSucceeds |
