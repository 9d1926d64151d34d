/** What `ExamSeatAllocator.allocate_seats` of Exam1_Seat_allocator.py
    computes, as functions of its inputs and of the state it starts from: the
    course queues ranked by size, the window of courses each hall draws from,
    the students each hall takes and where they sit row by row, the second
    pass that seats the leftovers in the first empty cells, and the final
    check. The class in Exam1Allocator is proved to do exactly this. */
module Exam1Plan {
  import opened Optional
  import opened Keys
  import opened Sorting
  import opened Layout
  import opened Halls
  import RegisterRanges

  datatype Student = Student(reg: string, department: string, course: string, title: string, date: string)

  /** An `allocations` entry: the hall, the 1-based row and column, and the
      student's course details and exam date. */
  datatype Seat = Seat(hallCode: string, hallName: string, block: string, row: nat, col: nat,
                       course: string, title: string, department: string, date: string)

  /** Register numbers key the ledger and the grid cells. */
  ghost predicate DistinctRegs(ss: seq<Student>)
  {
    forall i, j :: 0 <= i < j < |ss| ==> ss[i].reg != ss[j].reg
  }

  function CoursesIn(ss: seq<Student>): set<string>
  {
    set s | s in ss :: s.course
  }

  /** The registers of a sequence of students. */
  function Regs(ss: seq<Student>): (rs: set<string>)
    ensures forall s :: s in ss ==> s.reg in rs
    ensures forall x :: x in rs ==> exists s :: s in ss && s.reg == x
  {
    set s | s in ss :: s.reg
  }

  lemma RegsAppend(a: seq<Student>, b: seq<Student>)
    ensures Regs(a + b) == Regs(a) + Regs(b)
  {
    assert forall s :: s in a + b <==> s in a || s in b;
  }

  // ---------------------------------------------------------------- register keys

  /** `re.sub(r"\D", "", reg)`: the digits of s, in order. */
  function Digits(s: string): (d: string)
    ensures RegisterRanges.AllDigits(d) && |d| <= |s|
  {
    if s == [] then []
    else (if RegisterRanges.IsDigit(s[0]) then [s[0]] else []) + Digits(s[1..])
  }

  /** `_reg_sort_key`: (0, the number its digits spell) for a register
      number holding a digit, (1, the register number) otherwise. */
  function RegSortKey(s: Student): (k: Key)
    ensures |k| == 2
    ensures k[0] == Num(0) <==> exists i :: 0 <= i < |s.reg| && RegisterRanges.IsDigit(s.reg[i])
  {
    DigitsEmpty(s.reg);
    var d := Digits(s.reg);
    if d != [] then [Num(0), Num(RegisterRanges.DigitValue(d))] else [Num(1), Text(s.reg)]
  }

  /** `_reg_sort_key2`: the course code first, then as `_reg_sort_key`. */
  function RegSortKey2(s: Student): (k: Key)
    ensures k == [Text(s.course)] + RegSortKey(s)
  {
    var d := Digits(s.reg);
    if d != [] then [Text(s.course), Num(0), Num(RegisterRanges.DigitValue(d))]
    else [Text(s.course), Num(1), Text(s.reg)]
  }

  /** A register number has no digits to extract exactly when none of its
      characters is a digit. */
  lemma {:induction false} DigitsEmpty(s: string)
    ensures Digits(s) == [] <==> forall i :: 0 <= i < |s| ==> !RegisterRanges.IsDigit(s[i])
  {
    if s != [] {
      DigitsEmpty(s[1..]);
      assert forall i :: 1 <= i < |s| ==> s[i] == s[1..][i - 1];
    }
  }

  /** How two students compare under `_reg_sort_key`: digit-bearing register
      numbers come first, among themselves by the number their digits spell,
      and digit-free ones after them, among themselves as strings. */
  lemma RegSortKeyOrder(a: Student, b: Student)
    ensures Digits(a.reg) != [] && Digits(b.reg) == [] ==> KeyLt(RegSortKey(a), RegSortKey(b))
    ensures Digits(a.reg) != [] && Digits(b.reg) != [] ==>
              (KeyLe(RegSortKey(a), RegSortKey(b)) <==>
               RegisterRanges.DigitValue(Digits(a.reg)) <= RegisterRanges.DigitValue(Digits(b.reg)))
    ensures Digits(a.reg) == [] && Digits(b.reg) == [] ==>
              (KeyLe(RegSortKey(a), RegSortKey(b)) <==> a.reg == b.reg || StrLt(a.reg, b.reg))
  {
    var ka, kb := RegSortKey(a), RegSortKey(b);
    if Digits(a.reg) == [] && Digits(b.reg) == [] {
      assert ka[1..] == [Text(a.reg)] && kb[1..] == [Text(b.reg)];
      assert ka == kb <==> a.reg == b.reg;
      assert KeyLt(ka, kb) == KeyLt([Text(a.reg)], [Text(b.reg)]);
      KeyAtom(Text(a.reg), Text(b.reg));
    } else if Digits(a.reg) != [] && Digits(b.reg) != [] {
      var va, vb := RegisterRanges.DigitValue(Digits(a.reg)), RegisterRanges.DigitValue(Digits(b.reg));
      assert ka[1..] == [Num(va)] && kb[1..] == [Num(vb)];
      assert ka == kb <==> va == vb;
      assert KeyLt(ka, kb) == KeyLt([Num(va)], [Num(vb)]);
      KeyAtom(Num(va), Num(vb));
    }
  }

  /** How two students compare under `_reg_sort_key2`: by course code first;
      within one course as under `_reg_sort_key`. */
  lemma RegSortKey2Order(a: Student, b: Student)
    ensures a.course != b.course ==> (KeyLt(RegSortKey2(a), RegSortKey2(b)) <==> StrLt(a.course, b.course))
    ensures a.course == b.course ==> (KeyLe(RegSortKey2(a), RegSortKey2(b)) <==> KeyLe(RegSortKey(a), RegSortKey(b)))
  {
    var ka, kb := RegSortKey2(a), RegSortKey2(b);
    if a.course == b.course {
      assert ka[1..] == RegSortKey(a) && kb[1..] == RegSortKey(b);
      assert ka == kb <==> ka[1..] == kb[1..];
    }
  }

  /** A hall's list after `hall_students.sort(key=_reg_sort_key)`: students
      with a digit in their register number first, in increasing numeric
      value, then the others in string order. */
  lemma HallListOrdered(xs: seq<Student>)
    ensures var r := SortBy(xs, RegSortKey);
            forall i, j :: 0 <= i < j < |r| ==>
              (Digits(r[j].reg) != [] ==>
                 (Digits(r[i].reg) != [] &&
                  RegisterRanges.DigitValue(Digits(r[i].reg)) <= RegisterRanges.DigitValue(Digits(r[j].reg))))
              && (Digits(r[i].reg) == [] ==> Digits(r[j].reg) == [] && (r[i].reg == r[j].reg || StrLt(r[i].reg, r[j].reg)))
  {
    var r := SortBy(xs, RegSortKey);
    SortSorted(xs, RegSortKey);
    forall i, j | 0 <= i < j < |r|
      ensures Digits(r[j].reg) != [] ==>
                (Digits(r[i].reg) != [] &&
                 RegisterRanges.DigitValue(Digits(r[i].reg)) <= RegisterRanges.DigitValue(Digits(r[j].reg)))
      ensures Digits(r[i].reg) == [] ==> Digits(r[j].reg) == [] && (r[i].reg == r[j].reg || StrLt(r[i].reg, r[j].reg))
    {
      RegSortKeyOrder(r[i], r[j]);
      RegSortKeyOrder(r[j], r[i]);
      KeyLtIrreflexive(RegSortKey(r[i]));
      KeyLtTrichotomy(RegSortKey(r[i]), RegSortKey(r[j]));
    }
  }

  /** The leftovers after `unallocated_students.sort(key=_reg_sort_key2)`:
      grouped by course in increasing course code, and within a course in
      the order of `_reg_sort_key`. */
  lemma LeftoversOrdered(xs: seq<Student>)
    ensures var r := SortBy(xs, RegSortKey2);
            forall i, j :: 0 <= i < j < |r| ==>
              (r[i].course == r[j].course || StrLt(r[i].course, r[j].course))
              && (r[i].course == r[j].course ==> KeyLe(RegSortKey(r[i]), RegSortKey(r[j])))
  {
    var r := SortBy(xs, RegSortKey2);
    SortSorted(xs, RegSortKey2);
    forall i, j | 0 <= i < j < |r|
      ensures r[i].course == r[j].course || StrLt(r[i].course, r[j].course)
      ensures r[i].course == r[j].course ==> KeyLe(RegSortKey(r[i]), RegSortKey(r[j]))
    {
      RegSortKey2Order(r[i], r[j]);
      RegSortKey2Order(r[j], r[i]);
      KeyLtTrichotomy(RegSortKey2(r[i]), RegSortKey2(r[j]));
      StrLtTrichotomy(r[i].course, r[j].course);
    }
  }

  // ---------------------------------------------------------------- grouping and ranking

  /** `sorted(self.students, key=(course_code, reg_no))`. */
  function CourseRegKey(s: Student): Key
  {
    [Text(s.course), Text(s.reg)]
  }

  /** Course codes compared alone, as the insertion order of the groups. */
  function CourseKey(c: string): Key
  {
    [Text(c)]
  }

  /** `students_by_course`: the course codes in the order they were first
      met, and the students of each course in input order. */
  datatype Groups = Groups(order: seq<string>, members: map<string, seq<Student>>)

  /** The grouping loop over ss: each student is appended to its course's
      list, a course met for the first time being added at the end. */
  function GroupBy(ss: seq<Student>): Groups
  {
    if ss == [] then Groups([], map[])
    else
      var g := GroupBy(ss[..|ss| - 1]);
      var s := ss[|ss| - 1];
      if s.course in g.members then Groups(g.order, g.members[s.course := g.members[s.course] + [s]])
      else Groups(g.order + [s.course], g.members[s.course := [s]])
  }

  /** The students of course c, in their order in ss. */
  function OfCourse(ss: seq<Student>, c: string): seq<Student>
  {
    if ss == [] then []
    else OfCourse(ss[..|ss| - 1], c) + (if ss[|ss| - 1].course == c then [ss[|ss| - 1]] else [])
  }

  /** `len(students_by_course[c])`, negated for `reverse=True`; reading a
      course the defaultdict lacks would give an empty list. */
  function SizeKey(members: map<string, seq<Student>>): string -> Key
  {
    c => [Num(-(if c in members then |members[c]| else 0))]
  }

  /** `courses_by_size` and `remaining_courses`: the course codes ranked,
      and the queue of students of each, aligned with the ranking. */
  datatype Ranking = Ranking(courses: seq<string>, queues: seq<seq<Student>>)

  function Rank(students: seq<Student>): (r: Ranking)
    ensures |r.queues| == |r.courses|
  {
    var g := GroupBy(SortBy(students, CourseRegKey));
    var ranked := SortBy(g.order, SizeKey(g.members));
    Ranking(ranked, seq(|ranked|, i requires 0 <= i < |ranked| =>
                          if ranked[i] in g.members then g.members[ranked[i]] else []))
  }

  lemma {:induction false} OfCourseMembers(ss: seq<Student>, c: string)
    ensures forall s :: s in OfCourse(ss, c) <==> s in ss && s.course == c
    ensures forall s :: multiset(OfCourse(ss, c))[s] == if s.course == c then multiset(ss)[s] else 0
  {
    if ss != [] {
      var m := |ss| - 1;
      OfCourseMembers(ss[..m], c);
      assert ss == ss[..m] + [ss[m]];
    }
  }

  /** Grouping lists every course present exactly once, in the order of
      the groups' keys. */
  lemma {:induction false} GroupByKeys(ss: seq<Student>)
    ensures var g := GroupBy(ss);
            g.members.Keys == CoursesIn(ss) && Distinct(g.order)
            && forall c :: c in g.order <==> c in g.members
  {
    if ss != [] {
      var m := |ss| - 1;
      var pre, s := ss[..m], ss[m];
      GroupByKeys(pre);
      assert ss == pre + [s];
      assert CoursesIn(ss) == CoursesIn(pre) + {s.course};
    }
  }

  /** Grouping files every student under its course: each group holds that
      course's students in input order, and none is empty. */
  lemma {:induction false} GroupByMembers(ss: seq<Student>)
    ensures var g := GroupBy(ss);
            forall c :: c in g.members ==> g.members[c] == OfCourse(ss, c) && g.members[c] != []
  {
    if ss != [] {
      var m := |ss| - 1;
      var pre, s := ss[..m], ss[m];
      GroupByMembers(pre);
      GroupByKeys(pre);
      OfCourseMembers(pre, s.course);
      var g := GroupBy(pre);
      forall c | c in GroupBy(ss).members ensures GroupBy(ss).members[c] == OfCourse(ss, c) {
        if c != s.course {
          assert c in g.members;
        } else if c !in g.members {
          assert c !in CoursesIn(pre);
          assert OfCourse(pre, c) == [];
        }
      }
    }
  }

  /** One-atom keys compare as their atoms. */
  lemma KeyAtom(x: Atom, y: Atom)
    ensures KeyLt([x], [y]) <==> x != y && AtomLt(x, y)
  {
    assert [x][1..] == [] && [y][1..] == [];
  }

  lemma CourseKeyLe(a: Student, b: Student)
    requires KeyLe(CourseRegKey(a), CourseRegKey(b))
    ensures KeyLe(CourseKey(a.course), CourseKey(b.course))
    ensures a.course == b.course ==> a.reg == b.reg || StrLt(a.reg, b.reg)
  {
    var ka, kb := CourseRegKey(a), CourseRegKey(b);
    KeyAtom(Text(a.course), Text(b.course));
    if a.course == b.course {
      assert ka[1..] == [Text(a.reg)] && kb[1..] == [Text(b.reg)];
      assert KeyLt(ka, kb) == KeyLt([Text(a.reg)], [Text(b.reg)]);
      KeyAtom(Text(a.reg), Text(b.reg));
    }
  }

  /** When the students are ordered by course, the groups are met in
      increasing course order. */
  lemma {:induction false} GroupOrderAscending(ss: seq<Student>)
    requires SortedBy(ss, CourseRegKey)
    ensures SortedBy(GroupBy(ss).order, CourseKey)
  {
    if ss != [] {
      var m := |ss| - 1;
      var pre, s := ss[..m], ss[m];
      SortedPrefix(ss, CourseRegKey, m);
      GroupOrderAscending(pre);
      GroupByKeys(pre);
      var g := GroupBy(pre);
      if s.course !in g.members {
        forall i | 0 <= i < |g.order| ensures KeyLe(CourseKey(g.order[i]), CourseKey(s.course)) {
          var c := g.order[i];
          assert c in CoursesIn(pre);
          var t :| t in pre && t.course == c;
          var p :| 0 <= p < |pre| && pre[p] == t;
          assert ss[p] == t;
          CourseKeyLe(t, s);
        }
        SortedSnoc(g.order, s.course, CourseKey);
      }
    }
  }

  /** Students of one course keep the order of an ordered input. */
  lemma {:induction false} OfCourseSorted(ss: seq<Student>, c: string)
    requires SortedBy(ss, CourseRegKey)
    ensures SortedBy(OfCourse(ss, c), CourseRegKey)
  {
    if ss != [] {
      var m := |ss| - 1;
      var pre := ss[..m];
      SortedPrefix(ss, CourseRegKey, m);
      OfCourseSorted(pre, c);
      OfCourseMembers(pre, c);
      var o := OfCourse(pre, c);
      if ss[m].course == c {
        forall i | 0 <= i < |o| ensures KeyLe(CourseRegKey(o[i]), CourseRegKey(ss[m])) {
          assert o[i] in pre;
          var p :| 0 <= p < |pre| && pre[p] == o[i];
          assert ss[p] == o[i];
        }
        SortedSnoc(o, ss[m], CourseRegKey);
      }
    }
  }

  /** Sorting by course and register number keeps the students. */
  lemma SortedStudents(students: seq<Student>)
    ensures var sorted := SortBy(students, CourseRegKey);
            SortedBy(sorted, CourseRegKey) && CoursesIn(sorted) == CoursesIn(students)
  {
    var sorted := SortBy(students, CourseRegKey);
    SortSorted(students, CourseRegKey);
    forall s | s in sorted ensures s in students {
      assert s in multiset(sorted);
    }
    forall s | s in students ensures s in sorted {
      assert s in multiset(students);
    }
  }

  /** ... and each course's students, up to order. */
  lemma SortedCourse(students: seq<Student>, c: string)
    ensures multiset(OfCourse(SortBy(students, CourseRegKey), c)) == multiset(OfCourse(students, c))
  {
    var sorted := SortBy(students, CourseRegKey);
    OfCourseMembers(sorted, c);
    OfCourseMembers(students, c);
    assert forall s :: multiset(OfCourse(sorted, c))[s] == multiset(OfCourse(students, c))[s];
  }

  /** Every course present is ranked exactly once. */
  lemma RankCourses(students: seq<Student>)
    ensures var r := Rank(students);
            Distinct(r.courses) && forall c :: c in r.courses <==> c in CoursesIn(students)
  {
    var sorted := SortBy(students, CourseRegKey);
    var g := GroupBy(sorted);
    var r := Rank(students);
    SortedStudents(students);
    GroupByKeys(sorted);
    SortDistinctElems(g.order, SizeKey(g.members));
    forall c ensures c in r.courses <==> c in g.order {
      assert c in r.courses <==> c in multiset(r.courses);
      assert c in g.order <==> c in multiset(g.order);
    }
  }

  /** The i-th queue of `remaining_courses` is the group of the i-th ranked
      course. */
  lemma RankGroup(students: seq<Student>, i: nat)
    requires i < |Rank(students).courses|
    ensures var g := GroupBy(SortBy(students, CourseRegKey));
            var r := Rank(students);
            r.courses[i] in g.members && r.queues[i] == g.members[r.courses[i]]
            && r.queues[i] == OfCourse(SortBy(students, CourseRegKey), r.courses[i])
  {
    var sorted := SortBy(students, CourseRegKey);
    var g := GroupBy(sorted);
    var r := Rank(students);
    GroupByKeys(sorted);
    GroupByMembers(sorted);
    assert r.courses[i] in multiset(r.courses);
    assert r.courses[i] in g.order;
  }

  /** One queue of `remaining_courses` holds all students of its course and
      no other, in increasing register-number string order, and is not
      empty. */
  lemma RankQueue(students: seq<Student>, i: nat)
    requires i < |Rank(students).courses|
    ensures var r := Rank(students);
            r.queues[i] != []
            && (forall s :: s in r.queues[i] ==> s.course == r.courses[i])
            && multiset(r.queues[i]) == multiset(OfCourse(students, r.courses[i]))
            && forall a, b :: 0 <= a < b < |r.queues[i]| ==>
                 r.queues[i][a].reg == r.queues[i][b].reg || StrLt(r.queues[i][a].reg, r.queues[i][b].reg)
  {
    var sorted := SortBy(students, CourseRegKey);
    var r := Rank(students);
    var c := r.courses[i];
    RankGroup(students, i);
    GroupByMembers(sorted);
    SortedStudents(students);
    SortedCourse(students, c);
    OfCourseMembers(sorted, c);
    OfCourseSorted(sorted, c);
    var q := r.queues[i];
    forall a, b | 0 <= a < b < |q| ensures q[a].reg == q[b].reg || StrLt(q[a].reg, q[b].reg) {
      assert q[a] in q && q[b] in q;
      CourseKeyLe(q[a], q[b]);
    }
  }

  /** `remaining_courses` as a whole: every course once, each queue exactly
      its course's students in register order. */
  lemma RankQueues(students: seq<Student>)
    ensures var r := Rank(students);
            Distinct(r.courses) && (forall c :: c in r.courses <==> c in CoursesIn(students))
            && forall i :: 0 <= i < |r.courses| ==>
                 r.queues[i] != []
                 && (forall s :: s in r.queues[i] ==> s.course == r.courses[i])
                 && multiset(r.queues[i]) == multiset(OfCourse(students, r.courses[i]))
                 && forall a, b :: 0 <= a < b < |r.queues[i]| ==>
                      r.queues[i][a].reg == r.queues[i][b].reg || StrLt(r.queues[i][a].reg, r.queues[i][b].reg)
  {
    RankCourses(students);
    forall i | 0 <= i < |Rank(students).courses|
      ensures var r := Rank(students);
              r.queues[i] != []
              && (forall s :: s in r.queues[i] ==> s.course == r.courses[i])
              && multiset(r.queues[i]) == multiset(OfCourse(students, r.courses[i]))
              && forall a, b :: 0 <= a < b < |r.queues[i]| ==>
                   r.queues[i][a].reg == r.queues[i][b].reg || StrLt(r.queues[i][a].reg, r.queues[i][b].reg)
    {
      RankQueue(students, i);
    }
  }

  /** `courses_by_size`: larger courses first; courses of equal size in
      increasing course code, since the sort is stable and the groups were
      met in course order. */
  lemma RankOrder(students: seq<Student>)
    ensures var r := Rank(students);
            forall i, j :: 0 <= i < j < |r.courses| ==>
              |r.queues[i]| > |r.queues[j]|
              || (|r.queues[i]| == |r.queues[j]| && StrLt(r.courses[i], r.courses[j]))
  {
    var sorted := SortBy(students, CourseRegKey);
    var g := GroupBy(sorted);
    var r := Rank(students);
    SortedStudents(students);
    GroupOrderAscending(sorted);
    SortTieBreak(g.order, SizeKey(g.members), CourseKey);
    RankCourses(students);
    forall i, j | 0 <= i < j < |r.courses|
      ensures |r.queues[i]| > |r.queues[j]| || (|r.queues[i]| == |r.queues[j]| && StrLt(r.courses[i], r.courses[j]))
    {
      RankPair(students, i, j);
    }
  }

  lemma RankPair(students: seq<Student>, i: nat, j: nat)
    requires i < j < |Rank(students).courses|
    requires var g := GroupBy(SortBy(students, CourseRegKey));
             var r := SortBy(g.order, SizeKey(g.members));
             KeyLt(SizeKey(g.members)(r[i]), SizeKey(g.members)(r[j]))
             || (SizeKey(g.members)(r[i]) == SizeKey(g.members)(r[j]) && KeyLe(CourseKey(r[i]), CourseKey(r[j])))
    requires Distinct(Rank(students).courses)
    ensures var r := Rank(students);
            |r.queues[i]| > |r.queues[j]| || (|r.queues[i]| == |r.queues[j]| && StrLt(r.courses[i], r.courses[j]))
  {
    var g := GroupBy(SortBy(students, CourseRegKey));
    var r := Rank(students);
    RankGroup(students, i);
    RankGroup(students, j);
    var a, b := r.courses[i], r.courses[j];
    KeyAtom(Num(-|r.queues[i]|), Num(-|r.queues[j]|));
    KeyAtom(Text(a), Text(b));
  }

  // ---------------------------------------------------------------- the window of courses

  /** Ranking positions below n whose queue still holds students, in order. */
  function Active(qs: seq<seq<Student>>, n: nat): (a: seq<nat>)
    requires n <= |qs|
    ensures forall k :: 0 <= k < |a| ==> a[k] < n && qs[a[k]] != []
  {
    if n == 0 then [] else Active(qs, n - 1) + (if qs[n - 1] != [] then [n - 1] else [])
  }

  /** `current_courses`, as ranking positions: the first four ranked courses
      that still have students, or all of them when fewer do. */
  function Window(qs: seq<seq<Student>>): (w: seq<nat>)
    ensures |w| <= 4 && forall k :: 0 <= k < |w| ==> w[k] < |qs| && qs[w[k]] != []
  {
    var a := Active(qs, |qs|);
    if |a| <= 4 then a else a[..4]
  }

  ghost predicate Increasing(w: seq<nat>, n: nat)
  {
    (forall k :: 0 <= k < |w| ==> w[k] < n) && forall k, l :: 0 <= k < l < |w| ==> w[k] < w[l]
  }

  lemma {:induction false} ActiveExact(qs: seq<seq<Student>>, n: nat)
    requires n <= |qs|
    ensures Increasing(Active(qs, n), n)
    ensures forall i :: 0 <= i < n ==> (qs[i] != [] <==> i in Active(qs, n))
  {
    if n > 0 {
      ActiveExact(qs, n - 1);
    }
  }

  lemma {:induction false} ActivePrefix(qs: seq<seq<Student>>, n: nat, m: nat)
    requires n <= m <= |qs|
    ensures Active(qs, n) <= Active(qs, m)
  {
    if n < m {
      ActivePrefix(qs, n, m - 1);
    }
  }

  /** Once four active courses are met, they are the window. */
  lemma WindowEarly(qs: seq<seq<Student>>, n: nat)
    requires n <= |qs| && |Active(qs, n)| == 4
    ensures Window(qs) == Active(qs, n)
  {
    ActivePrefix(qs, n, |qs|);
    var a := Active(qs, |qs|);
    assert a[..4] == Active(qs, n);
  }

  /** The window is the first at most four courses, in ranking order, that
      still have students: every course left out either has none left or
      comes after four that are in. */
  lemma WindowShape(qs: seq<seq<Student>>)
    ensures var w := Window(qs);
            |w| <= 4 && Increasing(w, |qs|)
            && (forall k :: 0 <= k < |w| ==> qs[w[k]] != [])
            && forall i :: 0 <= i < |qs| && qs[i] != [] && i !in w ==> |w| == 4 && w[3] < i
  {
    var a := Active(qs, |qs|);
    ActiveExact(qs, |qs|);
    var w := Window(qs);
    forall i | 0 <= i < |qs| && qs[i] != [] && i !in w ensures |w| == 4 && w[3] < i {
      var k :| 0 <= k < |a| && a[k] == i;
      assert k >= 4 && a[3] == w[3];
    }
  }

  /** `hall_courses[hall_code] = set(current_courses)`. */
  function WindowCourses(courses: seq<string>, w: seq<nat>): (cs: set<string>)
    requires forall k :: 0 <= k < |w| ==> w[k] < |courses|
    ensures forall k :: 0 <= k < |w| ==> courses[w[k]] in cs
    ensures forall c :: c in cs ==> exists k :: 0 <= k < |w| && courses[w[k]] == c
  {
    set k | 0 <= k < |w| :: courses[w[k]]
  }

  // ---------------------------------------------------------------- picks

  /** `allocation_order`: the window positions a hall's picks cycle through.
      With three courses A, B, C it is [0, 0, 1, 2], two of A for each of B
      and C; otherwise each window course once per round. */
  function Pattern(n: nat): (pat: seq<nat>)
    ensures n > 0 ==> Covers(pat, n)
  {
    if n == 3 then [0, 0, 1, 2]
    else
      var p := seq(n, i => i);
      assert forall j :: 0 <= j < n ==> j in p by {
        forall j | 0 <= j < n ensures j in p {
          assert p[j] == j;
        }
      }
      p
  }

  /** pat cycles through window positions only, and through all of them. */
  ghost predicate Covers(pat: seq<nat>, n: nat)
  {
    |pat| > 0 && (forall t :: 0 <= t < |pat| ==> pat[t] < n) && forall j :: 0 <= j < n ==> j in pat
  }

  /** In the round robin the k-th turn of a sweep falls on window position k. */
  lemma PatternTurn(w: seq<nat>, round: nat, idx: nat, k: nat)
    requires |w| != 3 && idx == round * |w| && k < |w|
    ensures Pattern(|w|)[(idx + k) % |Pattern(|w|)|] == k
  {
    DivModOf(round, k, |w|);
  }

  /** Students left in the window's queues. */
  function Left(qs: seq<seq<Student>>, w: seq<nat>): nat
    requires forall k :: 0 <= k < |w| ==> w[k] < |qs|
  {
    if w == [] then 0 else Left(qs, w[..|w| - 1]) + |qs[w[|w| - 1]]|
  }

  /** `any(remaining_courses[c] for c in current_courses)`. */
  predicate AnyLeft(qs: seq<seq<Student>>, w: seq<nat>)
    requires forall k :: 0 <= k < |w| ==> w[k] < |qs|
  {
    exists k :: 0 <= k < |w| && qs[w[k]] != []
  }

  /** Some window course from position k on still has students. */
  ghost predicate LeftFrom(qs: seq<seq<Student>>, w: seq<nat>, k: nat)
    requires forall j :: 0 <= j < |w| ==> w[j] < |qs|
  {
    exists j :: k <= j < |w| && qs[w[j]] != []
  }

  lemma LeftFromNext(qs: seq<seq<Student>>, w: seq<nat>, k: nat)
    requires forall j :: 0 <= j < |w| ==> w[j] < |qs|
    requires LeftFrom(qs, w, k) && k < |w| && qs[w[k]] == []
    ensures LeftFrom(qs, w, k + 1)
  {
    var j :| k <= j < |w| && qs[w[j]] != [];
    assert j != k;
  }

  /** The queue of the course the idx-th pick turns to is empty. */
  ghost predicate EmptyAt(qs: seq<seq<Student>>, w: seq<nat>, pat: seq<nat>, idx: nat)
    requires Increasing(w, |qs|) && Covers(pat, |w|)
  {
    qs[w[pat[idx % |pat|]]] == []
  }

  /** The last miss picks before idx all found an empty queue. */
  ghost predicate Missed(qs: seq<seq<Student>>, w: seq<nat>, pat: seq<nat>, idx: nat, miss: nat)
    requires Increasing(w, |qs|) && Covers(pat, |w|)
  {
    miss <= idx && forall j :: idx - miss <= j < idx ==> EmptyAt(qs, w, pat, j)
  }

  /** The picks of one hall, from pick idx on, with taken already in the
      hall: while the hall is below usable and some window course has
      students, the idx-th pick pops the front of the queue of window
      position pat[idx % |pat|] if that queue is not empty. Gives the queues
      afterwards and the hall's students. miss counts the picks since the
      last pop; it only bounds how long the picks can go without one. */
  function Picks(qs: seq<seq<Student>>, w: seq<nat>, pat: seq<nat>, usable: int, idx: nat, miss: nat,
                 taken: seq<Student>): (r: (seq<seq<Student>>, seq<Student>))
    requires Increasing(w, |qs|) && Covers(pat, |w|) && Missed(qs, w, pat, idx, miss)
    ensures |r.0| == |qs|
    decreases Left(qs, w), |pat| - miss
  {
    if |taken| >= usable || !AnyLeft(qs, w) then (qs, taken)
    else
      MissCover(qs, w, pat, idx, miss);
      var c := w[pat[idx % |pat|]];
      if qs[c] != [] then
        LeftPop(qs, w, c);
        Picks(qs[c := qs[c][1..]], w, pat, usable, idx + 1, 0, taken + [qs[c][0]])
      else
        Picks(qs, w, pat, usable, idx + 1, miss + 1, taken)
  }

  /** The picks from pick turn on, with taken in the hall and miss turns
      missed, end where goal says. */
  ghost predicate OnTrack(goal: (seq<seq<Student>>, seq<Student>), qs: seq<seq<Student>>, w: seq<nat>,
                          pat: seq<nat>, usable: int, turn: nat, miss: nat, taken: seq<Student>)
  {
    Increasing(w, |qs|) && Covers(pat, |w|) && Missed(qs, w, pat, turn, miss)
    && goal == Picks(qs, w, pat, usable, turn, miss, taken)
  }

  /** The picks of a hall whose window is w: `allocation_order` for three
      courses, round robin otherwise. */
  function HallPicks(qs: seq<seq<Student>>, w: seq<nat>, usable: int): (r: (seq<seq<Student>>, seq<Student>))
    requires Increasing(w, |qs|) && w != []
    ensures |r.0| == |qs|
  {
    Picks(qs, w, Pattern(|w|), usable, 0, 0, [])
  }

  /** A hall's picks start on track with nothing taken ... */
  lemma OnTrackStart(qs: seq<seq<Student>>, w: seq<nat>, usable: int)
    requires Increasing(w, |qs|) && w != []
    ensures OnTrack(HallPicks(qs, w, usable), qs, w, Pattern(|w|), usable, 0, 0, [])
  {
  }

  /** ... and end, once the hall is full or the window empty, with the
      queues and the hall's students they were tracking. */
  lemma OnTrackDone(goal: (seq<seq<Student>>, seq<Student>), qs: seq<seq<Student>>, w: seq<nat>,
                    pat: seq<nat>, usable: int, turn: nat, miss: nat, taken: seq<Student>)
    requires OnTrack(goal, qs, w, pat, usable, turn, miss, taken)
    requires |taken| >= usable || !AnyLeft(qs, w)
    ensures goal == (qs, taken)
  {
  }

  /** Once as many consecutive picks as the pattern is long have missed,
      every pattern position and so every window course has been seen empty. */
  lemma MissCover(qs: seq<seq<Student>>, w: seq<nat>, pat: seq<nat>, idx: nat, miss: nat)
    requires Increasing(w, |qs|) && Covers(pat, |w|) && Missed(qs, w, pat, idx, miss)
    ensures miss >= |pat| ==> !AnyLeft(qs, w)
  {
    var n := |pat|;
    if miss >= n {
      forall rho | 0 <= rho < n ensures qs[w[pat[rho]]] == [] {
        var j := RoundPosition(idx - n, rho, n);
        assert EmptyAt(qs, w, pat, j);
      }
      forall k | 0 <= k < |w| ensures qs[w[k]] == [] {
        assert k in pat;
        var t :| 0 <= t < n && pat[t] == k;
      }
    }
  }

  /** Any n consecutive picks from b on include one at each pattern position. */
  lemma RoundPosition(b: nat, rho: nat, n: nat) returns (j: nat)
    requires rho < n
    ensures b <= j < b + n && j % n == rho
  {
    var q := b / n;
    assert b == q * n + b % n;
    if q * n + rho >= b {
      j := q * n + rho;
      DivModOf(q, rho, n);
    } else {
      NextRow(q, n);
      j := (q + 1) * n + rho;
      DivModOf(q + 1, rho, n);
    }
  }

  /** Popping a window queue leaves one student fewer in the window. */
  lemma {:induction false} LeftPop(qs: seq<seq<Student>>, w: seq<nat>, c: nat)
    requires Increasing(w, |qs|) && c < |qs| && qs[c] != []
    ensures Left(qs[c := qs[c][1..]], w) == if c in w then Left(qs, w) - 1 else Left(qs, w)
  {
    if w != [] {
      var m := |w| - 1;
      assert Increasing(w[..m], |qs|);
      LeftPop(qs, w[..m], c);
    }
  }

  function Min(a: int, b: int): int
  {
    if a <= b then a else b
  }

  function Concat(qs: seq<seq<Student>>): seq<Student>
  {
    if qs == [] then [] else qs[0] + Concat(qs[1..])
  }

  lemma {:induction false} ConcatPop(qs: seq<seq<Student>>, c: nat)
    requires c < |qs| && qs[c] != []
    ensures multiset(Concat(qs)) == multiset(Concat(qs[c := qs[c][1..]])) + multiset{qs[c][0]}
  {
    var qs' := qs[c := qs[c][1..]];
    if c == 0 {
      assert qs'[1..] == qs[1..];
      assert qs[0] == [qs[0][0]] + qs[0][1..];
    } else {
      assert qs'[1..] == qs[1..][c - 1 := qs[1..][c - 1][1..]];
      ConcatPop(qs[1..], c - 1);
    }
  }

  lemma {:induction false} LeftZero(qs: seq<seq<Student>>, w: seq<nat>)
    requires Increasing(w, |qs|)
    ensures Left(qs, w) == 0 <==> !AnyLeft(qs, w)
  {
    if w != [] {
      var m := |w| - 1;
      assert Increasing(w[..m], |qs|);
      LeftZero(qs, w[..m]);
      if AnyLeft(qs, w[..m]) {
        var k :| 0 <= k < m && qs[w[..m][k]] != [];
        assert qs[w[k]] != [];
      }
    }
  }

  /** One turn of the pick loop at window position c = w[pat[idx mod |pat|]]
      when the hall has room and c's queue has a student: c gives up its
      first student. */
  lemma PicksTake(qs: seq<seq<Student>>, w: seq<nat>, pat: seq<nat>, usable: int, idx: nat, miss: nat,
                  taken: seq<Student>, c: nat)
    requires Increasing(w, |qs|) && Covers(pat, |w|) && Missed(qs, w, pat, idx, miss)
    requires c == w[pat[idx % |pat|]] && qs[c] != [] && |taken| < usable
    ensures c in w && Missed(qs[c := qs[c][1..]], w, pat, idx + 1, 0)
    ensures Left(qs[c := qs[c][1..]], w) == Left(qs, w) - 1
    ensures Picks(qs, w, pat, usable, idx, miss, taken)
            == Picks(qs[c := qs[c][1..]], w, pat, usable, idx + 1, 0, taken + [qs[c][0]])
  {
    assert pat[idx % |pat|] < |w|;
    assert c in w;
    LeftPop(qs, w, c);
  }

  /** ... once the hall is full or the window empty, a turn changes nothing. */
  lemma PicksStop(qs: seq<seq<Student>>, w: seq<nat>, pat: seq<nat>, usable: int, idx: nat, miss: nat,
                  taken: seq<Student>)
    requires Increasing(w, |qs|) && Covers(pat, |w|) && Missed(qs, w, pat, idx, miss)
    requires |taken| >= usable || !AnyLeft(qs, w)
    ensures Missed(qs, w, pat, idx + 1, 0)
    ensures Picks(qs, w, pat, usable, idx, miss, taken) == Picks(qs, w, pat, usable, idx + 1, 0, taken)
  {
  }

  /** ... and otherwise an empty queue is a miss. */
  lemma PicksMiss(qs: seq<seq<Student>>, w: seq<nat>, pat: seq<nat>, usable: int, idx: nat, miss: nat,
                  taken: seq<Student>, c: nat)
    requires Increasing(w, |qs|) && Covers(pat, |w|) && Missed(qs, w, pat, idx, miss)
    requires c == w[pat[idx % |pat|]] && qs[c] == [] && |taken| < usable && AnyLeft(qs, w)
    ensures Missed(qs, w, pat, idx + 1, miss + 1)
    ensures Picks(qs, w, pat, usable, idx, miss, taken) == Picks(qs, w, pat, usable, idx + 1, miss + 1, taken)
  {
    assert pat[idx % |pat|] < |w|;
  }

  /** The picks of one hall extend the list the hall already held, and
      stop at usable or when the window is exhausted, whichever comes
      first. */
  lemma {:induction false} PicksCount(qs: seq<seq<Student>>, w: seq<nat>, pat: seq<nat>, usable: int, idx: nat,
                                      miss: nat, taken: seq<Student>)
    requires Increasing(w, |qs|) && Covers(pat, |w|) && Missed(qs, w, pat, idx, miss)
    ensures var hall := Picks(qs, w, pat, usable, idx, miss, taken).1;
            taken <= hall
            && (|taken| >= usable ==> hall == taken)
            && (|taken| < usable ==> |hall| == Min(usable, |taken| + Left(qs, w)))
    decreases Left(qs, w), |pat| - miss
  {
    LeftZero(qs, w);
    if |taken| < usable && AnyLeft(qs, w) {
      MissCover(qs, w, pat, idx, miss);
      var c := w[pat[idx % |pat|]];
      if qs[c] != [] {
        LeftPop(qs, w, c);
        PicksCount(qs[c := qs[c][1..]], w, pat, usable, idx + 1, 0, taken + [qs[c][0]]);
      } else {
        PicksCount(qs, w, pat, usable, idx + 1, miss + 1, taken);
      }
    }
  }

  /** Every pick moves a student from a queue into the hall: none is gained
      or lost. */
  lemma {:induction false} PicksConserve(qs: seq<seq<Student>>, w: seq<nat>, pat: seq<nat>, usable: int, idx: nat,
                                         miss: nat, taken: seq<Student>)
    requires Increasing(w, |qs|) && Covers(pat, |w|) && Missed(qs, w, pat, idx, miss)
    ensures var (rest, hall) := Picks(qs, w, pat, usable, idx, miss, taken);
            multiset(hall) + multiset(Concat(rest)) == multiset(taken) + multiset(Concat(qs))
    decreases Left(qs, w), |pat| - miss
  {
    if |taken| < usable && AnyLeft(qs, w) {
      MissCover(qs, w, pat, idx, miss);
      var c := w[pat[idx % |pat|]];
      if qs[c] != [] {
        LeftPop(qs, w, c);
        ConcatPop(qs, c);
        PicksConserve(qs[c := qs[c][1..]], w, pat, usable, idx + 1, 0, taken + [qs[c][0]]);
      } else {
        PicksConserve(qs, w, pat, usable, idx + 1, miss + 1, taken);
      }
    }
  }

  /** Each queue of rest is what is left of the same queue of qs once some
      students are taken from its front, and queues outside w are untouched. */
  ghost predicate Trimmed(qs: seq<seq<Student>>, rest: seq<seq<Student>>, w: seq<nat>)
  {
    |rest| == |qs|
    && (forall i :: 0 <= i < |qs| ==> |rest[i]| <= |qs[i]| && rest[i] == qs[i][|qs[i]| - |rest[i]|..])
    && (forall i :: 0 <= i < |qs| && i !in w ==> rest[i] == qs[i])
  }

  lemma TrimmedTrans(a: seq<seq<Student>>, b: seq<seq<Student>>, c: seq<seq<Student>>, w: seq<nat>)
    requires Trimmed(a, b, w) && Trimmed(b, c, w)
    ensures Trimmed(a, c, w)
  {
    forall i | 0 <= i < |a| ensures |c[i]| <= |a[i]| && c[i] == a[i][|a[i]| - |c[i]|..] {
      assert b[i][|b[i]| - |c[i]|..] == a[i][|a[i]| - |c[i]|..];
    }
  }

  lemma TrimmedRefl(qs: seq<seq<Student>>, w: seq<nat>)
    ensures Trimmed(qs, qs, w)
  {
    forall i | 0 <= i < |qs| ensures qs[i] == qs[i][0..] {
    }
  }

  lemma TrimmedPop(qs: seq<seq<Student>>, w: seq<nat>, c: nat)
    requires c < |qs| && qs[c] != [] && c in w
    ensures Trimmed(qs, qs[c := qs[c][1..]], w)
  {
  }

  /** Picks pop queue fronts only, and only in the window: each queue loses
      a prefix, and queues outside the window are untouched. */
  lemma {:induction false} PicksQueues(qs: seq<seq<Student>>, w: seq<nat>, pat: seq<nat>, usable: int, idx: nat,
                                       miss: nat, taken: seq<Student>)
    requires Increasing(w, |qs|) && Covers(pat, |w|) && Missed(qs, w, pat, idx, miss)
    ensures Trimmed(qs, Picks(qs, w, pat, usable, idx, miss, taken).0, w)
    decreases Left(qs, w), |pat| - miss
  {
    if |taken| < usable && AnyLeft(qs, w) {
      MissCover(qs, w, pat, idx, miss);
      var c := w[pat[idx % |pat|]];
      if qs[c] != [] {
        var qs' := qs[c := qs[c][1..]];
        PicksTake(qs, w, pat, usable, idx, miss, taken, c);
        PicksQueues(qs', w, pat, usable, idx + 1, 0, taken + [qs[c][0]]);
        TrimmedPop(qs, w, c);
        TrimmedTrans(qs, qs', Picks(qs', w, pat, usable, idx + 1, 0, taken + [qs[c][0]]).0, w);
      } else {
        PicksMiss(qs, w, pat, usable, idx, miss, taken, c);
        PicksQueues(qs, w, pat, usable, idx + 1, miss + 1, taken);
      }
    } else {
      assert Picks(qs, w, pat, usable, idx, miss, taken).0 == qs;
      TrimmedRefl(qs, w);
    }
  }

  /** A hall never receives more than usable students. */
  lemma HallPicksBound(qs: seq<seq<Student>>, w: seq<nat>, usable: int)
    requires Increasing(w, |qs|) && w != []
    ensures |HallPicks(qs, w, usable).1| <= if usable < 0 then 0 else usable
  {
    PicksCount(qs, w, Pattern(|w|), usable, 0, 0, []);
  }

  // ---------------------------------------------------------------- row-major placement

  /** `min(hall_capacity, grid_capacity)`. */
  function Usable(h: Hall): int
  {
    Min(h.capacity, Grid(h))
  }

  /** Hall h's grid g once the first idx students of ss sit row by row. */
  function RowPlaceUpTo(g: SeatGrid, h: Hall, ss: seq<Student>, idx: nat): (p: SeatGrid)
    requires Shaped(g, h) && idx <= |ss|
    ensures Shaped(p, h) && SameShape(p, g)
  {
    seq(h.rows, r requires 0 <= r < h.rows =>
      seq(h.cols, c requires 0 <= c < h.cols =>
        if RowMajor(r, c, h.cols) < idx then Some(ss[RowMajor(r, c, h.cols)].reg) else g[r][c]))
  }

  function RowPlacement(g: SeatGrid, h: Hall, ss: seq<Student>): SeatGrid
    requires Shaped(g, h)
  {
    RowPlaceUpTo(g, h, ss, |ss|)
  }

  /** The ledger entry of the k-th student of hall h: cell k of the
      row-major walk, 1-based. */
  function RowSeat(h: Hall, k: nat, s: Student): Seat
    requires h.cols > 0
  {
    Seat(h.code, h.name, h.block, RowOf(k, h.cols) + 1, ColOf(k, h.cols) + 1, s.course, s.title, s.department, s.date)
  }

  /** The entries the first pass adds to `allocations` for hall h. */
  function RowLedger(h: Hall, ss: seq<Student>): map<string, Seat>
    requires |ss| <= Grid(h)
  {
    if ss == [] then map[]
    else
      GridSides(h);
      RowLedger(h, ss[..|ss| - 1])[ss[|ss| - 1].reg := RowSeat(h, |ss| - 1, ss[|ss| - 1])]
  }

  lemma GridSides(h: Hall)
    requires Grid(h) > 0
    ensures h.rows > 0 && h.cols > 0
  {
  }

  lemma RowPlaceUpToNone(g: SeatGrid, h: Hall, ss: seq<Student>)
    requires Shaped(g, h)
    ensures RowPlaceUpTo(g, h, ss, 0) == g
  {
    var p := RowPlaceUpTo(g, h, ss, 0);
    forall r | 0 <= r < h.rows ensures p[r] == g[r] {
    }
  }

  /** Writing the idx-th student into row r, column c, where idx is that
      cell's row-major position, seats one more student. */
  lemma RowPlaceUpToStep(g: SeatGrid, h: Hall, ss: seq<Student>, idx: nat, r: nat, c: nat)
    requires Shaped(g, h) && idx < |ss| && r < h.rows && c < h.cols && idx == r * h.cols + c
    ensures var p := RowPlaceUpTo(g, h, ss, idx);
            p[r := p[r][c := Some(ss[idx].reg)]] == RowPlaceUpTo(g, h, ss, idx + 1)
  {
    var p := RowPlaceUpTo(g, h, ss, idx);
    var q := RowPlaceUpTo(g, h, ss, idx + 1);
    var u := p[r := p[r][c := Some(ss[idx].reg)]];
    forall r' | 0 <= r' < h.rows ensures u[r'] == q[r'] {
      forall c' | 0 <= c' < h.cols ensures u[r'][c'] == q[r'][c'] {
        RowMajorBijective(r', c', r, c, h.rows, h.cols);
      }
    }
  }

  /** Writing the next student's seat extends the hall's ledger by one. */
  lemma RowLedgerStep(h: Hall, ss: seq<Student>, idx: nat, r: nat, c: nat, before: map<string, Seat>)
    requires idx < |ss| <= Grid(h) && h.cols > 0 && idx == r * h.cols + c && c < h.cols
    ensures (before + RowLedger(h, ss[..idx]))[ss[idx].reg := Seat(h.code, h.name, h.block, r + 1, c + 1,
               ss[idx].course, ss[idx].title, ss[idx].department, ss[idx].date)]
            == before + RowLedger(h, ss[..idx + 1])
  {
    assert ss[..idx + 1][..idx] == ss[..idx];
    DivModOf(r, c, h.cols);
  }

  /** The first pass's ledger entries for a hall are keyed by its students'
      register numbers. */
  lemma {:induction false} RowLedgerKeys(h: Hall, ss: seq<Student>)
    requires |ss| <= Grid(h)
    ensures RowLedger(h, ss).Keys == Regs(ss)
  {
    if ss != [] {
      var m := |ss| - 1;
      RowLedgerKeys(h, ss[..m]);
      assert ss == ss[..m] + [ss[m]];
    }
  }

  lemma {:induction false} RowLedgerAt(h: Hall, ss: seq<Student>, k: nat)
    requires |ss| <= Grid(h) && DistinctRegs(ss) && k < |ss|
    ensures h.cols > 0 && ss[k].reg in RowLedger(h, ss) && RowLedger(h, ss)[ss[k].reg] == RowSeat(h, k, ss[k])
  {
    var m := |ss| - 1;
    RowLedgerKeys(h, ss);
    if k < m {
      assert DistinctRegs(ss[..m]) && ss[..m][k] == ss[k];
      RowLedgerAt(h, ss[..m], k);
      assert ss[k].reg != ss[m].reg;
    }
  }

  /** Row-major placement: the k-th student of the hall sits in row
      k div cols, column k mod cols of the grid, and with distinct register
      numbers its ledger entry records that cell 1-based, so the grid and
      the ledger agree; the ledger holds exactly the hall's students. */
  lemma RowPlacementAgrees(g: SeatGrid, h: Hall, ss: seq<Student>)
    requires Shaped(g, h) && |ss| <= Grid(h) && DistinctRegs(ss)
    ensures RowLedger(h, ss).Keys == Regs(ss)
    ensures forall k :: 0 <= k < |ss| ==>
              h.cols > 0 && RowOf(k, h.cols) < h.rows && ColOf(k, h.cols) < h.cols
              && RowPlacement(g, h, ss)[RowOf(k, h.cols)][ColOf(k, h.cols)] == Some(ss[k].reg)
              && RowLedger(h, ss)[ss[k].reg] == RowSeat(h, k, ss[k])
  {
    RowLedgerKeys(h, ss);
    forall k | 0 <= k < |ss|
      ensures h.cols > 0 && RowOf(k, h.cols) < h.rows && ColOf(k, h.cols) < h.cols
      ensures RowPlacement(g, h, ss)[RowOf(k, h.cols)][ColOf(k, h.cols)] == Some(ss[k].reg)
      ensures RowLedger(h, ss)[ss[k].reg] == RowSeat(h, k, ss[k])
    {
      RowMajorOnto(k, h.rows, h.cols);
      RowLedgerAt(h, ss, k);
    }
  }

  // ---------------------------------------------------------------- first pass

  /** The state the first pass works on: `remaining_courses` (aligned with
      the ranking), `hall_seats`, `allocations` and `hall_courses`. */
  datatype Pass = Pass(queues: seq<seq<Student>>, seats: map<string, SeatGrid>, ledger: map<string, Seat>,
                       courses: map<string, set<string>>)

  /** The students hall h takes in the first pass, sorted by `_reg_sort_key`. */
  function HallList(h: Hall, qs: seq<seq<Student>>): (list: seq<Student>)
    ensures |list| <= Grid(h)
  {
    var w := Window(qs);
    if w == [] then []
    else
      WindowShape(qs);
      HallPicksBound(qs, w, Usable(h));
      SortBy(HallPicks(qs, w, Usable(h)).1, RegSortKey)
  }

  /** One hall of the first pass: its window is recorded in `hall_courses`;
      when the window is not empty the hall takes its picks, sorts them and
      seats them row by row. */
  function HallStep(h: Hall, ranked: seq<string>, p: Pass): (q: Pass)
    requires |p.queues| == |ranked| && h.code in p.seats && Shaped(p.seats[h.code], h)
    ensures |q.queues| == |ranked| && q.seats.Keys == p.seats.Keys
    ensures forall code :: code in p.seats ==> SameShape(q.seats[code], p.seats[code])
  {
    var w := Window(p.queues);
    WindowShape(p.queues);
    var courses := p.courses[h.code := WindowCourses(ranked, w)];
    if w == [] then p.(courses := courses)
    else
      var list := HallList(h, p.queues);
      Pass(HallPicks(p.queues, w, Usable(h)).0, p.seats[h.code := RowPlacement(p.seats[h.code], h, list)],
           p.ledger + RowLedger(h, list), courses)
  }

  /** The first pass: the halls in declared order. */
  function FirstPass(halls: seq<Hall>, ranked: seq<string>, p: Pass): (q: Pass)
    requires |p.queues| == |ranked| && GridsFor(p.seats, halls)
    ensures |q.queues| == |ranked| && q.seats.Keys == p.seats.Keys
    ensures forall code :: code in p.seats ==> SameShape(q.seats[code], p.seats[code])
  {
    if halls == [] then p
    else
      var m := |halls| - 1;
      assert GridsFor(p.seats, halls[..m]);
      var before := FirstPass(halls[..m], ranked, p);
      ShapeKept(before.seats[halls[m].code], p.seats[halls[m].code], halls[m]);
      HallStep(halls[m], ranked, before)
  }

  // ---------------------------------------------------------------- second pass

  /** Cells of a row holding a register number. */
  function RowCount(row: seq<Option<string>>): (n: nat)
    ensures n <= |row|
  {
    if row == [] then 0 else RowCount(row[..|row| - 1]) + (if row[|row| - 1].Some? then 1 else 0)
  }

  /** `sum(1 for row in grid for seat in row if seat is not None)`. */
  function Occupied(g: SeatGrid): nat
  {
    if g == [] then 0 else Occupied(g[..|g| - 1]) + RowCount(g[|g| - 1])
  }

  /** The cell at row-major position k. */
  function CellAt(g: SeatGrid, h: Hall, k: nat): Option<string>
    requires Shaped(g, h) && k < Grid(h)
  {
    RowMajorOnto(k, h.rows, h.cols);
    g[RowOf(k, h.cols)][ColOf(k, h.cols)]
  }

  /** The row-major position of the first empty cell at or after k. */
  function FirstEmptyFrom(g: SeatGrid, h: Hall, k: nat): (e: Option<nat>)
    requires Shaped(g, h)
    ensures e.Some? ==> k <= e.value < Grid(h)
    decreases Grid(h) - k
  {
    if k >= Grid(h) then None
    else if CellAt(g, h, k) == None then Some(k)
    else FirstEmptyFrom(g, h, k + 1)
  }

  /** g with the cell at row-major position k holding x. */
  function Fill(g: SeatGrid, h: Hall, k: nat, x: string): (p: SeatGrid)
    requires Shaped(g, h) && k < Grid(h)
    ensures Shaped(p, h)
  {
    RowMajorOnto(k, h.rows, h.cols);
    var r, c := RowOf(k, h.cols), ColOf(k, h.cols);
    g[r := g[r][c := Some(x)]]
  }

  /** The second pass inside one hall: each student of ss in turn takes the
      first empty cell, row by row, and its ledger entry records that cell;
      a student finding no empty cell would be dropped (FillEmptySeatsAll
      shows this cannot happen). */
  function FillEmpty(g: SeatGrid, h: Hall, ss: seq<Student>, ledger: map<string, Seat>): (r: (SeatGrid, map<string, Seat>))
    requires Shaped(g, h)
    ensures Shaped(r.0, h)
  {
    if ss == [] then (g, ledger)
    else
      var before := FillEmpty(g, h, ss[..|ss| - 1], ledger);
      var s := ss[|ss| - 1];
      match FirstEmptyFrom(before.0, h, 0)
      case None => before
      case Some(k) =>
        GridSides(h);
        (Fill(before.0, h, k, s.reg), before.1[s.reg := RowSeat(h, k, s)])
  }

  /** The second pass's state: `hall_seats`, `allocations` and
      `unallocated_students`. */
  datatype Sweep = Sweep(seats: map<string, SeatGrid>, ledger: map<string, Seat>, left: seq<Student>)

  /** One hall of the second pass: with usable - occupied seats available
      and students left, the next min(available, left) students are seated
      in the hall's first empty cells. */
  function HallSweep(h: Hall, sw: Sweep): (r: Sweep)
    requires h.code in sw.seats && Shaped(sw.seats[h.code], h)
    ensures r.seats.Keys == sw.seats.Keys && Shaped(r.seats[h.code], h)
    ensures forall code :: code in sw.seats && code != h.code ==> r.seats[code] == sw.seats[code]
  {
    var g := sw.seats[h.code];
    var available := Usable(h) - Occupied(g);
    if available > 0 && sw.left != [] then
      var n := Min(available, |sw.left|);
      var (g2, ledger2) := FillEmpty(g, h, sw.left[..n], sw.ledger);
      Sweep(sw.seats[h.code := g2], ledger2, sw.left[n..])
    else sw
  }

  /** The second pass: the halls in declared order. */
  function SecondPass(halls: seq<Hall>, sw: Sweep): (r: Sweep)
    requires GridsFor(sw.seats, halls)
    ensures r.seats.Keys == sw.seats.Keys
    ensures forall code :: code in sw.seats ==> SameShape(r.seats[code], sw.seats[code])
  {
    if halls == [] then sw
    else
      var m := |halls| - 1;
      assert GridsFor(sw.seats, halls[..m]);
      var before := SecondPass(halls[..m], sw);
      ShapeKept(before.seats[halls[m].code], sw.seats[halls[m].code], halls[m]);
      HallSweep(halls[m], before)
  }

  /** The second pass over the first i + 1 halls is the second pass over
      the first i followed by hall i, whose grid still has its shape. */
  lemma SecondPassStep(halls: seq<Hall>, i: nat, sw: Sweep)
    requires GridsFor(sw.seats, halls) && i < |halls|
    ensures GridsFor(sw.seats, halls[..i]) && GridsFor(sw.seats, halls[..i + 1])
    ensures var before := SecondPass(halls[..i], sw);
            halls[i].code in before.seats && Shaped(before.seats[halls[i].code], halls[i])
            && SecondPass(halls[..i + 1], sw) == HallSweep(halls[i], before)
  {
    assert halls[..i + 1][..i] == halls[..i];
    var before := SecondPass(halls[..i], sw);
    ShapeKept(before.seats[halls[i].code], sw.seats[halls[i].code], halls[i]);
  }

  lemma SecondPassGrids(halls: seq<Hall>, sw: Sweep)
    requires GridsFor(sw.seats, halls)
    ensures GridsFor(SecondPass(halls, sw).seats, halls)
  {
    var r := SecondPass(halls, sw);
    forall k | 0 <= k < |halls| ensures halls[k].code in r.seats && Shaped(r.seats[halls[k].code], halls[k]) {
      ShapeKept(r.seats[halls[k].code], sw.seats[halls[k].code], halls[k]);
    }
  }

  // ---------------------------------------------------------------- second pass lemmas

  lemma {:induction false} RowCountFill(row: seq<Option<string>>, c: nat, x: string)
    requires c < |row|
    ensures RowCount(row[c := Some(x)]) == RowCount(row) + (if row[c] == None then 1 else 0)
  {
    var m := |row| - 1;
    var row' := row[c := Some(x)];
    assert row'[..m] == if c < m then row[..m][c := Some(x)] else row[..m];
    if c < m {
      RowCountFill(row[..m], c, x);
    }
  }

  lemma {:induction false} OccupiedFill(g: SeatGrid, r: nat, c: nat, x: string)
    requires r < |g| && c < |g[r]|
    ensures Occupied(g[r := g[r][c := Some(x)]]) == Occupied(g) + (if g[r][c] == None then 1 else 0)
  {
    var m := |g| - 1;
    var g' := g[r := g[r][c := Some(x)]];
    assert g'[..m] == if r < m then g[..m][r := g[r][c := Some(x)]] else g[..m];
    if r < m {
      OccupiedFill(g[..m], r, c, x);
    } else {
      RowCountFill(g[r], c, x);
    }
  }

  /** At most every cell is occupied, and every cell is exactly when none
      is empty. */
  lemma {:induction false} OccupiedAtMost(g: SeatGrid, cols: nat)
    requires forall r :: 0 <= r < |g| ==> |g[r]| == cols
    ensures Occupied(g) <= |g| * cols
    ensures (forall r, c :: 0 <= r < |g| && 0 <= c < cols ==> g[r][c].Some?) ==> Occupied(g) == |g| * cols
  {
    if g != [] {
      var m := |g| - 1;
      OccupiedAtMost(g[..m], cols);
      NextRow(m, cols);
      if forall r, c :: 0 <= r < |g| && 0 <= c < cols ==> g[r][c].Some? {
        RowFull(g[m]);
      }
    }
  }

  lemma {:induction false} RowFull(row: seq<Option<string>>)
    requires forall c :: 0 <= c < |row| ==> row[c].Some?
    ensures RowCount(row) == |row|
  {
    if row != [] {
      RowFull(row[..|row| - 1]);
    }
  }

  /** The scan finds the first empty cell in row-major order: every cell
      before it is occupied; when it finds none, every cell from k on is. */
  lemma {:induction false} FirstEmptyIsFirst(g: SeatGrid, h: Hall, k: nat)
    requires Shaped(g, h)
    ensures var e := FirstEmptyFrom(g, h, k);
            e.Some? ==> CellAt(g, h, e.value) == None
    ensures var e := FirstEmptyFrom(g, h, k);
            forall j :: k <= j < (if e.Some? then e.value else Grid(h)) ==> CellAt(g, h, j).Some?
    decreases Grid(h) - k
  {
    if k < Grid(h) {
      FirstEmptyIsFirst(g, h, k + 1);
    }
  }

  /** Cell (r, c) sits at row-major position r * cols + c. */
  lemma CellAtRowMajor(g: SeatGrid, h: Hall, r: nat, c: nat)
    requires Shaped(g, h) && r < h.rows && c < h.cols
    ensures RowMajor(r, c, h.cols) < Grid(h) && CellAt(g, h, RowMajor(r, c, h.cols)) == g[r][c]
  {
    RowBound(r, c, h.rows, h.cols);
    DivModOf(r, c, h.cols);
  }

  /** A grid with an unoccupied cell has an empty cell for the scan to find. */
  lemma FirstEmptyExists(g: SeatGrid, h: Hall)
    requires Shaped(g, h) && Occupied(g) < Grid(h)
    ensures FirstEmptyFrom(g, h, 0).Some?
  {
    FirstEmptyIsFirst(g, h, 0);
    OccupiedAtMost(g, h.cols);
    forall r, c | 0 <= r < h.rows && 0 <= c < h.cols
      ensures FirstEmptyFrom(g, h, 0).None? ==> g[r][c].Some?
    {
      CellAtRowMajor(g, h, r, c);
    }
  }

  /** Filling an empty cell occupies one more seat, puts x at position k and
      leaves every other position as it was. */
  lemma FillAt(g: SeatGrid, h: Hall, k: nat, x: string)
    requires Shaped(g, h) && k < Grid(h) && CellAt(g, h, k) == None
    ensures Occupied(Fill(g, h, k, x)) == Occupied(g) + 1
    ensures CellAt(Fill(g, h, k, x), h, k) == Some(x)
    ensures forall j :: 0 <= j < Grid(h) && j != k ==> CellAt(Fill(g, h, k, x), h, j) == CellAt(g, h, j)
  {
    RowMajorOnto(k, h.rows, h.cols);
    OccupiedFill(g, RowOf(k, h.cols), ColOf(k, h.cols), x);
    forall j | 0 <= j < Grid(h) && j != k
      ensures CellAt(Fill(g, h, k, x), h, j) == CellAt(g, h, j)
    {
      RowMajorOnto(j, h.rows, h.cols);
    }
  }

  /** With at least |ss| cells free, no student of ss is dropped: each takes
      a previously empty cell. */
  lemma {:induction false} FillEmptySeatsAll(g: SeatGrid, h: Hall, ss: seq<Student>, ledger: map<string, Seat>)
    requires Shaped(g, h) && Occupied(g) + |ss| <= Grid(h)
    ensures Occupied(FillEmpty(g, h, ss, ledger).0) == Occupied(g) + |ss|
    ensures forall i :: 0 <= i < |ss| ==> FirstEmptyFrom(FillEmpty(g, h, ss[..i], ledger).0, h, 0).Some?
  {
    if ss != [] {
      var m := |ss| - 1;
      var pre := ss[..m];
      FillEmptySeatsAll(g, h, pre, ledger);
      var before := FillEmpty(g, h, pre, ledger);
      FirstEmptyExists(before.0, h);
      FirstEmptyIsFirst(before.0, h, 0);
      FillAt(before.0, h, FirstEmptyFrom(before.0, h, 0).value, ss[m].reg);
      forall i | 0 <= i < |ss| ensures FirstEmptyFrom(FillEmpty(g, h, ss[..i], ledger).0, h, 0).Some? {
        if i < m {
          assert ss[..i] == pre[..i];
        } else {
          assert ss[..i] == pre;
        }
      }
    }
  }

  /** ... and each gets its ledger entry. */
  lemma {:induction false} FillEmptyLedger(g: SeatGrid, h: Hall, ss: seq<Student>, ledger: map<string, Seat>)
    requires Shaped(g, h) && Occupied(g) + |ss| <= Grid(h)
    ensures FillEmpty(g, h, ss, ledger).1.Keys == ledger.Keys + Regs(ss)
  {
    if ss != [] {
      var m := |ss| - 1;
      var pre := ss[..m];
      var before := FillEmpty(g, h, pre, ledger);
      FillEmptySeatsAll(g, h, pre, ledger);
      FirstEmptyExists(before.0, h);
      FillEmptyLedger(g, h, pre, ledger);
      FillEmptyLastKey(g, h, ss, ledger);
      assert ss == pre + [ss[m]];
      RegsAppend(pre, [ss[m]]);
      RegsOne(ss[m]);
    }
  }

  lemma FillEmptyLastKey(g: SeatGrid, h: Hall, ss: seq<Student>, ledger: map<string, Seat>)
    requires Shaped(g, h) && ss != []
    requires FirstEmptyFrom(FillEmpty(g, h, ss[..|ss| - 1], ledger).0, h, 0).Some?
    ensures FillEmpty(g, h, ss, ledger).1.Keys == FillEmpty(g, h, ss[..|ss| - 1], ledger).1.Keys + {ss[|ss| - 1].reg}
  {
  }

  lemma RegsOne(s: Student)
    ensures Regs([s]) == {s.reg}
  {
    assert s in [s];
  }

  /** The second pass never overwrites an occupied cell. */
  lemma {:induction false} FillEmptyKeeps(g: SeatGrid, h: Hall, ss: seq<Student>, ledger: map<string, Seat>, j: nat)
    requires Shaped(g, h) && j < Grid(h) && CellAt(g, h, j).Some?
    ensures CellAt(FillEmpty(g, h, ss, ledger).0, h, j) == CellAt(g, h, j)
  {
    if ss != [] {
      var m := |ss| - 1;
      FillEmptyKeeps(g, h, ss[..m], ledger, j);
      var before := FillEmpty(g, h, ss[..m], ledger);
      var e := FirstEmptyFrom(before.0, h, 0);
      if e.Some? {
        FirstEmptyIsFirst(before.0, h, 0);
        FillAt(before.0, h, e.value, ss[m].reg);
      }
    }
  }

  // ---------------------------------------------------------------- second pass lemmas, per hall and overall

  function Max(a: int, b: int): int
  {
    if a >= b then a else b
  }

  /** b is a later state of the second pass than a: the students b leaves
      are the tail of those a left, and the ones in between got ledger
      entries. */
  ghost predicate SeatedPrefix(a: Sweep, b: Sweep)
  {
    var n := |a.left| - |b.left|;
    0 <= n && b.left == a.left[n..] && b.ledger.Keys == a.ledger.Keys + Regs(a.left[..n])
  }

  lemma SeatedPrefixTrans(a: Sweep, b: Sweep, c: Sweep)
    requires SeatedPrefix(a, b) && SeatedPrefix(b, c)
    ensures SeatedPrefix(a, c)
  {
    var nb, n2 := |a.left| - |b.left|, |b.left| - |c.left|;
    var x, y := a.left[..nb], b.left[..n2];
    assert y == a.left[nb..nb + n2];
    assert a.left[..nb + n2] == x + y;
    RegsAppend(x, y);
    assert c.left == a.left[nb + n2..];
    assert c.ledger.Keys == a.ledger.Keys + Regs(x) + Regs(y);
  }

  /** One hall of the second pass seats a prefix of the leftovers, every one
      of them in a cell of its own, and the occupancy it starts within
      stays within max(usable, 0). */
  lemma HallSweepSeats(h: Hall, sw: Sweep)
    requires h.code in sw.seats && Shaped(sw.seats[h.code], h)
    ensures SeatedPrefix(sw, HallSweep(h, sw))
    ensures Occupied(HallSweep(h, sw).seats[h.code]) == Occupied(sw.seats[h.code]) + |sw.left| - |HallSweep(h, sw).left|
    ensures Occupied(sw.seats[h.code]) <= Max(Usable(h), 0) ==>
              Occupied(HallSweep(h, sw).seats[h.code]) <= Max(Usable(h), 0)
  {
    var g := sw.seats[h.code];
    var available := Usable(h) - Occupied(g);
    if available > 0 && sw.left != [] {
      var n := Min(available, |sw.left|);
      var f := FillEmpty(g, h, sw.left[..n], sw.ledger);
      assert HallSweep(h, sw) == Sweep(sw.seats[h.code := f.0], f.1, sw.left[n..]);
      FillEmptySeatsAll(g, h, sw.left[..n], sw.ledger);
      FillEmptyLedger(g, h, sw.left[..n], sw.ledger);
    } else {
      assert sw.left[0..] == sw.left;
    }
  }

  /** The second pass seats a prefix of the leftovers, each with a ledger
      entry; the students it leaves are the rest, in order. */
  lemma {:induction false} SecondPassSeats(halls: seq<Hall>, sw: Sweep)
    requires GridsFor(sw.seats, halls)
    ensures SeatedPrefix(sw, SecondPass(halls, sw))
  {
    if halls == [] {
      assert sw.left[0..] == sw.left;
    } else {
      var m := |halls| - 1;
      assert GridsFor(sw.seats, halls[..m]);
      SecondPassSeats(halls[..m], sw);
      var before := SecondPass(halls[..m], sw);
      ShapeKept(before.seats[halls[m].code], sw.seats[halls[m].code], halls[m]);
      HallSweepSeats(halls[m], before);
      SeatedPrefixTrans(sw, before, HallSweep(halls[m], before));
    }
  }

  /** No hall holds more than max(min(capacity, rows*cols), 0) students
      after the second pass, if none did before it. */
  lemma {:induction false} SecondPassWithinUsable(halls: seq<Hall>, sw: Sweep)
    requires GridsFor(sw.seats, halls) && DistinctCodes(halls)
    requires forall h :: h in halls ==> Occupied(sw.seats[h.code]) <= Max(Usable(h), 0)
    ensures forall h :: h in halls ==> Occupied(SecondPass(halls, sw).seats[h.code]) <= Max(Usable(h), 0)
  {
    if halls != [] {
      var m := |halls| - 1;
      assert GridsFor(sw.seats, halls[..m]);
      assert DistinctCodes(halls[..m]);
      SecondPassWithinUsable(halls[..m], sw);
      var before := SecondPass(halls[..m], sw);
      ShapeKept(before.seats[halls[m].code], sw.seats[halls[m].code], halls[m]);
      HallSweepSeats(halls[m], before);
      assert Occupied(before.seats[halls[m].code]) <= Max(Usable(halls[m]), 0) by {
        SecondPassOthers(halls[..m], sw, halls[m].code);
      }
      forall h | h in halls ensures Occupied(SecondPass(halls, sw).seats[h.code]) <= Max(Usable(h), 0) {
        if h != halls[m] {
          EarlierHall(halls, h);
        }
      }
    }
  }

  /** The second pass leaves alone the grid of a code none of its halls has. */
  lemma {:induction false} SecondPassOthers(halls: seq<Hall>, sw: Sweep, code: string)
    requires GridsFor(sw.seats, halls) && code in sw.seats && code !in Codes(halls)
    ensures SecondPass(halls, sw).seats[code] == sw.seats[code]
  {
    if halls != [] {
      var m := |halls| - 1;
      assert GridsFor(sw.seats, halls[..m]);
      assert halls[m] in halls;
      assert Codes(halls[..m]) <= Codes(halls);
      SecondPassOthers(halls[..m], sw, code);
    }
  }

  // ---------------------------------------------------------------- first pass lemmas

  lemma HallPicksConserve(qs: seq<seq<Student>>, w: seq<nat>, usable: int)
    requires Increasing(w, |qs|) && w != []
    ensures multiset(HallPicks(qs, w, usable).1) + multiset(Concat(HallPicks(qs, w, usable).0)) == multiset(Concat(qs))
  {
    PicksConserve(qs, w, Pattern(|w|), usable, 0, 0, []);
  }

  lemma RegsOfMultiset(a: seq<Student>, b: seq<Student>)
    requires multiset(a) == multiset(b)
    ensures Regs(a) == Regs(b)
  {
    forall s ensures s in a <==> s in b {
      assert s in a <==> s in multiset(a);
      assert s in b <==> s in multiset(b);
    }
  }

  /** q is a later state of the first pass than p: every student still
      queued in p is either queued in q or has a ledger entry there, queues
      only lose students, and no ledger entry is lost. */
  ghost predicate SeatedOrQueued(p: Pass, q: Pass)
  {
    Regs(Concat(p.queues)) <= q.ledger.Keys + Regs(Concat(q.queues))
    && multiset(Concat(q.queues)) <= multiset(Concat(p.queues))
    && p.ledger.Keys <= q.ledger.Keys
  }

  /** One hall of the first pass seats exactly the students it takes off
      the queues. */
  lemma HallStepSeats(h: Hall, ranked: seq<string>, p: Pass)
    requires |p.queues| == |ranked| && h.code in p.seats && Shaped(p.seats[h.code], h)
    ensures SeatedOrQueued(p, HallStep(h, ranked, p))
  {
    var w := Window(p.queues);
    WindowShape(p.queues);
    if w != [] {
      var list := HallList(h, p.queues);
      var (rest, hall) := HallPicks(p.queues, w, Usable(h));
      HallPicksConserve(p.queues, w, Usable(h));
      RegsOfMultiset(list, hall);
      RowLedgerKeys(h, list);
      assert multiset(hall + Concat(rest)) == multiset(Concat(p.queues));
      RegsOfMultiset(hall + Concat(rest), Concat(p.queues));
      RegsAppend(hall, Concat(rest));
    }
  }

  lemma SeatedOrQueuedTrans(a: Pass, b: Pass, c: Pass)
    requires SeatedOrQueued(a, b) && SeatedOrQueued(b, c)
    ensures SeatedOrQueued(a, c)
  {
    forall x | x in Regs(Concat(b.queues)) ensures x in c.ledger.Keys + Regs(Concat(c.queues)) {
    }
  }

  lemma {:induction false} FirstPassSeats(halls: seq<Hall>, ranked: seq<string>, p: Pass)
    requires |p.queues| == |ranked| && GridsFor(p.seats, halls)
    ensures SeatedOrQueued(p, FirstPass(halls, ranked, p))
  {
    if halls == [] {
      assert Regs(Concat(p.queues)) <= p.ledger.Keys + Regs(Concat(p.queues));
    } else {
      var m := |halls| - 1;
      assert GridsFor(p.seats, halls[..m]);
      FirstPassSeats(halls[..m], ranked, p);
      var before := FirstPass(halls[..m], ranked, p);
      ShapeKept(before.seats[halls[m].code], p.seats[halls[m].code], halls[m]);
      HallStepSeats(halls[m], ranked, before);
      SeatedOrQueuedTrans(p, before, HallStep(halls[m], ranked, before));
    }
  }

  lemma {:induction false} RowCountZero(row: seq<Option<string>>)
    requires RowCount(row) == 0
    ensures forall c :: 0 <= c < |row| ==> row[c] == None
  {
    if row != [] {
      RowCountZero(row[..|row| - 1]);
      assert forall c :: 0 <= c < |row| - 1 ==> row[..|row| - 1][c] == row[c];
    }
  }

  lemma {:induction false} OccupiedZero(g: SeatGrid)
    requires Occupied(g) == 0
    ensures forall r, c :: 0 <= r < |g| && 0 <= c < |g[r]| ==> g[r][c] == None
  {
    if g != [] {
      var m := |g| - 1;
      OccupiedZero(g[..m]);
      RowCountZero(g[m]);
      assert forall r :: 0 <= r < m ==> g[..m][r] == g[r];
    }
  }

  /** Row-major placement into an empty grid occupies one cell per student. */
  lemma {:induction false} RowPlaceCount(g: SeatGrid, h: Hall, ss: seq<Student>, idx: nat)
    requires Shaped(g, h) && idx <= |ss| <= Grid(h) && Occupied(g) == 0
    ensures Occupied(RowPlaceUpTo(g, h, ss, idx)) == idx
  {
    if idx == 0 {
      RowPlaceUpToNone(g, h, ss);
    } else {
      var k: nat := idx - 1;
      RowPlaceCount(g, h, ss, k);
      RowPlaceCountStep(g, h, ss, k);
    }
  }

  lemma RowPlaceCountStep(g: SeatGrid, h: Hall, ss: seq<Student>, k: nat)
    requires Shaped(g, h) && k < |ss| <= Grid(h) && Occupied(g) == 0
    ensures Occupied(RowPlaceUpTo(g, h, ss, k + 1)) == Occupied(RowPlaceUpTo(g, h, ss, k)) + 1
  {
    RowMajorOnto(k, h.rows, h.cols);
    var r, c := RowOf(k, h.cols), ColOf(k, h.cols);
    var p := RowPlaceUpTo(g, h, ss, k);
    OccupiedZero(g);
    assert p[r][c] == g[r][c];
    RowPlaceUpToStep(g, h, ss, k, r, c);
    OccupiedFill(p, r, c, ss[k].reg);
  }

  /** A hall whose grid is empty when its turn comes ends the first pass
      holding at most max(min(capacity, rows*cols), 0) students. */
  lemma HallStepWithinUsable(h: Hall, ranked: seq<string>, p: Pass)
    requires |p.queues| == |ranked| && h.code in p.seats && Shaped(p.seats[h.code], h)
    requires Occupied(p.seats[h.code]) == 0
    ensures Occupied(HallStep(h, ranked, p).seats[h.code]) <= Max(Usable(h), 0)
  {
    var w := Window(p.queues);
    WindowShape(p.queues);
    if w != [] {
      HallPicksBound(p.queues, w, Usable(h));
      RowPlaceCount(p.seats[h.code], h, HallList(h, p.queues), |HallList(h, p.queues)|);
    }
  }

  /** The first pass leaves alone the grid of a code none of its halls has. */
  lemma {:induction false} FirstPassOthers(halls: seq<Hall>, ranked: seq<string>, p: Pass, code: string)
    requires |p.queues| == |ranked| && GridsFor(p.seats, halls) && code in p.seats && code !in Codes(halls)
    ensures FirstPass(halls, ranked, p).seats[code] == p.seats[code]
  {
    if halls != [] {
      var m := |halls| - 1;
      assert GridsFor(p.seats, halls[..m]);
      assert halls[m] in halls;
      assert Codes(halls[..m]) <= Codes(halls);
      FirstPassOthers(halls[..m], ranked, p, code);
    }
  }

  /** Starting from empty grids, the first pass puts no more than
      max(min(capacity, rows*cols), 0) students in any hall. */
  lemma {:induction false} FirstPassWithinUsable(halls: seq<Hall>, ranked: seq<string>, p: Pass)
    requires |p.queues| == |ranked| && GridsFor(p.seats, halls) && DistinctCodes(halls)
    requires forall h :: h in halls ==> Occupied(p.seats[h.code]) == 0
    ensures forall h :: h in halls ==> Occupied(FirstPass(halls, ranked, p).seats[h.code]) <= Max(Usable(h), 0)
  {
    if halls != [] {
      var m := |halls| - 1;
      assert GridsFor(p.seats, halls[..m]);
      assert DistinctCodes(halls[..m]);
      FirstPassWithinUsable(halls[..m], ranked, p);
      var before := FirstPass(halls[..m], ranked, p);
      ShapeKept(before.seats[halls[m].code], p.seats[halls[m].code], halls[m]);
      FirstPassOthers(halls[..m], ranked, p, halls[m].code);
      HallStepWithinUsable(halls[m], ranked, before);
      forall h | h in halls ensures Occupied(FirstPass(halls, ranked, p).seats[h.code]) <= Max(Usable(h), 0) {
        if h != halls[m] {
          EarlierHall(halls, h);
        }
      }
    }
  }

  // ---------------------------------------------------------------- the ranked queues hold every student once

  lemma {:induction false} ConcatOfCourses(students: seq<Student>, cs: seq<string>, qs: seq<seq<Student>>)
    requires |qs| == |cs| && Distinct(cs)
    requires forall i :: 0 <= i < |cs| ==> multiset(qs[i]) == multiset(OfCourse(students, cs[i]))
    ensures forall s :: multiset(Concat(qs))[s] == if s.course in cs then multiset(students)[s] else 0
  {
    if cs != [] {
      assert Distinct(cs[1..]) by {
        forall i, j | 0 <= i < j < |cs[1..]| ensures cs[1..][i] != cs[1..][j] {
          assert cs[1..][i] == cs[i + 1] && cs[1..][j] == cs[j + 1];
        }
      }
      forall i | 0 <= i < |cs[1..]| ensures multiset(qs[1..][i]) == multiset(OfCourse(students, cs[1..][i])) {
        assert qs[1..][i] == qs[i + 1] && cs[1..][i] == cs[i + 1];
      }
      ConcatOfCourses(students, cs[1..], qs[1..]);
      OfCourseMembers(students, cs[0]);
      forall s ensures multiset(Concat(qs))[s] == if s.course in cs then multiset(students)[s] else 0 {
        assert s.course in cs <==> s.course == cs[0] || s.course in cs[1..];
        if s.course == cs[0] {
          forall j | 0 <= j < |cs[1..]| ensures cs[1..][j] != s.course {
            assert cs[1..][j] == cs[j + 1];
          }
        }
      }
    }
  }

  /** The ranked queues hold the students, each exactly as often as the
      input does: grouping and ranking lose and duplicate no one. */
  lemma RankKeepsStudents(students: seq<Student>)
    ensures multiset(Concat(Rank(students).queues)) == multiset(students)
  {
    var r := Rank(students);
    RankQueues(students);
    ConcatOfCourses(students, r.courses, r.queues);
    forall s ensures multiset(Concat(r.queues))[s] == multiset(students)[s] {
      if s in students {
        assert s.course in CoursesIn(students);
      }
    }
    assert multiset(Concat(r.queues)) == multiset(students);
  }

  // ---------------------------------------------------------------- the whole allocation

  datatype Outcome =
    | Allocated
    | Invalid(error: ValidationError)   // validate_inputs raised; nothing changed
    | Unallocated(count: nat)           // the final raise, with the number left over

  /** What allocate_seats leaves behind: its outcome, `hall_seats`,
      `allocations` and `hall_courses`, and the students it did not seat. */
  datatype Run = Run(outcome: Outcome, seats: map<string, SeatGrid>, ledger: map<string, Seat>,
                     courses: map<string, set<string>>, left: seq<Student>)

  lemma FirstPassGrids(halls: seq<Hall>, ranked: seq<string>, p: Pass)
    requires |p.queues| == |ranked| && GridsFor(p.seats, halls)
    ensures GridsFor(FirstPass(halls, ranked, p).seats, halls)
  {
    var q := FirstPass(halls, ranked, p);
    forall k | 0 <= k < |halls| ensures halls[k].code in q.seats && Shaped(q.seats[halls[k].code], halls[k]) {
      ShapeKept(q.seats[halls[k].code], p.seats[halls[k].code], halls[k]);
    }
  }

  /** Both passes after validation: the first pass over the ranked queues,
      then, when they still hold anyone, the second pass over them, sorted
      by `_reg_sort_key2`. */
  function Passes(students: seq<Student>, halls: seq<Hall>, seats: map<string, SeatGrid>, ledger: map<string, Seat>,
                  courses: map<string, set<string>>): (r: (Pass, Sweep))
    requires GridsFor(seats, halls)
    ensures r.1.seats.Keys == seats.Keys
  {
    var rk := Rank(students);
    var p := FirstPass(halls, rk.courses, Pass(rk.queues, seats, ledger, courses));
    FirstPassGrids(halls, rk.courses, Pass(rk.queues, seats, ledger, courses));
    var rest := Concat(p.queues);
    var sw := Sweep(p.seats, p.ledger, []);
    (p, if rest != [] then SecondPass(halls, sw.(left := SortBy(rest, RegSortKey2))) else sw)
  }

  /** The final check: raise when students are left over. */
  function FinalCheck(unallocated: nat): (o: Outcome)
    ensures o == Allocated <==> unallocated == 0
    ensures unallocated > 0 ==> o == Unallocated(unallocated)
  {
    if unallocated > 0 then Unallocated(unallocated) else Allocated
  }

  /** allocate_seats as written: the final check counts the queues the
      first pass left, whatever the second pass then seated. */
  function AllocateAsWritten(students: seq<Student>, halls: seq<Hall>, seats: map<string, SeatGrid>,
                             ledger: map<string, Seat>, courses: map<string, set<string>>): (run: Run)
    requires GridsFor(seats, halls)
    ensures var c := Allocate(students, halls, seats, ledger, courses);
            run.seats == c.seats && run.ledger == c.ledger && run.courses == c.courses && run.left == c.left
    ensures run.outcome == Allocated ==> Allocate(students, halls, seats, ledger, courses).outcome == Allocated
  {
    match ValidateInputs(halls, |students|)
    case Some(e) => Run(Invalid(e), seats, ledger, courses, students)
    case None =>
      var (p, sw) := Passes(students, halls, seats, ledger, courses);
      Run(FinalCheck(|Concat(p.queues)|), sw.seats, sw.ledger, p.courses, sw.left)
  }

  /** allocate_seats with the final check counting the students the second
      pass could not seat. */
  function Allocate(students: seq<Student>, halls: seq<Hall>, seats: map<string, SeatGrid>,
                    ledger: map<string, Seat>, courses: map<string, set<string>>): (run: Run)
    requires GridsFor(seats, halls)
    ensures run.seats.Keys == seats.Keys
    ensures run.outcome.Invalid? ==> run == Run(run.outcome, seats, ledger, courses, students)
    ensures run.outcome == Allocated <==> ValidateInputs(halls, |students|) == None && run.left == []
  {
    match ValidateInputs(halls, |students|)
    case Some(e) => Run(Invalid(e), seats, ledger, courses, students)
    case None =>
      var (p, sw) := Passes(students, halls, seats, ledger, courses);
      Run(FinalCheck(|sw.left|), sw.seats, sw.ledger, p.courses, sw.left)
  }

  /** Every student the second pass starts with ends with a ledger entry
      or among those it leaves, and those it leaves are among them. */
  lemma SecondPassAccounts(halls: seq<Hall>, sw: Sweep)
    requires GridsFor(sw.seats, halls)
    ensures var r := SecondPass(halls, sw);
            Regs(sw.left) <= r.ledger.Keys + Regs(r.left)
            && multiset(r.left) <= multiset(sw.left) && sw.ledger.Keys <= r.ledger.Keys
  {
    SecondPassSeats(halls, sw);
    var r := SecondPass(halls, sw);
    var n := |sw.left| - |r.left|;
    assert sw.left == sw.left[..n] + r.left;
    RegsAppend(sw.left[..n], r.left);
    assert multiset(sw.left) == multiset(sw.left[..n]) + multiset(r.left);
  }

  /** Every student ends with a ledger entry or among those left over, the
      students left over are students of the input, and no earlier ledger
      entry is lost. */
  lemma AllocateAccounts(students: seq<Student>, halls: seq<Hall>, seats: map<string, SeatGrid>,
                         ledger: map<string, Seat>, courses: map<string, set<string>>)
    requires GridsFor(seats, halls)
    ensures var run := Allocate(students, halls, seats, ledger, courses);
            Regs(students) <= run.ledger.Keys + Regs(run.left)
            && multiset(run.left) <= multiset(students) && ledger.Keys <= run.ledger.Keys
  {
    if ValidateInputs(halls, |students|) == None {
      var rk := Rank(students);
      var p0 := Pass(rk.queues, seats, ledger, courses);
      var p := FirstPass(halls, rk.courses, p0);
      RankKeepsStudents(students);
      RegsOfMultiset(Concat(rk.queues), students);
      FirstPassSeats(halls, rk.courses, p0);
      FirstPassGrids(halls, rk.courses, p0);
      var rest := Concat(p.queues);
      if rest != [] {
        var sw := Sweep(p.seats, p.ledger, SortBy(rest, RegSortKey2));
        SecondPassAccounts(halls, sw);
        RegsOfMultiset(sw.left, rest);
      }
    }
  }

  /** When allocate_seats reports success, every student has a seat in the
      ledger. */
  lemma AllocatedSeatsEveryone(students: seq<Student>, halls: seq<Hall>, seats: map<string, SeatGrid>,
                               ledger: map<string, Seat>, courses: map<string, set<string>>)
    requires GridsFor(seats, halls)
    requires Allocate(students, halls, seats, ledger, courses).outcome == Allocated
    ensures forall s :: s in students ==> s.reg in Allocate(students, halls, seats, ledger, courses).ledger
  {
    AllocateAccounts(students, halls, seats, ledger, courses);
  }

  /** Starting from empty grids, with distinct hall codes, no hall ends up
      holding more than max(min(capacity, rows*cols), 0) students. */
  lemma AllocateWithinUsable(students: seq<Student>, halls: seq<Hall>, seats: map<string, SeatGrid>,
                             ledger: map<string, Seat>, courses: map<string, set<string>>)
    requires GridsFor(seats, halls) && DistinctCodes(halls)
    requires forall h :: h in halls ==> Occupied(seats[h.code]) == 0
    ensures forall h :: h in halls ==>
              Occupied(Allocate(students, halls, seats, ledger, courses).seats[h.code]) <= Max(Usable(h), 0)
  {
    if ValidateInputs(halls, |students|) == None {
      var rk := Rank(students);
      var p0 := Pass(rk.queues, seats, ledger, courses);
      var p := FirstPass(halls, rk.courses, p0);
      FirstPassWithinUsable(halls, rk.courses, p0);
      FirstPassGrids(halls, rk.courses, p0);
      var rest := Concat(p.queues);
      if rest != [] {
        SecondPassWithinUsable(halls, Sweep(p.seats, p.ledger, SortBy(rest, RegSortKey2)));
      }
    }
  }

  // ---------------------------------------------------------------- the final check as written

  /** Every student sits a course nobody else sits. */
  ghost predicate OwnCourses(ss: seq<Student>)
  {
    forall i, j :: 0 <= i < j < |ss| ==> ss[i].course != ss[j].course
  }

  lemma {:induction false} OfCourseNone(ss: seq<Student>, c: string)
    requires forall k :: 0 <= k < |ss| ==> ss[k].course != c
    ensures OfCourse(ss, c) == []
  {
    if ss != [] {
      OfCourseNone(ss[..|ss| - 1], c);
    }
  }

  lemma {:induction false} OfCourseAtMostOne(ss: seq<Student>, c: string)
    requires OwnCourses(ss)
    ensures |OfCourse(ss, c)| <= 1
  {
    if ss != [] {
      var m := |ss| - 1;
      assert OwnCourses(ss[..m]);
      OfCourseAtMostOne(ss[..m], c);
      if ss[m].course == c {
        OfCourseNone(ss[..m], c);
      }
    }
  }

  lemma {:induction false} ConcatOnes(qs: seq<seq<Student>>)
    requires forall i :: 0 <= i < |qs| ==> |qs[i]| == 1
    ensures |Concat(qs)| == |qs|
  {
    if qs != [] {
      ConcatOnes(qs[1..]);
    }
  }

  /** With every student in a course of their own, each ranked queue holds
      one student and there are as many queues as students. */
  lemma OwnCourseQueues(students: seq<Student>)
    requires OwnCourses(students)
    ensures |Rank(students).queues| == |students|
    ensures forall i :: 0 <= i < |Rank(students).queues| ==> |Rank(students).queues[i]| == 1
  {
    var r := Rank(students);
    RankQueues(students);
    forall i | 0 <= i < |r.queues| ensures |r.queues[i]| == 1 {
      OfCourseAtMostOne(students, r.courses[i]);
      assert |multiset(r.queues[i])| == |multiset(OfCourse(students, r.courses[i]))|;
    }
    ConcatOnes(r.queues);
    RankKeepsStudents(students);
    assert |multiset(Concat(r.queues))| == |multiset(students)|;
  }

  lemma {:induction false} ActiveAll(qs: seq<seq<Student>>, n: nat)
    requires n <= |qs| && forall i :: 0 <= i < n ==> qs[i] != []
    ensures |Active(qs, n)| == n
  {
    if n > 0 {
      ActiveAll(qs, n - 1);
    }
  }

  lemma {:induction false} LeftOnes(qs: seq<seq<Student>>, w: seq<nat>)
    requires forall k :: 0 <= k < |w| ==> w[k] < |qs| && |qs[w[k]]| == 1
    ensures Left(qs, w) == |w|
  {
    if w != [] {
      LeftOnes(qs, w[..|w| - 1]);
    }
  }

  /** With at least five students, each in a course of their own, the
      first hall's window is four courses of one student each: it takes four
      students when it has room for them and leaves the rest queued. */
  lemma OwnCoursesPicks(students: seq<Student>, usable: int)
    requires OwnCourses(students) && 5 <= |students| <= usable
    ensures var qs := Rank(students).queues;
            var w := Window(qs);
            w != [] && Increasing(w, |qs|) && |HallPicks(qs, w, usable).1| == 4
            && |Concat(HallPicks(qs, w, usable).0)| == |students| - 4
  {
    var qs := Rank(students).queues;
    var w := Window(qs);
    OwnCoursesWindow(students);
    PicksCount(qs, w, Pattern(4), usable, 0, 0, []);
    var (rest, hall) := HallPicks(qs, w, usable);
    assert |hall| == 4;
    HallPicksConserve(qs, w, usable);
    RankKeepsStudents(students);
    SplitCount(hall, Concat(rest), students);
  }

  lemma SplitCount(a: seq<Student>, b: seq<Student>, c: seq<Student>)
    requires multiset(a) + multiset(b) == multiset(c)
    ensures |a| + |b| == |c|
  {
    assert |multiset(a)| + |multiset(b)| == |multiset(c)|;
  }

  lemma OwnCoursesWindow(students: seq<Student>)
    requires OwnCourses(students) && 5 <= |students|
    ensures var qs := Rank(students).queues;
            var w := Window(qs);
            |w| == 4 && Increasing(w, |qs|) && Left(qs, w) == 4
  {
    var qs := Rank(students).queues;
    OwnCourseQueues(students);
    ActiveAll(qs, |qs|);
    WindowShape(qs);
    LeftOnes(qs, Window(qs));
  }

  /** ... so the first pass over that one hall seats four students and
      leaves the rest queued. */
  lemma OwnCoursesFirstPass(students: seq<Student>, h: Hall, ledger: map<string, Seat>,
                            courses: map<string, set<string>>)
    requires OwnCourses(students) && 5 <= |students| <= Usable(h)
    ensures var rk := Rank(students);
            var p := FirstPass([h], rk.courses, Pass(rk.queues, map[h.code := EmptyGrid(h)], ledger, courses));
            |Concat(p.queues)| == |students| - 4 && Occupied(p.seats[h.code]) == 4
  {
    var rk := Rank(students);
    var p0 := Pass(rk.queues, map[h.code := EmptyGrid(h)], ledger, courses);
    OwnCoursesPicks(students, Usable(h));
    var w := Window(rk.queues);
    var list := HallList(h, rk.queues);
    assert |list| == 4;
    FirstPassOne(h, rk.courses, p0);
    var p := HallStep(h, rk.courses, p0);
    assert p.queues == HallPicks(rk.queues, w, Usable(h)).0;
    assert p.seats[h.code] == RowPlaceUpTo(EmptyGrid(h), h, list, 4);
    OccupiedNone(EmptyGrid(h));
    RowPlaceCount(EmptyGrid(h), h, list, 4);
  }

  lemma FirstPassOne(h: Hall, ranked: seq<string>, p: Pass)
    requires |p.queues| == |ranked| && h.code in p.seats && Shaped(p.seats[h.code], h)
    ensures FirstPass([h], ranked, p) == HallStep(h, ranked, p)
  {
    assert [h][..0] == [];
  }

  /** ... and the second pass then seats the rest in the same hall. */
  lemma OwnCoursesPasses(students: seq<Student>, h: Hall, ledger: map<string, Seat>,
                         courses: map<string, set<string>>)
    requires OwnCourses(students) && 5 <= |students| <= Usable(h)
    ensures var (p, sw) := Passes(students, [h], map[h.code := EmptyGrid(h)], ledger, courses);
            |Concat(p.queues)| == |students| - 4 && sw.left == []
  {
    var seats := map[h.code := EmptyGrid(h)];
    OneHallGrids(h);
    OwnCoursesFirstPass(students, h, ledger, courses);
    var rk := Rank(students);
    var p0 := Pass(rk.queues, seats, ledger, courses);
    var p := FirstPass([h], rk.courses, p0);
    FirstPassGrids([h], rk.courses, p0);
    assert [h][0] == h;
    var rest := Concat(p.queues);
    var sw := Sweep(p.seats, p.ledger, SortBy(rest, RegSortKey2));
    assert Passes(students, [h], seats, ledger, courses) == (p, SecondPass([h], sw));
    SecondPassOne(h, sw);
    HallSweepAll(h, sw);
  }

  lemma SecondPassOne(h: Hall, sw: Sweep)
    requires h.code in sw.seats && Shaped(sw.seats[h.code], h)
    ensures SecondPass([h], sw) == HallSweep(h, sw)
  {
    assert [h][..0] == [];
  }

  /** A hall with room for everyone left over seats them all. */
  lemma HallSweepAll(h: Hall, sw: Sweep)
    requires h.code in sw.seats && Shaped(sw.seats[h.code], h)
    requires Occupied(sw.seats[h.code]) + |sw.left| <= Usable(h)
    ensures HallSweep(h, sw).left == []
  {
  }

  lemma {:induction false} OccupiedNone(g: SeatGrid)
    requires forall r, c :: 0 <= r < |g| && 0 <= c < |g[r]| ==> g[r][c] == None
    ensures Occupied(g) == 0
  {
    if g != [] {
      var m := |g| - 1;
      assert forall r :: 0 <= r < m ==> g[..m][r] == g[r];
      OccupiedNone(g[..m]);
      RowEmpty(g[m]);
    }
  }

  lemma {:induction false} RowEmpty(row: seq<Option<string>>)
    requires forall c :: 0 <= c < |row| ==> row[c] == None
    ensures RowCount(row) == 0
  {
    if row != [] {
      RowEmpty(row[..|row| - 1]);
    }
  }

  /** The final check as written counts the students the first pass left
      in the queues, not those the second pass could not seat. With at
      least five students, each in a course of their own, and one empty
      hall with room for all of them, the second pass seats everyone, yet
      allocate_seats as written raises, reporting all but four students as
      unallocated; the corrected check reports success. */
  lemma AsWrittenMiscounts(students: seq<Student>, h: Hall, ledger: map<string, Seat>,
                           courses: map<string, set<string>>)
    requires OwnCourses(students) && 5 <= |students| <= h.capacity <= Grid(h)
    ensures AllocateAsWritten(students, [h], map[h.code := EmptyGrid(h)], ledger, courses).outcome
              == Unallocated(|students| - 4)
    ensures Allocate(students, [h], map[h.code := EmptyGrid(h)], ledger, courses).outcome == Allocated
  {
    var seats := map[h.code := EmptyGrid(h)];
    assert ValidateInputs([h], |students|) == None by {
      assert [h][1..] == [];
    }
    OneHallGrids(h);
    OwnCoursesPasses(students, h, ledger, courses);
    var (p, sw) := Passes(students, [h], seats, ledger, courses);
    assert AllocateAsWritten(students, [h], seats, ledger, courses).outcome == FinalCheck(|Concat(p.queues)|);
    assert Allocate(students, [h], seats, ledger, courses).outcome == FinalCheck(|sw.left|);
  }

  /** The smallest instance: five students in five courses, one 1 x 5 hall
      of capacity 5. */
  lemma FiveCoursesOneHall()
    ensures var h := Hall("H1", "Hall 1", "A", 1, 5, 5);
            var ss := [Student("1", "CSE", "C1", "T1", "D"), Student("2", "CSE", "C2", "T2", "D"),
                       Student("3", "CSE", "C3", "T3", "D"), Student("4", "CSE", "C4", "T4", "D"),
                       Student("5", "CSE", "C5", "T5", "D")];
            AllocateAsWritten(ss, [h], map[h.code := EmptyGrid(h)], map[], map[]).outcome == Unallocated(1)
            && Allocate(ss, [h], map[h.code := EmptyGrid(h)], map[], map[]).outcome == Allocated
  {
    var h := Hall("H1", "Hall 1", "A", 1, 5, 5);
    var ss := [Student("1", "CSE", "C1", "T1", "D"), Student("2", "CSE", "C2", "T2", "D"),
               Student("3", "CSE", "C3", "T3", "D"), Student("4", "CSE", "C4", "T4", "D"),
               Student("5", "CSE", "C5", "T5", "D")];
    AsWrittenMiscounts(ss, h, map[], map[]);
  }
}
