/** The register-number range compressor of the University hall summary
    (export_pdf_seating_plan): a course/branch group's sorted register numbers
    become "start-end" runs of consecutive numbers, a run of one staying bare. */
module RegisterRanges {
  import opened Optional

  predicate IsDigit(c: char)
  {
    '0' <= c <= '9'
  }

  predicate AllDigits(s: string)
  {
    forall i :: 0 <= i < |s| ==> IsDigit(s[i])
  }

  /** Decimal value of a string of ASCII digits. */
  function DigitValue(ds: string): nat
    requires AllDigits(ds)
  {
    if ds == [] then 0
    else 10 * DigitValue(ds[..|ds| - 1]) + (ds[|ds| - 1] as int - '0' as int)
  }

  /** `int(s)` restricted to ASCII digit strings; None is the ValueError. */
  function ParseInt(s: string): Option<nat>
  {
    if s != [] && AllDigits(s) then Some(DigitValue(s)) else None
  }

  /** The test `int(r) == int(prev) + 1`, false when either parse fails. */
  predicate Follows(prev: string, r: string)
  {
    ParseInt(prev).Some? && ParseInt(r).Some? && ParseInt(r).value == ParseInt(prev).value + 1
  }

  /** `f"{start}-{prev}" if start != prev else f"{start}"` */
  function Label(start: string, prev: string): string
  {
    if start != prev then start + "-" + prev else start
  }

  /** A run of register numbers: the indices of its first and last element. */
  datatype Run = Run(first: nat, last: nat)

  /** The runs of regs[..n] in order, the last one still open: each element
      either follows its predecessor and extends the open run, or opens a
      new one. */
  function RunsTo(regs: seq<string>, n: nat): (rs: seq<Run>)
    requires 1 <= n <= |regs|
    ensures 1 <= |rs| <= n
    ensures forall i :: 0 <= i < |rs| ==> rs[i].first <= rs[i].last < n
  {
    if n == 1 then [Run(0, 0)]
    else
      var rs := RunsTo(regs, n - 1);
      if Follows(regs[n - 2], regs[n - 1]) then rs[..|rs| - 1] + [Run(rs[|rs| - 1].first, n - 1)]
      else rs + [Run(n - 1, n - 1)]
  }

  /** The runs tile the indices 0 .. n-1 in order. */
  ghost predicate Tiles(n: nat, rs: seq<Run>)
  {
    && |rs| >= 1
    && rs[0].first == 0 && rs[|rs| - 1].last == n - 1
    && (forall i :: 0 <= i < |rs| ==> rs[i].first <= rs[i].last < n)
    && (forall i :: 0 <= i < |rs| - 1 ==> rs[i + 1].first == rs[i].last + 1)
  }

  /** Inside a run every element follows its predecessor. */
  ghost predicate RunsFollow(regs: seq<string>, rs: seq<Run>)
    requires forall i :: 0 <= i < |rs| ==> rs[i].last < |regs|
  {
    forall i :: 0 <= i < |rs| ==> FollowsWithin(regs, rs[i])
  }

  ghost predicate FollowsWithin(regs: seq<string>, a: Run)
    requires a.last < |regs|
  {
    forall k :: a.first < k <= a.last ==> Follows(regs[k - 1], regs[k])
  }

  /** Between two runs the first of the next does not follow the last of the previous. */
  ghost predicate RunsBreak(regs: seq<string>, rs: seq<Run>)
    requires Tiles(|regs|, rs)
  {
    forall i :: 0 <= i < |rs| - 1 ==> BreakAfter(regs, rs[i], rs[i + 1])
  }

  ghost predicate BreakAfter(regs: seq<string>, a: Run, b: Run)
    requires a.last < |regs| && b.first < |regs|
  {
    !Follows(regs[a.last], regs[b.first])
  }

  /** The independent description of the result: the runs tile 0..|regs|-1 in
      order, consecutive elements of a run follow one another, and no run could
      be extended into the next one. */
  ghost predicate MaximalRuns(regs: seq<string>, rs: seq<Run>)
  {
    Tiles(|regs|, rs) && RunsFollow(regs, rs) && RunsBreak(regs, rs)
  }

  lemma ExtendLastRun(regs: seq<string>, rs: seq<Run>)
    requires |regs| >= 2
    requires MaximalRuns(regs[..|regs| - 1], rs)
    requires Follows(regs[|regs| - 2], regs[|regs| - 1])
    ensures MaximalRuns(regs, rs[..|rs| - 1] + [Run(rs[|rs| - 1].first, |regs| - 1)])
  {
    var p, k, n := regs[..|regs| - 1], |regs| - 1, |rs|;
    var out := rs[..n - 1] + [Run(rs[n - 1].first, k)];
    assert forall i :: 0 <= i < n - 1 ==> out[i] == rs[i];
    assert out[n - 1] == Run(rs[n - 1].first, k);
    assert Tiles(|regs|, out);
    forall i | 0 <= i < |out| ensures FollowsWithin(regs, out[i]) {
      assert FollowsWithin(p, rs[i]);
      forall m | out[i].first < m <= out[i].last ensures Follows(regs[m - 1], regs[m]) {
        if m < k {
          assert Follows(p[m - 1], p[m]);
        }
      }
    }
    forall i | 0 <= i < |out| - 1 ensures BreakAfter(regs, out[i], out[i + 1]) {
      assert BreakAfter(p, rs[i], rs[i + 1]);
    }
  }

  lemma StartNewRun(regs: seq<string>, rs: seq<Run>)
    requires |regs| >= 2
    requires MaximalRuns(regs[..|regs| - 1], rs)
    requires !Follows(regs[|regs| - 2], regs[|regs| - 1])
    ensures MaximalRuns(regs, rs + [Run(|regs| - 1, |regs| - 1)])
  {
    var p, k, n := regs[..|regs| - 1], |regs| - 1, |rs|;
    var out := rs + [Run(k, k)];
    assert forall i :: 0 <= i < n ==> out[i] == rs[i];
    assert Tiles(|regs|, out);
    forall i | 0 <= i < |out| ensures FollowsWithin(regs, out[i]) {
      if i < n {
        assert FollowsWithin(p, rs[i]);
        forall m | out[i].first < m <= out[i].last ensures Follows(regs[m - 1], regs[m]) {
          assert Follows(p[m - 1], p[m]);
        }
      }
    }
    forall i | 0 <= i < |out| - 1 ensures BreakAfter(regs, out[i], out[i + 1]) {
      if i < n - 1 {
        assert BreakAfter(p, rs[i], rs[i + 1]);
      }
    }
  }

  /** The loop's runs are exactly the maximal runs. */
  lemma {:induction false} RunsMaximal(regs: seq<string>, n: nat)
    requires 1 <= n <= |regs|
    ensures MaximalRuns(regs[..n], RunsTo(regs, n))
  {
    if n > 1 {
      var p := regs[..n];
      RunsMaximal(regs, n - 1);
      assert p[..|p| - 1] == regs[..n - 1] && p[n - 2] == regs[n - 2] && p[n - 1] == regs[n - 1];
      if Follows(regs[n - 2], regs[n - 1]) {
        ExtendLastRun(p, RunsTo(regs, n - 1));
      } else {
        StartNewRun(p, RunsTo(regs, n - 1));
      }
    }
  }

  /** Along a run the parsed values go up by one per step. */
  lemma {:induction false} RunValues(regs: seq<string>, first: nat, m: nat)
    requires first <= m < |regs|
    requires FollowsWithin(regs, Run(first, m))
    requires first < m || ParseInt(regs[first]).Some?
    ensures ParseInt(regs[first]).Some? && ParseInt(regs[m]).Some?
    ensures ParseInt(regs[m]).value == ParseInt(regs[first]).value + (m - first)
  {
    if m > first {
      assert Follows(regs[m - 1], regs[m]);
      if m - 1 > first {
        RunValues(regs, first, m - 1);
      }
    }
  }

  /** Label of a run: bare for a run of one, "start-end" otherwise (a longer
      run never starts and ends with the same string). */
  lemma RunLabel(regs: seq<string>, rs: seq<Run>, i: nat)
    requires MaximalRuns(regs, rs) && i < |rs|
    ensures Label(regs[rs[i].first], regs[rs[i].last]) ==
              if rs[i].first == rs[i].last then regs[rs[i].first]
              else regs[rs[i].first] + "-" + regs[rs[i].last]
  {
    if rs[i].first < rs[i].last {
      assert FollowsWithin(regs, rs[i]);
      RunValues(regs, rs[i].first, rs[i].last);
    }
  }

  function Labels(regs: seq<string>, rs: seq<Run>): (ls: seq<string>)
    requires forall i :: 0 <= i < |rs| ==> rs[i].first <= rs[i].last < |regs|
    ensures |ls| == |rs|
  {
    if rs == [] then []
    else
      var last := rs[|rs| - 1];
      Labels(regs, rs[..|rs| - 1]) + [Label(regs[last.first], regs[last.last])]
  }

  lemma LabelsSnoc(regs: seq<string>, rs: seq<Run>, x: Run)
    requires forall i :: 0 <= i < |rs| ==> rs[i].first <= rs[i].last < |regs|
    requires x.first <= x.last < |regs|
    ensures Labels(regs, rs + [x]) == Labels(regs, rs) + [Label(regs[x.first], regs[x.last])]
  {
    assert (rs + [x])[..|rs|] == rs;
  }

  /** The scan has read regs[..i]: the runs closed so far are labelled in
      ranges, and the open run regs[s..i] starts at start and ends at prev. */
  ghost predicate Scanned(regs: seq<string>, i: nat, start: string, prev: string, ranges: seq<string>,
                          s: nat, closed: seq<Run>)
  {
    1 <= i <= |regs| && s < i && start == regs[s] && prev == regs[i - 1]
    && RunsTo(regs, i) == closed + [Run(s, i - 1)]
    && (forall j :: 0 <= j < |closed| ==> closed[j].first <= closed[j].last < |regs|)
    && ranges == Labels(regs, closed)
  }

  /** One turn of the loop: r extends the open run when it follows prev;
      otherwise the open run is labelled and r opens the next one. */
  method ScanNext(regs: seq<string>, i: nat, start: string, prev: string, ranges: seq<string>,
                  ghost s: nat, ghost closed: seq<Run>)
    returns (start': string, prev': string, ranges': seq<string>, ghost s': nat, ghost closed': seq<Run>)
    requires i < |regs| && Scanned(regs, i, start, prev, ranges, s, closed)
    ensures Scanned(regs, i + 1, start', prev', ranges', s', closed')
  {
    var r := regs[i];
    if Follows(prev, r) {
      assert (closed + [Run(s, i - 1)])[..|closed|] == closed;
      start', prev', ranges', s', closed' := start, r, ranges, s, closed;
    } else {
      LabelsSnoc(regs, closed, Run(s, i - 1));
      start', prev', ranges', s', closed' := r, r, ranges + [Label(start, prev)], i, closed + [Run(s, i - 1)];
    }
  }

  /** The range-building loop over a non-empty list of register numbers. */
  method CompressRanges(regs: seq<string>) returns (ranges: seq<string>)
    requires |regs| >= 1
    ensures ranges == Labels(regs, RunsTo(regs, |regs|))
    ensures 1 <= |ranges| <= |regs|
  {
    ranges := [];
    var start, prev := regs[0], regs[0];
    ghost var s := 0;
    ghost var closed: seq<Run> := [];
    var i := 1;
    while i < |regs|
      invariant Scanned(regs, i, start, prev, ranges, s, closed)
    {
      start, prev, ranges, s, closed := ScanNext(regs, i, start, prev, ranges, s, closed);
      i := i + 1;
    }
    LabelsSnoc(regs, closed, Run(s, i - 1));
    ranges := ranges + [Label(start, prev)];
    closed := closed + [Run(s, i - 1)];
  }
}
