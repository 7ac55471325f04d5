/** How `main` splits the key range `[min, max]` of the split column: the width
    of one partition, and the ranges the dispatch loop hands out when no launch is
    ever held back (the plan). */
module Planner {

  const Mebibyte := 1024 * 1024

  /** `math.floor(size * 1024 * 1024 / avg_rec_size)`: the most rows of the
      average size that fit in `sizeMb` mebibytes. */
  function RowsPerPartition(sizeMb: int, avgRecSize: real): (rows: int)
    requires avgRecSize > 0.0
    ensures rows as real * avgRecSize <= (sizeMb * Mebibyte) as real
    ensures (sizeMb * Mebibyte) as real < (rows + 1) as real * avgRecSize
  {
    var exact := (sizeMb * Mebibyte) as real / avgRecSize;
    var rows := exact.Floor;
    assert exact * avgRecSize == (sizeMb * Mebibyte) as real;
    FloorScaled(exact, avgRecSize, rows);
    rows
  }

  lemma FloorScaled(exact: real, scale: real, rows: int)
    requires scale > 0.0
    requires rows as real <= exact < (rows + 1) as real
    ensures rows as real * scale <= exact * scale < (rows + 1) as real * scale
  {
  }

  /** A non-negative size gives a non-negative width, and the width is 0 exactly
      when the average row is larger than the size: then the dispatch loop never
      advances. */
  lemma RowsPerPartitionZero(sizeMb: int, avgRecSize: real)
    requires avgRecSize > 0.0 && sizeMb >= 0
    ensures RowsPerPartition(sizeMb, avgRecSize) >= 0
    ensures RowsPerPartition(sizeMb, avgRecSize) == 0 <==> (sizeMb * Mebibyte) as real < avgRecSize
  {
    var rows := RowsPerPartition(sizeMb, avgRecSize);
    if rows >= 1 {
      assert avgRecSize <= rows as real * avgRecSize;
    }
  }

  /** One launch of the export: job number `number` copies the keys `first` to
      `last`, both included. */
  datatype Job = Job(number: nat, first: int, last: int)

  /** The k-th job, counting from 0, of a run that starts at `min` with ranges
      `width` keys wide. */
  function NthJob(min: int, width: int, k: nat): Job {
    Job(k + 1, min + k * width, min + k * width + width - 1)
  }

  /** Where the cursor stands after `k` ranges: `min` moved up by `width`, `k` times. */
  function Cursor(min: int, width: int, k: nat): int {
    if k == 0 then min else Cursor(min, width, k - 1) + width
  }

  lemma {:induction false} CursorIs(min: int, width: int, k: nat)
    ensures Cursor(min, width, k) == min + k * width
  {
    if k > 0 {
      CursorIs(min, width, k - 1);
      NextMultiple(k - 1, width);
    }
  }

  predicate ClosedForm(jobs: seq<Job>, min: int, width: int) {
    forall k :: 0 <= k < |jobs| ==> jobs[k] == NthJob(min, width, k)
  }

  /** Job numbers are 1, 2, 3, ... in launch order. */
  predicate Numbered(jobs: seq<Job>) {
    forall k :: 0 <= k < |jobs| ==> jobs[k].number == k + 1
  }

  /** Each range starts right after the previous one ends: no gap, no overlap. */
  predicate Contiguous(jobs: seq<Job>) {
    forall k :: 0 < k < |jobs| ==> jobs[k].first == jobs[k - 1].last + 1
  }

  /** Every range is `width` keys wide: `last = first + width - 1`. */
  predicate UniformWidth(jobs: seq<Job>, width: int) {
    forall k :: 0 <= k < |jobs| ==> jobs[k].last == jobs[k].first + width - 1
  }

  /** Every range starts below `max`: the loop only launches while `first_num < max`. */
  predicate BelowMax(jobs: seq<Job>, max: int) {
    forall k :: 0 <= k < |jobs| ==> jobs[k].first < max
  }

  predicate StartsAt(jobs: seq<Job>, min: int) {
    jobs != [] ==> jobs[0].first == min
  }

  /** The next job of the closed form extends a prefix of it. */
  lemma ClosedFormAppend(jobs: seq<Job>, job: Job, min: int, width: int)
    requires ClosedForm(jobs, min, width) && job == NthJob(min, width, |jobs|)
    ensures ClosedForm(jobs + [job], min, width)
  {
  }

  lemma BelowMaxAppend(jobs: seq<Job>, job: Job, max: int)
    requires BelowMax(jobs, max) && job.first < max
    ensures BelowMax(jobs + [job], max)
  {
  }

  /** Numbered, contiguous, equally wide ranges from `min` are exactly the jobs
      `NthJob(min, width, 0)`, `NthJob(min, width, 1)`, ... */
  lemma {:induction false} ClosedFormIff(jobs: seq<Job>, min: int, width: int)
    ensures ClosedForm(jobs, min, width)
        <==> Numbered(jobs) && Contiguous(jobs) && UniformWidth(jobs, width) && StartsAt(jobs, min)
  {
    if Numbered(jobs) && Contiguous(jobs) && UniformWidth(jobs, width) && StartsAt(jobs, min) {
      StructureGivesClosedForm(jobs, min, width, |jobs|);
    }
  }

  lemma {:induction false} StructureGivesClosedForm(jobs: seq<Job>, min: int, width: int, n: nat)
    requires n <= |jobs|
    requires Numbered(jobs) && Contiguous(jobs) && UniformWidth(jobs, width) && StartsAt(jobs, min)
    ensures forall k :: 0 <= k < n ==> jobs[k] == NthJob(min, width, k)
  {
    if n > 0 {
      StructureGivesClosedForm(jobs, min, width, n - 1);
      var k := n - 1;
      if k > 0 {
        assert jobs[k].first == jobs[k - 1].last + 1 == min + (k - 1) * width + width;
      }
    }
  }

  /** The ranges from `cursor` on that the loop emits when it is never held
      back: one range per turn while the cursor is below `max`. */
  function PlanFrom(cursor: int, max: int, width: int, number: nat): seq<Job>
    requires width >= 1
    decreases max - cursor
  {
    if cursor >= max then []
    else [Job(number, cursor, cursor + width - 1)] + PlanFrom(cursor + width, max, width, number + 1)
  }

  /** The whole run: `first_num = min`, `amnt_procs = 1`, guard `first_num < max`. */
  function Plan(min: int, max: int, width: int): seq<Job>
    requires width >= 1
  {
    PlanFrom(min, max, width, 1)
  }

  /** `ceil((max - min) / width)`, and no job at all for an empty or one-key range. */
  function PlannedCount(min: int, max: int, width: int): nat
    requires width >= 1
  {
    if min >= max then 0 else (max - min + width - 1) / width
  }

  lemma DivUnique(x: int, w: int, q: int)
    requires w > 0 && q * w <= x < q * w + w
    ensures x / w == q
  {
    var d := x / w;
    assert d * w <= x < d * w + w;
    if d < q {
      MulMono(d + 1, q, w);
    } else if q < d {
      MulMono(q + 1, d, w);
    }
  }

  /** A quotient of a number below `c * w` is below `c`. */
  lemma QuotientBelow(x: int, w: int, c: int)
    requires w >= 1 && 0 <= x < c * w
    ensures 0 <= x / w < c
    ensures (x / w) * w <= x < (x / w) * w + w
  {
    var k := x / w;
    assert k * w <= x < k * w + w;
    assert (c - k) * w == c * w - k * w;
  }

  lemma NextMultiple(n: int, w: int)
    ensures (n + 1) * w == n * w + w
  {
  }

  lemma MulMono(a: int, b: int, w: int)
    requires a <= b && w >= 0
    ensures a * w <= b * w
  {
    assert b * w - a * w == (b - a) * w;
  }

  /** `n` launches end the run exactly when `n = ceil((max - min) / width)`:
      `n` ranges reach `max` and `n - 1` did not. */
  lemma PlannedCountUnique(min: int, max: int, width: int, n: nat)
    requires width >= 1
    requires min + n * width >= max
    requires n == 0 || min + (n - 1) * width < max
    ensures n == PlannedCount(min, max, width)
  {
    if min < max {
      assert (n - 1) * width == n * width - width;
      DivUnique(max - min + width - 1, width, n);
    }
  }

  /** Fewer launches than planned leave the cursor below `max`; the planned
      count brings it to `max` or beyond. */
  lemma PlannedCountReaches(min: int, max: int, width: int, n: nat)
    requires width >= 1
    ensures n >= PlannedCount(min, max, width) ==> min + n * width >= max
    ensures min + n * width >= max ==> n >= PlannedCount(min, max, width)
  {
    var c := PlannedCount(min, max, width);
    if min < max {
      var x := max - min + width - 1;
      assert c * width <= x < c * width + width;
      assert max - min <= c * width;
      if n >= c {
        MulMono(c, n, width);
      }
      if n < c {
        MulMono(n, c - 1, width);
        assert (c - 1) * width == c * width - width;
      }
    }
  }

  /** One launch from a cursor below `max` leaves one job fewer to plan. */
  lemma PlannedCountStep(cursor: int, max: int, width: int)
    requires width >= 1 && cursor < max
    ensures PlannedCount(cursor, max, width) == 1 + PlannedCount(cursor + width, max, width)
  {
    var x := max - cursor - 1;
    if cursor + width >= max {
      DivUnique(x + width, width, 1);
    } else {
      var q := x / width;
      assert q * width <= x < q * width + width;
      DivUnique(x + width, width, q + 1);
    }
  }

  lemma {:induction false} PlanFromShape(cursor: int, max: int, width: int, number: nat)
    requires width >= 1
    ensures |PlanFrom(cursor, max, width, number)| == PlannedCount(cursor, max, width)
    ensures forall k :: 0 <= k < |PlanFrom(cursor, max, width, number)| ==>
      PlanFrom(cursor, max, width, number)[k]
        == Job(number + k, cursor + k * width, cursor + k * width + width - 1)
    decreases max - cursor
  {
    if cursor < max {
      var rest := PlanFrom(cursor + width, max, width, number + 1);
      PlanFromShape(cursor + width, max, width, number + 1);
      PlannedCountStep(cursor, max, width);
      var plan := PlanFrom(cursor, max, width, number);
      forall k | 0 < k < |plan|
        ensures plan[k] == Job(number + k, cursor + k * width, cursor + k * width + width - 1)
      {
        assert plan[k] == rest[k - 1];
        assert cursor + width + (k - 1) * width == cursor + k * width;
      }
    }
  }

  /** The plan has `ceil((max - min) / width)` jobs, numbered from 1, each range
      `width` wide, the first starting at `min`, each starting below `max`. */
  lemma PlanShape(min: int, max: int, width: int)
    requires width >= 1
    ensures |Plan(min, max, width)| == PlannedCount(min, max, width)
    ensures ClosedForm(Plan(min, max, width), min, width)
    ensures BelowMax(Plan(min, max, width), max)
  {
    var plan := Plan(min, max, width);
    PlanFromShape(min, max, width, 1);
    forall k | 0 <= k < |plan| ensures plan[k].first < max {
      PlannedCountReaches(min, max, width, k);
    }
  }

  /** The ranges of the plan are contiguous and of equal width from `min`, and
      the last one reaches `max - 1` or beyond. */
  lemma PlanContiguous(min: int, max: int, width: int)
    requires width >= 1
    ensures var plan := Plan(min, max, width);
      && Numbered(plan) && Contiguous(plan) && UniformWidth(plan, width) && StartsAt(plan, min)
      && (plan != [] ==> plan[|plan| - 1].last >= max - 1)
  {
    var plan := Plan(min, max, width);
    PlanShape(min, max, width);
    ClosedFormIff(plan, min, width);
    if plan != [] {
      PlannedCountReaches(min, max, width, |plan|);
      assert plan[|plan| - 1].last == min + |plan| * width - 1 by {
        assert (|plan| - 1) * width + width == |plan| * width;
      }
    }
  }

  predicate Covers(job: Job, key: int) {
    job.first <= key <= job.last
  }

  /** Every key from `min` to the end of the last range lies in exactly one range
      of the plan, the `(key - min) / width`-th. */
  lemma PlanCoverage(min: int, max: int, width: int, key: int) returns (k: nat)
    requires width >= 1
    requires min <= key < min + PlannedCount(min, max, width) * width
    ensures k < |Plan(min, max, width)| && Covers(Plan(min, max, width)[k], key)
    ensures forall j :: 0 <= j < |Plan(min, max, width)| && Covers(Plan(min, max, width)[j], key) ==> j == k
  {
    var plan := Plan(min, max, width);
    PlanShape(min, max, width);
    k := (key - min) / width;
    QuotientBelow(key - min, width, |plan|);
    assert plan[k] == NthJob(min, width, k);
    forall j | 0 <= j < |plan| && Covers(plan[j], key) ensures j == k {
      DivUnique(key - min, width, j);
    }
  }

  /** Because the loop runs only while `first_num < max`, the key `max` itself
      is exported exactly when `max - min` is not a multiple of the width. (When
      `min >= max` the plan is empty, see `PlanShape`.) */
  lemma MaxCoveredIff(min: int, max: int, width: int)
    requires width >= 1 && min < max
    ensures (exists k :: 0 <= k < |Plan(min, max, width)| && Covers(Plan(min, max, width)[k], max))
        <==> (max - min) % width != 0
  {
    var plan := Plan(min, max, width);
    var c := PlannedCount(min, max, width);
    var d := max - min;
    PlanShape(min, max, width);
    PlannedCountReaches(min, max, width, c);
    var q, r := d / width, d % width;
    assert d == q * width + r;
    if r == 0 {
      DivUnique(d + width - 1, width, q);
      assert c * width == d;
      forall k | 0 <= k < |plan| ensures !Covers(plan[k], max) {
        MulMono(k + 1, c, width);
        assert plan[k].last == min + (k + 1) * width - 1;
      }
    } else {
      DivUnique(d + width - 1, width, q + 1);
      var key := PlanCoverage(min, max, width, max);
    }
  }
}
