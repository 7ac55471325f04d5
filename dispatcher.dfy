/** The dispatch loop of `main`: walk a cursor from `min` towards `max`, and on
    every turn where fewer than `--count` `psql` processes are running, launch an
    export of the next range. The host's process table is an oracle: one snapshot
    of process names per turn of the loop. */
module Dispatcher {
  import opened Planner
  import opened Naming
  import opened Processes

  /** One call of `do_copy`: the turn of the loop it happened on and the job it
      exports; `do_copy` writes the job to `DumpFileName(job.number, format)`. */
  datatype Launch = Launch(poll: nat, job: Job)

  /** Where the loop stands when it stops: every launch in order, the loop
      variables `first_num`, `last_num` and `amnt_procs`, how many turns it took,
      and whether it stopped because the guard `first_num < max` failed (rather
      than because the snapshots ran out). */
  datatype Outcome = Outcome(
    launches: seq<Launch>,
    first: int,
    last: int,
    nextNumber: nat,
    polls: nat,
    finished: bool)

  function JobsOf(launches: seq<Launch>): seq<Job> {
    seq(|launches|, k requires 0 <= k < |launches| => launches[k].job)
  }

  function PollsOf(launches: seq<Launch>): set<nat> {
    set l | l in launches :: l.poll
  }

  /** How many snapshots show fewer than `limit` `psql` processes. */
  function Unthrottled(snapshots: seq<seq<string>>, limit: int): nat {
    if snapshots == [] then 0
    else
      Unthrottled(snapshots[..|snapshots| - 1], limit)
      + (if Active(snapshots[|snapshots| - 1]) < limit then 1 else 0)
  }

  /** No two launches write the same file. */
  predicate DistinctFiles(launches: seq<Launch>, format: Format) {
    forall j, k :: 0 <= j < k < |launches| ==>
      DumpFileName(launches[j].job.number, format) != DumpFileName(launches[k].job.number, format)
  }

  /** In the first `polls` turns, a launch happened on a turn exactly when that
      turn's snapshot showed fewer than `limit` `psql` processes, and at most one
      launch happened per turn, in turn order. */
  predicate OpenTurns(launches: seq<Launch>, polls: nat, snapshots: seq<seq<string>>, limit: int) {
    && polls <= |snapshots|
    && (forall k :: 0 <= k < |launches| ==>
          launches[k].poll < polls && Active(snapshots[launches[k].poll]) < limit)
    && (forall j, k :: 0 <= j < k < |launches| ==> launches[j].poll < launches[k].poll)
    && (forall p :: 0 <= p < polls && Active(snapshots[p]) < limit ==> p in PollsOf(launches))
    && |launches| == Unthrottled(snapshots[..polls], limit)
  }

  /** The loop of `main` from a given state onwards, as a function: `launches`
      so far, the cursor `first`, the next job number, and the turn `poll`. While
      `first < max` and snapshots remain, a turn whose snapshot shows fewer than
      `limit` `psql` processes launches the range `first .. first + width - 1` and
      moves the cursor past it; any other turn only waits. */
  function RunFrom(width: int, max: int, limit: int, snapshots: seq<seq<string>>,
                   launches: seq<Launch>, first: int, number: nat, poll: nat): Outcome
    requires poll <= |snapshots|
    decreases |snapshots| - poll
  {
    if first < max && poll < |snapshots| then
      if Active(snapshots[poll]) < limit then
        var launch := Launch(poll, Job(number, first, first + width - 1));
        RunFrom(width, max, limit, snapshots, launches + [launch], first + width, number + 1, poll + 1)
      else
        RunFrom(width, max, limit, snapshots, launches, first, number, poll + 1)
    else
      Outcome(launches, first, first + width - 1, number, poll, first >= max)
  }

  /** The whole loop, from `first_num = min` and `amnt_procs = 1`. */
  function Run(width: int, min: int, max: int, limit: int,
               snapshots: seq<seq<string>>): Outcome {
    RunFrom(width, max, limit, snapshots, [], min, 1, 0)
  }

  /** The loop of `main` with `num_rec_per_proc == width` and `args.count ==
      limit`, run against the given process snapshots. */
  method Dispatch(width: int, min: int, max: int, limit: int,
                  snapshots: seq<seq<string>>) returns (o: Outcome)
    ensures o == Run(width, min, max, limit, snapshots)
  {
    var first := min;
    var last := first + width - 1;
    var number: nat := 1;
    var launches: seq<Launch> := [];
    var i := 0;
    while first < max && i < |snapshots|
      invariant 0 <= i <= |snapshots|
      invariant last == first + width - 1
      invariant RunFrom(width, max, limit, snapshots, launches, first, number, i)
             == Run(width, min, max, limit, snapshots)
      decreases |snapshots| - i
    {
      var active := CountPsql(snapshots[i]);
      if active < limit {
        launches := launches + [Launch(i, Job(number, first, last))];
        first := last + 1;
        last := first + width - 1;
        number := number + 1;
      }
      i := i + 1;
    }
    o := Outcome(launches, first, last, number, i, first >= max);
  }

  /** What holds of a run after every turn: `launches` are the first ranges of
      the closed form, each starting below `max`, launched
      exactly on the open turns so far; the cursor and job number follow them. */
  ghost predicate Progress(launches: seq<Launch>, first: int, number: nat, polls: nat,
                           snapshots: seq<seq<string>>, limit: int,
                           min: int, max: int, width: int) {
    && number == |launches| + 1
    && first == Cursor(min, width, |launches|)
    && ClosedForm(JobsOf(launches), min, width)
    && BelowMax(JobsOf(launches), max)
    && OpenTurns(launches, polls, snapshots, limit)
  }

  /** The rest of a run keeps `Progress`. */
  lemma {:induction false} RunFromKeepsProgress(
    width: int, min: int, max: int, limit: int, snapshots: seq<seq<string>>,
    launches: seq<Launch>, first: int, number: nat, poll: nat)
    requires Progress(launches, first, number, poll, snapshots, limit, min, max, width)
    ensures var o := RunFrom(width, max, limit, snapshots, launches, first, number, poll);
      Progress(o.launches, o.first, o.nextNumber, o.polls, snapshots, limit, min, max, width)
    decreases |snapshots| - poll
  {
    var o := RunFrom(width, max, limit, snapshots, launches, first, number, poll);
    if first < max && poll < |snapshots| {
      if Active(snapshots[poll]) < limit {
        var launch := Launch(poll, Job(number, first, first + width - 1));
        assert o == RunFrom(width, max, limit, snapshots,
                            launches + [launch], first + width, number + 1, poll + 1);
        ProgressLaunched(width, min, max, limit, snapshots, launches, first, number, poll);
        RunFromKeepsProgress(width, min, max, limit, snapshots,
                             launches + [launch], first + width, number + 1, poll + 1);
      } else {
        assert o == RunFrom(width, max, limit, snapshots, launches, first, number, poll + 1);
        ProgressThrottled(width, min, max, limit, snapshots, launches, first, number, poll);
        RunFromKeepsProgress(width, min, max, limit, snapshots,
                             launches, first, number, poll + 1);
      }
    } else {
      assert o == Outcome(launches, first, first + width - 1, number, poll, first >= max);
    }
  }

  /** The rest of a run stops either with the cursor at or past `max` or with
      the snapshots used up, and `last` stays one range past `first`. */
  lemma {:induction false} RunFromStops(
    width: int, max: int, limit: int, snapshots: seq<seq<string>>,
    launches: seq<Launch>, first: int, number: nat, poll: nat)
    requires poll <= |snapshots|
    ensures var o := RunFrom(width, max, limit, snapshots, launches, first, number, poll);
      && o.last == o.first + width - 1
      && poll <= o.polls <= |snapshots|
      && (o.finished <==> o.first >= max)
      && (!o.finished ==> o.polls == |snapshots|)
    decreases |snapshots| - poll
  {
    if first < max && poll < |snapshots| {
      if Active(snapshots[poll]) < limit {
        var launch := Launch(poll, Job(number, first, first + width - 1));
        RunFromStops(width, max, limit, snapshots,
                     launches + [launch], first + width, number + 1, poll + 1);
      } else {
        RunFromStops(width, max, limit, snapshots, launches, first, number, poll + 1);
      }
    }
  }

  /** A turn below the limit launches the next range and keeps `Progress`. */
  lemma ProgressLaunched(
    width: int, min: int, max: int, limit: int, snapshots: seq<seq<string>>,
    launches: seq<Launch>, first: int, number: nat, poll: nat)
    requires Progress(launches, first, number, poll, snapshots, limit, min, max, width)
    requires first < max && poll < |snapshots| && Active(snapshots[poll]) < limit
    ensures var launch := Launch(poll, Job(number, first, first + width - 1));
      Progress(launches + [launch], first + width, number + 1, poll + 1,
               snapshots, limit, min, max, width)
  {
    var launch := Launch(poll, Job(number, first, first + width - 1));
    TurnLaunched(launches, poll, snapshots, limit, launch);
    JobAppended(launches, min, max, width, launch);
    assert Cursor(min, width, |launches + [launch]|) == first + width;
  }

  /** A turn held back by the limit keeps `Progress`. */
  lemma ProgressThrottled(
    width: int, min: int, max: int, limit: int, snapshots: seq<seq<string>>,
    launches: seq<Launch>, first: int, number: nat, poll: nat)
    requires Progress(launches, first, number, poll, snapshots, limit, min, max, width)
    requires poll < |snapshots| && Active(snapshots[poll]) >= limit
    ensures Progress(launches, first, number, poll + 1, snapshots, limit, min, max, width)
  {
    TurnThrottled(launches, poll, snapshots, limit);
  }

  /** `Progress` at the start of a run: nothing launched, no turn taken. */
  lemma RunProgress(width: int, min: int, max: int, limit: int,
                    snapshots: seq<seq<string>>)
    ensures var o := Run(width, min, max, limit, snapshots);
      && Progress(o.launches, o.first, o.nextNumber, o.polls, snapshots, limit, min, max, width)
      && o.last == o.first + width - 1
      && o.polls <= |snapshots|
      && (o.finished <==> o.first >= max)
      && (!o.finished ==> o.polls == |snapshots|)
  {
    assert snapshots[..0] == [];
    RunFromKeepsProgress(width, min, max, limit, snapshots, [], min, 1, 0);
    RunFromStops(width, max, limit, snapshots, [], min, 1, 0);
  }

  /** The ranges a run launches: numbered 1, 2, ... in launch order, contiguous,
      `width` keys wide, the first starting at `min`, each starting below `max`,
      and no two of them written to the same file. */
  lemma RunRanges(width: int, min: int, max: int, limit: int,
                  snapshots: seq<seq<string>>)
    ensures var o := Run(width, min, max, limit, snapshots);
      var jobs := JobsOf(o.launches);
      && Numbered(jobs) && Contiguous(jobs) && UniformWidth(jobs, width) && StartsAt(jobs, min)
      && BelowMax(jobs, max)
      && (forall format :: DistinctFiles(o.launches, format))
      && o.first == min + |o.launches| * width
      && o.last == o.first + width - 1
      && o.nextNumber == |o.launches| + 1
  {
    var o := Run(width, min, max, limit, snapshots);
    RunProgress(width, min, max, limit, snapshots);
    ClosedFormIff(JobsOf(o.launches), min, width);
    forall format {
      FileNamesDistinct(o.launches, format);
    }
    CursorIs(min, width, |o.launches|);
  }

  /** Throttling: a run stops when the cursor reaches `max` or the snapshots run
      out, and it launched on a turn exactly when that turn's snapshot showed
      fewer than `limit` `psql` processes, at most once per turn. */
  lemma RunTurns(width: int, min: int, max: int, limit: int,
                 snapshots: seq<seq<string>>)
    ensures var o := Run(width, min, max, limit, snapshots);
      && o.polls <= |snapshots|
      && (o.finished <==> o.first >= max)
      && (!o.finished ==> o.polls == |snapshots|)
      && OpenTurns(o.launches, o.polls, snapshots, limit)
      && (o.finished && min < max ==>
            o.launches != [] && o.launches[|o.launches| - 1].poll + 1 == o.polls)
  {
    RunProgress(width, min, max, limit, snapshots);
    if min < max {
      RunFromEndsOnLaunch(width, max, limit, snapshots, [], min, 1, 0);
    }
  }

  /** A run that starts below `max` and finishes does so on the turn of its last
      launch: the loop takes no turn after the cursor reaches `max`. */
  lemma {:induction false} RunFromEndsOnLaunch(
    width: int, max: int, limit: int, snapshots: seq<seq<string>>,
    launches: seq<Launch>, first: int, number: nat, poll: nat)
    requires poll <= |snapshots| && first < max
    ensures var o := RunFrom(width, max, limit, snapshots, launches, first, number, poll);
      o.finished ==> |o.launches| > |launches| && o.launches[|o.launches| - 1].poll + 1 == o.polls
    decreases |snapshots| - poll
  {
    if poll < |snapshots| {
      if Active(snapshots[poll]) < limit {
        var launch := Launch(poll, Job(number, first, first + width - 1));
        if first + width < max {
          RunFromEndsOnLaunch(width, max, limit, snapshots,
                              launches + [launch], first + width, number + 1, poll + 1);
        }
      } else {
        RunFromEndsOnLaunch(width, max, limit, snapshots, launches, first, number, poll + 1);
      }
    }
  }

  /** With a positive width, a finished run launched exactly the plan, and
      snapshots with at least as many open turns as the plan has ranges always
      let the run finish. */
  lemma RunIsPlan(width: int, min: int, max: int, limit: int,
                  snapshots: seq<seq<string>>)
    requires width >= 1
    ensures var o := Run(width, min, max, limit, snapshots);
      && (o.finished ==> JobsOf(o.launches) == Plan(min, max, width))
      && (Unthrottled(snapshots, limit) >= PlannedCount(min, max, width) ==> o.finished)
  {
    var o := Run(width, min, max, limit, snapshots);
    RunProgress(width, min, max, limit, snapshots);
    CursorIs(min, width, |o.launches|);
    RunAgainstPlan(o.launches, o.polls, snapshots, limit, min, max, width);
  }

  /** An empty or one-key range (`min >= max`) launches nothing and takes no
      turn. */
  lemma RunEmptyRange(width: int, min: int, max: int, limit: int,
                      snapshots: seq<seq<string>>)
    requires min >= max
    ensures var o := Run(width, min, max, limit, snapshots);
      o.launches == [] && o.polls == 0 && o.finished
  {
  }

  /** A width of 0 or less never moves the cursor up: the run never finishes,
      takes every turn it is given, and launches on every turn below the limit a
      range that ends below its start. */
  lemma RunStalls(width: int, min: int, max: int, limit: int,
                  snapshots: seq<seq<string>>)
    requires width <= 0 && min < max
    ensures var o := Run(width, min, max, limit, snapshots);
      && o.first <= min && !o.finished && o.polls == |snapshots|
      && |o.launches| == Unthrottled(snapshots, limit)
      && (forall k :: 0 <= k < |o.launches| ==> o.launches[k].job.last < o.launches[k].job.first)
  {
    var o := Run(width, min, max, limit, snapshots);
    RunFromStalls(width, min, max, limit, snapshots, [], min, 1, 0);
    RunTurns(width, min, max, limit, snapshots);
    assert snapshots[..|snapshots|] == snapshots;
    RunRanges(width, min, max, limit, snapshots);
    forall k | 0 <= k < |o.launches|
      ensures o.launches[k].job.last < o.launches[k].job.first
    {
      assert JobsOf(o.launches)[k] == o.launches[k].job;
    }
  }

  lemma {:induction false} RunFromStalls(
    width: int, min: int, max: int, limit: int, snapshots: seq<seq<string>>,
    launches: seq<Launch>, first: int, number: nat, poll: nat)
    requires width <= 0 && first <= min < max && poll <= |snapshots|
    ensures var o := RunFrom(width, max, limit, snapshots, launches, first, number, poll);
      o.first <= min && !o.finished && o.polls == |snapshots|
    decreases |snapshots| - poll
  {
    if poll < |snapshots| {
      if Active(snapshots[poll]) < limit {
        var launch := Launch(poll, Job(number, first, first + width - 1));
        RunFromStalls(width, min, max, limit, snapshots,
                      launches + [launch], first + width, number + 1, poll + 1);
      } else {
        RunFromStalls(width, min, max, limit, snapshots, launches, first, number, poll + 1);
      }
    }
  }

  /** A turn held back by the limit launches nothing. */
  lemma TurnThrottled(launches: seq<Launch>, i: nat, snapshots: seq<seq<string>>, limit: int)
    requires i < |snapshots| && Active(snapshots[i]) >= limit
    requires OpenTurns(launches, i, snapshots, limit)
    ensures OpenTurns(launches, i + 1, snapshots, limit)
  {
    assert snapshots[..i + 1][..i] == snapshots[..i];
  }

  /** A turn below the limit launches once. */
  lemma TurnLaunched(launches: seq<Launch>, i: nat, snapshots: seq<seq<string>>, limit: int,
                     launch: Launch)
    requires i < |snapshots| && Active(snapshots[i]) < limit && launch.poll == i
    requires OpenTurns(launches, i, snapshots, limit)
    ensures OpenTurns(launches + [launch], i + 1, snapshots, limit)
  {
    var next := launches + [launch];
    assert snapshots[..i + 1][..i] == snapshots[..i];
    assert PollsOf(next) == PollsOf(launches) + {i};
  }

  lemma JobsOfAppend(launches: seq<Launch>, launch: Launch)
    ensures JobsOf(launches + [launch]) == JobsOf(launches) + [launch.job]
  {
  }

  /** The next launch of the loop continues the run: its job is the next one of
      the closed form and it starts below `max`. */
  lemma JobAppended(launches: seq<Launch>, min: int, max: int, width: int, launch: Launch)
    requires ClosedForm(JobsOf(launches), min, width)
    requires BelowMax(JobsOf(launches), max)
    requires var first := Cursor(min, width, |launches|);
      launch.job == Job(|launches| + 1, first, first + width - 1) && first < max
    ensures ClosedForm(JobsOf(launches + [launch]), min, width)
    ensures BelowMax(JobsOf(launches + [launch]), max)
  {
    CursorIs(min, width, |launches|);
    JobsOfAppend(launches, launch);
    ClosedFormAppend(JobsOf(launches), launch.job, min, width);
    BelowMaxAppend(JobsOf(launches), launch.job, max);
  }

  /** Where the loop stopped, measured against the plan: if the cursor reached
      `max` the launches are exactly the plan, and if the snapshots offered at
      least as many open turns as the plan has ranges, the cursor reached `max`. */
  lemma RunAgainstPlan(launches: seq<Launch>, polls: nat, snapshots: seq<seq<string>>,
                       limit: int, min: int, max: int, width: int)
    requires width >= 1
    requires ClosedForm(JobsOf(launches), min, width)
    requires BelowMax(JobsOf(launches), max)
    requires OpenTurns(launches, polls, snapshots, limit)
    requires min + |launches| * width < max ==> polls == |snapshots|
    ensures min + |launches| * width >= max ==> JobsOf(launches) == Plan(min, max, width)
    ensures Unthrottled(snapshots, limit) >= PlannedCount(min, max, width) ==> min + |launches| * width >= max
  {
    if min + |launches| * width >= max {
      FinishedRunIsPlan(JobsOf(launches), min, max, width);
    } else {
      assert snapshots[..polls] == snapshots;
      PlannedCountReaches(min, max, width, |launches|);
    }
  }

  /** A run whose cursor has reached `max` launched exactly the plan. */
  lemma FinishedRunIsPlan(jobs: seq<Job>, min: int, max: int, width: int)
    requires width >= 1
    requires ClosedForm(jobs, min, width)
    requires BelowMax(jobs, max)
    requires min + |jobs| * width >= max
    ensures jobs == Plan(min, max, width)
  {
    if jobs != [] {
      assert jobs[0].first == min;
      assert min + (|jobs| - 1) * width == jobs[|jobs| - 1].first;
    }
    PlannedCountUnique(min, max, width, |jobs|);
    PlanShape(min, max, width);
  }

  /** Files of distinct launches never collide: their job numbers differ. */
  lemma FileNamesDistinct(launches: seq<Launch>, format: Format)
    requires Numbered(JobsOf(launches))
    ensures DistinctFiles(launches, format)
  {
    forall j, k | 0 <= j < k < |launches|
      ensures DumpFileName(launches[j].job.number, format) != DumpFileName(launches[k].job.number, format)
    {
      assert JobsOf(launches)[j] == launches[j].job && JobsOf(launches)[k] == launches[k].job;
      if DumpFileName(launches[j].job.number, format) == DumpFileName(launches[k].job.number, format) {
        DumpFileNameInjective(launches[j].job.number, format, launches[k].job.number, format);
      }
    }
  }
}
