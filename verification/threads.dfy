/** One step of each of the two loops that share the pending list: the
    dispatcher, which takes the head once it is due, and the scheduler, which
    reads operator commands. The clock is a parameter of each step. Each step
    is taken as a whole; the interleaving of their individual memory accesses
    is not modelled. */
module Threads {
  import opened Options
  import opened Jobs
  import opened Ordering
  import opened JobQueue
  import opened QueueLaws

  /** The body of the dispatcher loop at clock reading `now`: a non-empty list
      whose head is due gives up its head, to be handed to an executor;
      otherwise the list is left alone. */
  function DispatcherStep(l: JobList, now: int): (r: Taken)
    requires Valid(l)
    ensures Valid(r.list)
    ensures r.job.Some? <==> l.numOfJobs > 0 && ExecTime(l.jobs[0]) <= now
    ensures r.job.Some? ==>
      && r.job.value == l.jobs[0]
      && r.list.jobs == l.jobs[1..]
      && r.list.numOfJobs == l.numOfJobs - 1
    ensures r.job.None? ==> r.list == l
  {
    if l.numOfJobs > 0 && now >= ExecTime(l.jobs[0]) then DeleteFirstJob(l)
    else Taken(None, l)
  }

  /** The cancel command: the job reported as deleted (none on an empty list)
      is exactly the job then removed, and nothing else changes. */
  function CancelStep(l: JobList): (r: Taken)
    requires Valid(l)
    ensures Valid(r.list)
    ensures l.numOfJobs == 0 ==> r.job.None? && r.list == l
    ensures l.numOfJobs > 0 ==>
      r.job == Some(l.jobs[0]) && r.list.numOfJobs == l.numOfJobs - 1
    ensures ToSeq(r.job) + r.list.jobs == l.jobs
  {
    var reported := if l.numOfJobs == 0 then None else Some(l.jobs[0]);
    var list := if l.numOfJobs > 0 then DeleteFirstJob(l).list else l;
    Taken(reported, list)
  }

  /** A job read from the operator at clock reading `at`. */
  function SubmittedJob(command: seq<string>, delay: int, at: int): Job {
    Job(command, at, delay)
  }

  /** What either loop can do to the list in one step. */
  datatype Event =
    | Submit(command: seq<string>, delay: int, at: int)
    | PrintJobs
    | Cancel
    | Poll(now: int)

  /** The job an event brings into the list, if any. */
  function NewJobs(e: Event): seq<Job> {
    if e.Submit? then [SubmittedJob(e.command, e.delay, e.at)] else []
  }

  /** One step; every job is either still pending or handed out, never lost
      or duplicated. */
  function Step(l: JobList, e: Event): (r: Taken)
    requires Valid(l)
    ensures Valid(r.list)
    ensures multiset(r.list.jobs) + multiset(ToSeq(r.job)) == multiset(l.jobs) + multiset(NewJobs(e))
  {
    match e
    case Submit(command, delay, at) => Taken(None, InsertJob(l, SubmittedJob(command, delay, at)))
    case PrintJobs => Taken(None, l)
    case Cancel =>
      var r := CancelStep(l);
      assert multiset(ToSeq(r.job) + r.list.jobs) == multiset(l.jobs);
      r
    case Poll(now) =>
      var r := DispatcherStep(l, now);
      assert multiset(ToSeq(r.job) + r.list.jobs) == multiset(l.jobs);
      r
  }

  /** The final list after a sequence of steps, and the jobs handed out
      (dispatched or cancelled) along the way, in the order they left. */
  datatype Trace = Trace(list: JobList, removed: seq<Job>)

  function AllNewJobs(es: seq<Event>): seq<Job> {
    if es == [] then [] else NewJobs(es[0]) + AllNewJobs(es[1..])
  }

  /** A sequence of steps conserves jobs: those pending at the end together
      with those handed out are exactly those pending at the start together
      with those submitted. */
  function Run(l: JobList, es: seq<Event>): (r: Trace)
    requires Valid(l)
    ensures Valid(r.list)
    ensures multiset(r.list.jobs) + multiset(r.removed) == multiset(l.jobs) + multiset(AllNewJobs(es))
    decreases |es|
  {
    if es == [] then Trace(l, [])
    else
      var first := Step(l, es[0]);
      var rest := Run(first.list, es[1..]);
      var removed := ToSeq(first.job) + rest.removed;
      ConservationCompose(l.jobs, first.list.jobs, rest.list.jobs,
                          ToSeq(first.job), rest.removed, NewJobs(es[0]), AllNewJobs(es[1..]));
      Trace(rest.list, removed)
  }

  /** Conservation of two consecutive stretches of steps composes. */
  lemma ConservationCompose(p0: seq<Job>, p1: seq<Job>, p2: seq<Job>,
                            out1: seq<Job>, out2: seq<Job>, in1: seq<Job>, in2: seq<Job>)
    requires multiset(p1) + multiset(out1) == multiset(p0) + multiset(in1)
    requires multiset(p2) + multiset(out2) == multiset(p1) + multiset(in2)
    ensures multiset(p2) + multiset(out1 + out2) == multiset(p0) + multiset(in1 + in2)
  {
    calc {
      multiset(p2) + multiset(out1 + out2);
      multiset(p2) + multiset(out2) + multiset(out1);
      multiset(p1) + multiset(in2) + multiset(out1);
      multiset(p1) + multiset(out1) + multiset(in2);
      multiset(p0) + multiset(in1) + multiset(in2);
      multiset(p0) + multiset(in1 + in2);
    }
  }

  lemma StepSorted(l: JobList, e: Event)
    requires Valid(l) && Sorted(l.jobs)
    ensures Sorted(Step(l, e).list.jobs)
  {
    match e
    case Submit(command, delay, at) => InsertJobSorted(l, SubmittedJob(command, delay, at));
    case PrintJobs =>
    case Cancel => DeleteFirstJobSorted(l);
    case Poll(now) => DeleteFirstJobSorted(l);
  }

  /** Any sequence of whole steps keeps the list in execution-time order. */
  lemma {:induction false} RunSorted(l: JobList, es: seq<Event>)
    requires Valid(l) && Sorted(l.jobs)
    ensures Sorted(Run(l, es).list.jobs)
    decreases |es|
  {
    if es != [] {
      StepSorted(l, es[0]);
      RunSorted(Step(l, es[0]).list, es[1..]);
    }
  }

  /** The submissions in `es` carry clock readings that never go backwards
      and start no earlier than `c`. */
  predicate ClockFrom(es: seq<Event>, c: int)
    decreases |es|
  {
    es == [] ||
    (if es[0].Submit? then c <= es[0].at && ClockFrom(es[1..], es[0].at)
     else ClockFrom(es[1..], c))
  }

  predicate SubmittedBy(s: seq<Job>, c: int) {
    forall i :: 0 <= i < |s| ==> s[i].submitTime <= c
  }

  lemma InsertSubmittedBy(l: JobList, job: Job, c: int)
    requires Valid(l) && SubmittedBy(l.jobs, c) && job.submitTime <= c
    ensures SubmittedBy(InsertJob(l, job).jobs, c)
  {
    var k := InsertIndex(l, job);
    var r := Splice(l.jobs, k, job);
    forall i | 0 <= i < |r|
      ensures r[i].submitTime <= c
    {
      if i < k {
        assert r[i] == l.jobs[i];
      } else if i > k {
        assert r[i] == l.jobs[i - 1];
      }
    }
  }

  /** With a clock that never goes backwards, any sequence of whole steps
      keeps the list in (execution time, submission time) order, so the job
      dispatched or cancelled is always one of the least such among those
      pending. */
  lemma {:induction false} RunKeySorted(l: JobList, es: seq<Event>, c: int)
    requires Valid(l) && KeySorted(l.jobs) && SubmittedBy(l.jobs, c) && ClockFrom(es, c)
    ensures KeySorted(Run(l, es).list.jobs)
    decreases |es|
  {
    if es != [] {
      var c' := StepKeySorted(l, es[0], c);
      RunKeySorted(Step(l, es[0]).list, es[1..], c');
    }
  }

  /** One step of `RunKeySorted`; `c'` bounds the submission times afterwards. */
  lemma StepKeySorted(l: JobList, e: Event, c: int) returns (c': int)
    requires Valid(l) && KeySorted(l.jobs) && SubmittedBy(l.jobs, c)
    requires e.Submit? ==> c <= e.at
    ensures c' == if e.Submit? then e.at else c
    ensures KeySorted(Step(l, e).list.jobs) && SubmittedBy(Step(l, e).list.jobs, c')
  {
    match e
    case Submit(command, delay, at) =>
      var job := SubmittedJob(command, delay, at);
      InsertJobKeySorted(l, job);
      InsertSubmittedBy(l, job, at);
      c' := at;
    case PrintJobs =>
      c' := c;
    case Cancel =>
      DeleteFirstJobSorted(l);
      c' := c;
    case Poll(now) =>
      DeleteFirstJobSorted(l);
      c' := c;
  }

  /** The count after a sequence of steps is the starting count plus the
      submissions minus the jobs handed out. */
  lemma RunCount(l: JobList, es: seq<Event>)
    requires Valid(l)
    ensures Run(l, es).list.numOfJobs + |Run(l, es).removed| == l.numOfJobs + |AllNewJobs(es)|
  {
    var r := Run(l, es);
    assert |multiset(r.list.jobs) + multiset(r.removed)| == |multiset(l.jobs) + multiset(AllNewJobs(es))|;
  }

  /** On a list in execution-time order the dispatcher takes a job exactly
      when some pending job is due. */
  lemma DispatchIffSomeJobDue(l: JobList, now: int)
    requires Valid(l) && Sorted(l.jobs)
    ensures DispatcherStep(l, now).job.Some? <==>
      exists i :: 0 <= i < |l.jobs| && ExecTime(l.jobs[i]) <= now
  {
    if exists i :: 0 <= i < |l.jobs| && ExecTime(l.jobs[i]) <= now {
      var i :| 0 <= i < |l.jobs| && ExecTime(l.jobs[i]) <= now;
      assert ExecTime(l.jobs[0]) <= ExecTime(l.jobs[i]);
    }
  }

  /** On a list in key order the dispatched job has the least
      (execution time, submission time) of all pending jobs. */
  lemma DispatchTakesEarliest(l: JobList, now: int)
    requires Valid(l) && KeySorted(l.jobs)
    ensures DispatcherStep(l, now).job.Some? ==>
      forall i :: 0 <= i < |l.jobs| ==> !KeyLess(l.jobs[i], DispatcherStep(l, now).job.value)
  {
  }

  /** No step hands a job to an executor early: a poll at `now` hands out
      only a job whose delay has elapsed since its submission, and a job
      submitted at `at` with delay `d` is never handed out by a poll before
      `at + d`. */
  lemma PollNeverEarly(l: JobList, e: Event)
    requires Valid(l) && e.Poll?
    ensures Step(l, e).job.Some? ==>
      e.now - Step(l, e).job.value.submitTime >= Step(l, e).job.value.startTime
    ensures forall command, d, at ::
      Step(l, e).job == Some(SubmittedJob(command, d, at)) ==> e.now >= at + d
  {
  }

  /** A lone job is dispatched exactly once its delay has elapsed since its
      submission. */
  lemma DueAfterDelay(j: Job, now: int)
    ensures var l := InsertJob(CreateList(), j);
      DispatcherStep(l, now).job.Some? <==> now - j.submitTime >= j.startTime
  {
  }
}
