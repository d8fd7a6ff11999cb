/** The scheduler's pending list: a singly linked list of jobs kept in order of
    execution time, with a job count and head and tail pointers. The chain of
    `next` links is the sequence `jobs`; the head pointer is `jobs[0]` (no head
    when `jobs` is empty). The count and the tail pointer are kept as separate
    fields because the source maintains them separately. */
module JobQueue {
  import opened Options
  import opened Jobs
  import opened Ordering

  datatype JobList = JobList(jobs: seq<Job>, numOfJobs: int, lastJob: Option<Job>)

  /** A job taken off the list (None when there was none), and the list after. */
  datatype Taken = Taken(job: Option<Job>, list: JobList)

  /** Outcome of a step whose source can reach undefined behaviour. */
  datatype Outcome = Defined(list: JobList) | UndefinedBehaviour

  /** The count matches the chain, and a non-empty list's tail pointer is its
      last job. An empty list may keep a stale tail pointer. */
  predicate Valid(l: JobList) {
    && l.numOfJobs == |l.jobs|
    && (|l.jobs| > 0 ==> l.lastJob == Some(Last(l.jobs)))
  }

  function CreateList(): (l: JobList)
    ensures Valid(l) && l.numOfJobs == 0 && l.jobs == []
  {
    JobList([], 0, None)
  }

  /** Links the job after the tail (or makes it the only job of an empty
      chain), moves the tail pointer to it, and counts it. */
  function AppendJob(l: JobList, job: Job): (r: JobList)
    requires Valid(l)
    ensures Valid(r)
    ensures r.numOfJobs == l.numOfJobs + 1 && Last(r.jobs) == job
    ensures r.jobs[..|l.jobs|] == l.jobs
  {
    JobList(l.jobs + [job], l.numOfJobs + 1, Some(job))
  }

  function InsertIntoEmpty(l: JobList, job: Job): (r: JobList)
    requires Valid(l) && l.numOfJobs == 0
    ensures Valid(r) && r.jobs == [job] && r.lastJob == Some(job) && r.numOfJobs == 1
  {
    AppendJob(l, job)
  }

  /** Links the job in front of the head. Neither the count nor the tail
      pointer is touched. */
  function InsertFirstJob(l: JobList, job: Job): (r: JobList)
    ensures r.jobs == [job] + l.jobs && r.jobs[0] == job && r.jobs[1..] == l.jobs
    ensures r.numOfJobs == l.numOfJobs && r.lastJob == l.lastJob
  {
    l.(jobs := [job] + l.jobs)
  }

  /** Links the job after the tail and moves the tail pointer to it. The count
      is not touched. */
  function InsertLastJob(l: JobList, job: Job): (r: JobList)
    requires l.lastJob.Some?
    ensures r.jobs == l.jobs + [job] && Last(r.jobs) == job && r.jobs[..|l.jobs|] == l.jobs
    ensures r.lastJob == Some(job) && r.numOfJobs == l.numOfJobs
  {
    l.(jobs := l.jobs + [job], lastJob := Some(job))
  }

  /** Where the forward scan of the interior insertion stopped: the current
      position and the previous one (None while the previous position has
      never been assigned). */
  datatype Scan = Scan(cur: nat, prev: Option<nat>)

  /** The first loop of the interior insertion: step forward while the current
      job is due strictly before `t`. */
  function ScanExecTime(s: seq<Job>, t: int, cur: nat, prev: Option<nat>): (r: Scan)
    requires cur < |s| && t <= ExecTime(Last(s))
    ensures cur <= r.cur < |s| && t <= ExecTime(s[r.cur])
    ensures forall i :: cur <= i < r.cur ==> ExecTime(s[i]) < t
    ensures r.cur == cur ==> r.prev == prev
    ensures r.cur > cur ==> r.prev == Some(r.cur - 1)
    decreases |s| - cur
  {
    if ExecTime(s[cur]) < t then ScanExecTime(s, t, cur + 1, Some(cur))
    else Scan(cur, prev)
  }

  /** The tie-breaking scan: starting at a job due no later than `job`, step
      forward while the current job was submitted strictly earlier than `job`,
      stopping early at the first job due after `job`. Returns the position the
      new job is to be linked after: the last one stepped over, or `prev`
      unchanged when no step was taken. */
  function SubmitTimes(job: Job, s: seq<Job>, cur: nat, prev: Option<nat>): (r: Option<nat>)
    requires cur < |s| && ExecTime(s[cur]) <= ExecTime(job) < ExecTime(Last(s))
    ensures s[cur].submitTime >= job.submitTime ==> r == prev
    ensures s[cur].submitTime < job.submitTime ==>
      && r.Some? && cur <= r.value < |s| - 1
      && (forall i :: cur <= i <= r.value ==>
            ExecTime(s[i]) <= ExecTime(job) && s[i].submitTime < job.submitTime)
      && (ExecTime(job) < ExecTime(s[r.value + 1]) || job.submitTime <= s[r.value + 1].submitTime)
    decreases |s| - cur
  {
    if s[cur].submitTime < job.submitTime then
      if ExecTime(s[cur + 1]) > ExecTime(job) then Some(cur)
      else SubmitTimes(job, s, cur + 1, Some(cur))
    else prev
  }

  /** The case the dispatch of `InsertJob` hands to the interior insertion:
      the new job is due no earlier than the head and strictly before the tail. */
  predicate Interior(s: seq<Job>, job: Job) {
    |s| > 0 && ExecTime(s[0]) <= ExecTime(job) < ExecTime(Last(s))
  }

  /** The head ties with `job` on both keys, in which case the interior
      insertion reaches its link step with `prevPos` never assigned. */
  predicate HeadTies(s: seq<Job>, job: Job)
    requires |s| > 0
  {
    ExecTime(s[0]) == ExecTime(job) && s[0].submitTime >= job.submitTime
  }

  /** The position the interior insertion links the new job after; None when
      that position is the never-assigned `prevPos`. */
  function InteriorAnchor(s: seq<Job>, job: Job): (r: Option<nat>)
    requires Interior(s, job)
    ensures r.None? <==> HeadTies(s, job)
    ensures r.Some? ==> r.value + 1 < |s|
    ensures r.Some? ==> forall i :: 0 <= i <= r.value ==> KeyLess(s[i], job)
    ensures r.Some? && Sorted(s) ==> !KeyLess(s[r.value + 1], job)
  {
    var scan := ScanExecTime(s, ExecTime(job), 0, None);
    if ExecTime(s[scan.cur]) == ExecTime(job) then
      SubmitTimes(job, s, scan.cur, scan.prev)
    else
      scan.prev
  }

  /** The interior insertion as written: linking after a never-assigned
      `prevPos` is undefined behaviour. */
  function InsertBetweenJobsAsWritten(l: JobList, job: Job): (r: Outcome)
    requires Interior(l.jobs, job)
    ensures r.UndefinedBehaviour? <==> HeadTies(l.jobs, job)
    ensures r.Defined? ==> r.list == InsertBetweenJobs(l, job)
  {
    match InteriorAnchor(l.jobs, job)
    case None => UndefinedBehaviour
    case Some(p) => Defined(l.(jobs := Splice(l.jobs, p + 1, job)))
  }

  /** The index the new job takes in the interior case, with `prevPos`
      starting out as "before the head". On a sorted list it is the first job
      that does not come strictly before the new job by (execution time,
      submission time). */
  function InteriorIndex(s: seq<Job>, job: Job): (k: nat)
    requires Interior(s, job)
    ensures k < |s|
    ensures k == 0 <==> HeadTies(s, job)
    ensures forall i :: 0 <= i < k ==> KeyLess(s[i], job)
    ensures Sorted(s) ==> !KeyLess(s[k], job)
  {
    match InteriorAnchor(s, job)
    case None => 0
    case Some(p) => p + 1
  }

  /** The interior insertion, corrected so that a never-assigned `prevPos`
      means "link in front of the head". It never moves the tail and never
      breaks the execution-time order. */
  function InsertBetweenJobs(l: JobList, job: Job): (r: JobList)
    requires Interior(l.jobs, job)
    ensures r.numOfJobs == l.numOfJobs && r.lastJob == l.lastJob
    ensures |r.jobs| == |l.jobs| + 1 && Last(r.jobs) == Last(l.jobs)
    ensures multiset(r.jobs) == multiset(l.jobs) + multiset{job}
    ensures Sorted(l.jobs) ==> Sorted(r.jobs)
  {
    InteriorSpliceSorted(l.jobs, job);
    l.(jobs := Splice(l.jobs, InteriorIndex(l.jobs, job), job))
  }

  lemma InteriorSpliceSorted(s: seq<Job>, job: Job)
    requires Interior(s, job)
    ensures Last(Splice(s, InteriorIndex(s, job), job)) == Last(s)
    ensures Sorted(s) ==> Sorted(Splice(s, InteriorIndex(s, job), job))
  {
    var k := InteriorIndex(s, job);
    assert Splice(s, k, job)[|s|] == s[|s| - 1];
    if Sorted(s) {
      if k > 0 {
        assert KeyLess(s[k - 1], job);
      }
      assert !KeyLess(s[k], job);
      SpliceSorted(s, k, job);
    }
  }

  /** Insertion of a new job, dispatched on the count and on the execution
      times at the head and at the tail pointer. */
  function InsertJob(l: JobList, job: Job): (r: JobList)
    requires Valid(l)
    ensures Valid(r)
    ensures r.numOfJobs == l.numOfJobs + 1
    ensures multiset(r.jobs) == multiset(l.jobs) + multiset{job}
    ensures l.numOfJobs == 0 ==> r.jobs == [job] && r.lastJob == Some(job)
    ensures l.numOfJobs > 0 && ExecTime(job) < ExecTime(l.jobs[0]) ==>
      r.jobs == [job] + l.jobs
    ensures l.numOfJobs > 0 && ExecTime(l.jobs[0]) <= ExecTime(job) && ExecTime(Last(l.jobs)) <= ExecTime(job) ==>
      r.jobs == l.jobs + [job] && r.lastJob == Some(job)
    ensures Interior(l.jobs, job) ==>
      r.jobs == Splice(l.jobs, InteriorIndex(l.jobs, job), job)
  {
    if l.numOfJobs == 0 then
      assert [job] == Splice(l.jobs, 0, job);
      InsertIntoEmpty(l, job)
    else
      var t := ExecTime(job);
      var linked :=
        if t < ExecTime(l.jobs[0]) then
          assert [job] + l.jobs == Splice(l.jobs, 0, job);
          InsertFirstJob(l, job)
        else if t >= ExecTime(l.lastJob.value) then
          assert l.jobs + [job] == Splice(l.jobs, |l.jobs|, job);
          InsertLastJob(l, job)
        else
          InsertBetweenJobs(l, job);
      linked.(numOfJobs := linked.numOfJobs + 1)
  }

  /** Insertion as written: the interior case can reach undefined behaviour,
      and in every other case it agrees with `InsertJob`. */
  function InsertJobAsWritten(l: JobList, job: Job): (r: Outcome)
    requires Valid(l)
    ensures r.UndefinedBehaviour? <==> Interior(l.jobs, job) && HeadTies(l.jobs, job)
    ensures r.Defined? ==> r.list == InsertJob(l, job)
  {
    if l.numOfJobs > 0 && ExecTime(l.jobs[0]) <= ExecTime(job) < ExecTime(l.lastJob.value) then
      match InsertBetweenJobsAsWritten(l, job)
      case UndefinedBehaviour => UndefinedBehaviour
      case Defined(linked) => Defined(linked.(numOfJobs := linked.numOfJobs + 1))
    else
      Defined(InsertJob(l, job))
  }

  /** Unlinks the head and uncounts it; an empty list is left as it is. The
      tail pointer is never touched, so it goes stale when the last job leaves. */
  function DeleteFirstJob(l: JobList): (r: Taken)
    requires Valid(l)
    ensures Valid(r.list)
    ensures l.numOfJobs == 0 ==> r.job.None? && r.list == l
    ensures l.numOfJobs != 0 ==>
      && r.job == Some(l.jobs[0])
      && r.list.jobs == l.jobs[1..]
      && r.list.numOfJobs == l.numOfJobs - 1
      && r.list.lastJob == l.lastJob
    ensures ToSeq(r.job) + r.list.jobs == l.jobs
  {
    if l.numOfJobs != 0 then
      Taken(Some(l.jobs[0]), l.(jobs := l.jobs[1..], numOfJobs := l.numOfJobs - 1))
    else
      Taken(None, l)
  }
}
