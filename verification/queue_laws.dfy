/** What insertion and removal promise about the order of the pending list. */
module QueueLaws {
  import opened Options
  import opened Jobs
  import opened Ordering
  import opened JobQueue

  /** The index at which insertion places the new job, with what its two
      neighbours in the old list satisfy. */
  ghost function InsertIndex(l: JobList, job: Job): (k: nat)
    requires Valid(l)
    ensures k <= |l.jobs| && InsertJob(l, job).jobs == Splice(l.jobs, k, job)
    ensures k > 0 ==> ExecTime(l.jobs[k - 1]) <= ExecTime(job)
    ensures 0 < k < |l.jobs| ==> KeyLess(l.jobs[k - 1], job)
    ensures k < |l.jobs| && Sorted(l.jobs) ==> !KeyLess(l.jobs[k], job)
  {
    var s := l.jobs;
    if l.numOfJobs == 0 then
      InsertSplicesAt(l, job, 0);
      0
    else if ExecTime(job) < ExecTime(s[0]) then
      InsertSplicesAt(l, job, 0);
      0
    else if ExecTime(Last(s)) <= ExecTime(job) then
      InsertSplicesAt(l, job, |s|);
      |s|
    else
      var k := InteriorIndex(s, job);
      assert k > 0 ==> KeyLess(s[k - 1], job);
      k
  }

  /** The empty, head and tail cases of insertion are splices at the front
      or at the back. */
  lemma InsertSplicesAt(l: JobList, job: Job, k: nat)
    requires Valid(l)
    requires k == 0 ==> l.numOfJobs == 0 || ExecTime(job) < ExecTime(l.jobs[0])
    requires k != 0 ==>
      (k == |l.jobs| && l.numOfJobs > 0 &&
       ExecTime(l.jobs[0]) <= ExecTime(job) && ExecTime(Last(l.jobs)) <= ExecTime(job))
    ensures k <= |l.jobs| && InsertJob(l, job).jobs == Splice(l.jobs, k, job)
  {
    if k == 0 {
      assert Splice(l.jobs, 0, job) == [job] + l.jobs;
    } else {
      assert Splice(l.jobs, k, job) == l.jobs + [job];
    }
  }

  /** Insertion adds the new job at one place and leaves every job already
      pending in its old relative order. */
  lemma InsertJobKeepsOrder(l: JobList, job: Job)
    requires Valid(l)
    ensures exists k :: 0 <= k <= |l.jobs| && InsertJob(l, job).jobs == Splice(l.jobs, k, job)
  {
    var k := InsertIndex(l, job);
  }

  /** Insertion keeps execution times non-decreasing along the list. */
  lemma InsertJobSorted(l: JobList, job: Job)
    requires Valid(l) && Sorted(l.jobs)
    ensures Sorted(InsertJob(l, job).jobs)
  {
    SpliceSorted(l.jobs, InsertIndex(l, job), job);
  }

  /** On a list in (execution time, submission time) order, the interior
      index is exactly the number of jobs that come strictly before the new
      one: a pending job precedes the new job if and only if it is keyed
      strictly before it. */
  lemma InteriorIndexIsRank(s: seq<Job>, job: Job)
    requires Interior(s, job) && KeySorted(s)
    ensures forall i :: 0 <= i < |s| ==> (KeyLess(s[i], job) <==> i < InteriorIndex(s, job))
  {
    KeySortedIsSorted(s);
    var k := InteriorIndex(s, job);
    forall i | k <= i < |s|
      ensures !KeyLess(s[i], job)
    {
      if i > k {
        assert !KeyLess(s[i], s[k]);
      }
    }
  }

  /** Where an interior insertion puts the new job on a sorted list: after
      every job due earlier and every tied job submitted earlier that the
      scan stepped over, and in front of the first job due later or tied and
      submitted no earlier. Everything after it is due no earlier. */
  lemma InteriorPlacement(l: JobList, job: Job)
    requires Valid(l) && Sorted(l.jobs) && Interior(l.jobs, job)
    ensures var r := InsertJob(l, job).jobs; var k := InteriorIndex(l.jobs, job);
      && r[k] == job
      && (forall i :: 0 <= i < k ==> KeyLess(r[i], job))
      && !KeyLess(r[k + 1], job)
      && (forall i :: k < i < |r| ==> ExecTime(job) <= ExecTime(r[i]))
      && (forall i :: 0 <= i < |l.jobs| && ExecTime(l.jobs[i]) < ExecTime(job) ==> i < k)
  {
    var s := l.jobs;
    var r := InsertJob(l, job).jobs;
    var k := InteriorIndex(s, job);
    assert r == Splice(s, k, job);
    forall i | k < i < |r|
      ensures ExecTime(job) <= ExecTime(r[i])
    {
      assert r[i] == s[i - 1];
      assert ExecTime(s[k]) <= ExecTime(s[i - 1]);
    }
  }

  /** When every pending job was submitted no later than the new one,
      insertion also keeps the (execution time, submission
      time) order; ties with the tail go after it. */
  lemma InsertJobKeySorted(l: JobList, job: Job)
    requires Valid(l) && KeySorted(l.jobs)
    requires forall i :: 0 <= i < |l.jobs| ==> l.jobs[i].submitTime <= job.submitTime
    ensures KeySorted(InsertJob(l, job).jobs)
  {
    KeySortedIsSorted(l.jobs);
    var k := InsertIndex(l, job);
    if k > 0 {
      assert l.jobs[k - 1].submitTime <= job.submitTime;
      assert !KeyLess(job, l.jobs[k - 1]);
    }
    SpliceKeySorted(l.jobs, k, job);
  }

  /** Removing the head keeps both orders. */
  lemma DeleteFirstJobSorted(l: JobList)
    requires Valid(l)
    ensures Sorted(l.jobs) ==> Sorted(DeleteFirstJob(l).list.jobs)
    ensures KeySorted(l.jobs) ==> KeySorted(DeleteFirstJob(l).list.jobs)
  {
  }

  /** On a list in key order the head is a job with the least
      (execution time, submission time) of all pending jobs. */
  lemma HeadIsEarliest(s: seq<Job>)
    requires KeySorted(s) && |s| > 0
    ensures forall i :: 0 <= i < |s| ==> !KeyLess(s[i], s[0])
  {
  }

  /** Inserting into an empty list and taking the head back returns the job
      and leaves an empty list. */
  lemma InsertThenDeleteFirst(l: JobList, job: Job)
    requires Valid(l) && l.numOfJobs == 0
    ensures DeleteFirstJob(InsertJob(l, job)).job == Some(job)
    ensures DeleteFirstJob(InsertJob(l, job)).list.jobs == []
    ensures DeleteFirstJob(InsertJob(l, job)).list.numOfJobs == 0
  {
  }
}
