/** Jobs as the scheduler keeps them, and the time at which each becomes due. */
module Jobs {

  /** One submitted job. `command` is the argument vector later handed to the
      process launcher; it is carried along but never inspected. `submitTime` is
      the clock reading taken when the job was read. `startTime` is, despite its
      name, a delay: the number of seconds after `submitTime` at which the job
      may run. */
  datatype Job = Job(command: seq<string>, submitTime: int, startTime: int)

  /** The absolute instant at which a job becomes due: its submission time plus
      its delay, with no other adjustment. */
  function ExecTime(j: Job): (t: int)
    ensures t >= j.submitTime <==> j.startTime >= 0
    ensures t - j.submitTime == j.startTime
  {
    j.submitTime + j.startTime
  }

  /** `a` comes strictly before `b` when jobs are keyed by execution time first
      and submission time second. */
  predicate KeyLess(a: Job, b: Job) {
    || ExecTime(a) < ExecTime(b)
    || (ExecTime(a) == ExecTime(b) && a.submitTime < b.submitTime)
  }
}
