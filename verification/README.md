# JobScheduler pending list, modelled in Dafny

This project models the core of a small batch job dispatcher written in C. An
operator submits jobs, each a command vector and a delay in seconds. A
scheduler thread stamps each job with the current clock reading and inserts it
into a singly linked pending list. The list is kept in order of execution time,
which is submission time plus delay. A dispatcher thread polls the head of the
list and, once the head is due, unlinks it and hands it to an executor thread.
The operator can also cancel the earliest pending job.

The model covers the list itself and the two decisions made over it:

- `Jobs`: the job record and its execution time.
- `Ordering`: the two orders a list can be in, and splicing one job in.
  `Sorted` orders by execution time. `KeySorted` orders by execution time and
  then submission time.
- `JobQueue`: the list record, with its chain of jobs, its count and its tail
  pointer. Also every list operation: creation, append, the four insertion
  cases and deletion of the head. The two forward scans of the interior
  insertion are recursive functions. They carry the "previous position"
  explicitly, with `None` standing for a `prevPos` that was never assigned.
- `QueueLaws`: lemmas relating insertion and removal to both orders.
- `Threads`: one step of the dispatcher loop, the cancel branch of the
  scheduler, submission, and runs of whole steps that conserve jobs.
- `Scenarios`: concrete lists showing how the source breaks ties.

The clock is a parameter (`now` for the dispatcher, `at` for a submission).
The command vector is carried as opaque payload.

The count and the tail pointer are separate fields, as in the source. `Valid`
says the count equals the number of linked jobs and that the tail pointer
names the last job whenever the list is non-empty. Removing the head never
updates the tail pointer. So an emptied list keeps a stale tail pointer, which
the model keeps too. This is harmless: the tail is read only when the count is
non-zero.

How the code breaks ties, and what it does not promise:
- A job that ties with the tail on execution time goes after the tail,
  whatever the submission times (`Scenarios.TailTieOrder`). So jobs A (due
  100, submitted 20), B (due 100, submitted 10) and C (due 50), inserted in
  that order, are dispatched C, A, B (`Scenarios.TailTieDispatch`). B is
  dispatched after A although it was submitted earlier.
- An interior job that ties on both keys goes in front of the existing job
  (`Scenarios.TieGoesInFront`). So the insertion is not stable.
- Order by both keys holds as long as submission times never go backwards
  (`Threads.RunKeySorted`). That holds as long as the wall clock is never set
  back; the source neither guarantees nor checks this.
- The code has no locking between the two threads, and the model takes each
  step as a whole.
- The interior insertion can reach undefined behaviour (see "## Findings").
  `JobQueue.InsertJobAsWritten` models insertion as written, including that
  outcome. `JobQueue.InsertJob` and everything built on it use the corrected
  interior insertion.

## Model

| member | source | states |
|---|---|---|
| `JobQueue.CreateList` | JobScheduler.c:59-65 | a new list is empty, has count 0 and satisfies the count/tail invariant |
| `Jobs.ExecTime` | JobScheduler.c:83-85 | a job's execution time is its submission time plus its delay, so it is due no earlier than its submission exactly when the delay is non-negative |
| `JobQueue.AppendJob` | JobScheduler.c:126-136 | the job becomes the new tail after all existing jobs, the count goes up by one, and the invariant is kept |
| `JobQueue.InsertIntoEmpty` | JobScheduler.c:138-140 | inserting into an empty list gives the one-job list, with head and tail both the job and count 1 |
| `JobQueue.InsertFirstJob` | JobScheduler.c:142-145 | the job is linked in front of the old chain, which follows it unchanged; the count and the tail pointer are not touched |
| `JobQueue.InsertLastJob` | JobScheduler.c:147-151 | the job is linked after the old chain, which precedes it unchanged, and becomes the tail; the count is not touched |
| `JobQueue.ScanExecTime` | JobScheduler.c:109-115 | the first scan stops at the first job due no earlier than the new job, stepping only over jobs due strictly earlier, and never passes the end while the tail is due no earlier; the previous position is the one before the stop, or is still unassigned if no step was taken |
| `JobQueue.SubmitTimes` | JobScheduler.c:87-103 | if the current job was submitted no earlier, the incoming previous position is returned unchanged (possibly unassigned); otherwise it returns the last job stepped over, every job stepped over is due no later and was submitted strictly earlier, and the next job is due later or was submitted no earlier; it never walks off the end |
| `JobQueue.InteriorAnchor` | JobScheduler.c:105-119 | the position linked after is unassigned exactly when the head ties with the new job on execution time and was submitted no earlier; otherwise every job up to that position comes strictly before the new job by key, and on a sorted list the next one does not |
| `JobQueue.InteriorIndex` | JobScheduler.c:105-123 | the interior insertion index is inside the list, is 0 only in the tie-at-head case, has only strictly key-earlier jobs before it, and on a sorted list points at a job that is not key-earlier |
| `JobQueue.InsertBetweenJobsAsWritten` | JobScheduler.c:105-124 | the source's interior insertion is undefined behaviour exactly when the head ties on both keys with the new job, and otherwise agrees with the corrected insertion |
| `JobQueue.InsertBetweenJobs` | JobScheduler.c:105-124 | the corrected interior insertion adds exactly the new job, keeps count and tail, and preserves execution-time order |
| `JobQueue.InteriorSpliceSorted` | JobScheduler.c:116-123 | splicing at the interior index keeps the old tail last and keeps a sorted list sorted |
| `JobQueue.InsertJob` | JobScheduler.c:153-170 | insertion keeps the invariant and raises the count by exactly one; the jobs become the old jobs plus the new one as a multiset; an empty list becomes the one-job list; a job due before the head becomes the head in front of the unchanged list; a job due no earlier than the tail becomes the tail after the unchanged list; otherwise it is spliced at the interior index |
| `JobQueue.InsertJobAsWritten` | JobScheduler.c:153-170 | insertion as written is undefined behaviour exactly when it takes the interior case and the head ties with the new job on both keys; otherwise it gives the same list as `InsertJob` |
| `JobQueue.DeleteFirstJob` | JobScheduler.c:172-181 | on an empty list nothing is returned and the list is unchanged; otherwise the old head is returned, the rest of the chain remains, and the count drops by one; the returned job followed by the remaining jobs is the old list |
| `QueueLaws.InsertIndex` | JobScheduler.c:153-170 | insertion is a splice at one index; the old job before that index is due no later than the new job, and is keyed strictly before it unless the job went to the tail; on a sorted list the old job at that index is not keyed before the new one |
| `QueueLaws.InsertSplicesAt` | JobScheduler.c:138-151 | inserting into an empty list, in front of a later head, or behind a tail due no later, splices the job at the front or at the back |
| `QueueLaws.InsertJobKeepsOrder` | JobScheduler.c:153-170 | insertion puts the new job at one index and keeps all existing jobs in their old relative order |
| `QueueLaws.InsertJobSorted` | JobScheduler.c:153-170 | insertion preserves non-decreasing execution times along the list |
| `QueueLaws.InteriorIndexIsRank` | JobScheduler.c:87-124 | on a list in key order, a pending job lies before the interior insertion point if and only if it is keyed strictly before the new job |
| `QueueLaws.InteriorPlacement` | JobScheduler.c:105-124 | on a sorted list an interior insert goes after every job due earlier and every scanned tie submitted earlier, in front of the first job due later or tied and submitted no earlier, with only jobs due no earlier after it |
| `QueueLaws.InsertJobKeySorted` | JobScheduler.c:153-170 | if no pending job was submitted after the new one, insertion preserves order by (execution time, submission time) |
| `QueueLaws.DeleteFirstJobSorted` | JobScheduler.c:172-181 | removing the head preserves both orders |
| `QueueLaws.HeadIsEarliest` | JobScheduler.c:172-177 | on a list in key order the head has the least key among pending jobs |
| `QueueLaws.InsertThenDeleteFirst` | JobScheduler.c:153-181 | removing the head of a list that got its one job while empty returns that job and leaves an empty list with count 0 |
| `Threads.DispatcherStep` | JobScheduler.c:217-233 | the dispatcher takes a job exactly when the count is positive and the head is due at `now`; that job is the old head and the rest of the list remains, with the count one lower; otherwise the list is untouched |
| `Threads.CancelStep` | JobScheduler.c:248-253 | cancel on an empty list reports nothing and changes nothing; otherwise the job reported by the print step is exactly the head, and it is the only job removed |
| `Threads.Step` | JobScheduler.c:236-253 | one scheduler or dispatcher step keeps the invariant, and jobs pending after it plus the job handed out equal jobs pending before plus the job submitted |
| `Threads.Run` | JobScheduler.c:217-255 | over any sequence of whole steps, pending jobs plus handed-out jobs equal the initial jobs plus the submitted ones |
| `Threads.RunCount` | JobScheduler.c:135 | after any sequence of steps the count is the initial count plus the submissions minus the jobs handed out |
| `Threads.StepSorted` | JobScheduler.c:236-253 | every step preserves execution-time order |
| `Threads.RunSorted` | JobScheduler.c:217-255 | any sequence of whole steps preserves execution-time order |
| `Threads.InsertSubmittedBy` | JobScheduler.c:153-170 | insertion keeps an upper bound on submission times when the new job is within it |
| `Threads.StepKeySorted` | JobScheduler.c:236-253 | with a clock that does not go backwards, each step preserves key order and the bound on submission times |
| `Threads.RunKeySorted` | JobScheduler.c:217-255 | with a clock that never goes backwards, any sequence of steps preserves order by (execution time, submission time) |
| `Threads.DispatchIffSomeJobDue` | JobScheduler.c:221-225 | on a sorted list the dispatcher takes a job if and only if some pending job is due |
| `Threads.DispatchTakesEarliest` | JobScheduler.c:221-225 | on a list in key order the dispatched job has the least key among pending jobs |
| `Threads.PollNeverEarly` | JobScheduler.c:221-225 | a poll at `now` hands out only a job whose delay has elapsed since its submission; a job submitted at `at` with delay `d` is never handed out before `at + d` |
| `Threads.DueAfterDelay` | JobScheduler.c:83-85 | a lone job is dispatched exactly once its delay has elapsed since submission; its execution time is submission time plus delay |
| `Scenarios.UninitialisedPrevPosExample` | JobScheduler.c:105-118 | jobs due 105 and 110, both submitted at 100, plus a new job submitted at 100 with delay 5: the insertion reaches the interior case and is undefined as written; the corrected insertion puts it at the head |
| `Scenarios.TieGoesInFront` | JobScheduler.c:87-103 | a new job tying on both keys with an interior job is placed in front of it |
| `Scenarios.TailTieOrder` | JobScheduler.c:153-170 | jobs A, B (due 100, B submitted earlier) and C (due 50), inserted in that order, are listed C, A, B |
| `Scenarios.TailTieDispatch` | JobScheduler.c:217-233 | three dispatcher steps at time 100 hand out C, A, B in list order and empty the list |

## Left out

- Threads and the unsynchronised sharing of the list (JobScheduler.c:257-264): each scheduler or dispatcher step is taken as one atomic transition. The source has no locking, so interleavings inside a step are not modelled.
- `execute` (JobScheduler.c:203-215): `fork`, `execvp` and `waitpid` are operating-system calls. The model only records which job is handed to an executor.
- `createJob` (JobScheduler.c:67-81): parsing with `scanf` is input. A submission takes the command vector and the delay as parameters. When five tokens are given, `command[5] = NULL` writes past the end of the array. This is not modelled.
- `printJob`, `printJobs`, the `'p'` command and the printing half of `deletePrint`: console output. The cancel step returns the job that would be printed.
- `freeJob` and `freeCharArray` (JobScheduler.c:183-201): manual memory management. The loop condition of `freeCharArray` is inverted (`== NULL`), so the command strings are not freed.
- `time(NULL)` and `sleep(1)`: the clock is a parameter, and the polling delay is dropped.
- Jobs.ExecTime: does not model 64-bit `long` overflow of `submitTime + startTime`. Times are unbounded integers, and signed overflow is undefined in C anyway. The `int` count is likewise unbounded.
- Threads.StepKeySorted: key order is proved only for runs whose submission times never go backwards. That holds as long as the wall clock read by `time(NULL)` (JobScheduler.c:78) is never set back; the source neither guarantees nor checks this. Without it, a tail tie can break key order.
- JobQueue.InsertJob: uses the corrected interior insertion, which links a job that ties with the head on both keys in front of the head. The source reaches undefined behaviour there (see "## Findings"); `JobQueue.InsertJobAsWritten` models that. `Threads.Step`, `Threads.Run`, `Threads.RunSorted`, `Threads.RunCount` and `Threads.RunKeySorted` are built on `InsertJob`, so they describe the corrected program.

## Findings

| source | as written | input that shows it | evidently intended | confidence | as-written member | corrected member |
|---|---|---|---|---|---|---|
| JobScheduler.c:105-118 | `prevPos` is never initialised. When the head's execution time equals the new job's and the head was submitted no earlier, neither scan assigns it, and line 118 dereferences it | list of jobs due 105 and 110, both submitted at 100; insert a job submitted at 100 with delay 5 | `prevPos` starts as "before the head" and the job is linked in front of the head, matching the rule that a tie goes in front of the first tied job submitted no earlier | medium, not executed | `JobQueue.InsertBetweenJobsAsWritten` | `JobQueue.InsertBetweenJobs` |
