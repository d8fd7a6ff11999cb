/** Concrete runs that pin down how the source breaks ties. */
module Scenarios {
  import opened Options
  import opened Jobs
  import opened Ordering
  import opened JobQueue
  import opened Threads

  /** Two jobs due at 105 and 110, both submitted at 100; a third job
      submitted at 100 with delay 5 ties with the head on both keys. The
      dispatch of the insertion routes it to the interior case, where the
      source links it after a `prevPos` that was never assigned. The corrected
      insertion puts it in front of the head. */
  lemma UninitialisedPrevPosExample()
    ensures var a := Job(["a"], 100, 5);
            var b := Job(["b"], 100, 10);
            var c := Job(["c"], 100, 5);
            var l := JobList([a, b], 2, Some(b));
      && Valid(l) && Sorted(l.jobs)
      && !(ExecTime(c) < ExecTime(l.jobs[0])) && !(ExecTime(c) >= ExecTime(l.lastJob.value))
      && InsertBetweenJobsAsWritten(l, c) == UndefinedBehaviour
      && InsertJobAsWritten(l, c) == UndefinedBehaviour
      && InsertJob(l, c).jobs == [c, a, b]
  {
    var a := Job(["a"], 100, 5);
    var b := Job(["b"], 100, 10);
    var c := Job(["c"], 100, 5);
    var l := JobList([a, b], 2, Some(b));
    assert HeadTies(l.jobs, c);
    assert InteriorIndex(l.jobs, c) == 0;
  }

  /** The tie-break is not stable: a new job that ties on both keys with an
      interior job goes in front of it, although that job was inserted first. */
  lemma TieGoesInFront()
    ensures var x := Job(["x"], 0, 10);
            var y := Job(["y"], 5, 15);
            var z := Job(["z"], 0, 30);
            var w := Job(["w"], 5, 15);
            var l := JobList([x, y, z], 3, Some(z));
      Valid(l) && InsertJob(l, w).jobs == [x, w, y, z]
  {
    var x := Job(["x"], 0, 10);
    var y := Job(["y"], 5, 15);
    var z := Job(["z"], 0, 30);
    var w := Job(["w"], 5, 15);
    var s := [x, y, z];
    assert ScanExecTime(s, 20, 1, Some(0)) == Scan(1, Some(0));
    assert ScanExecTime(s, 20, 0, None) == Scan(1, Some(0));
    assert InteriorAnchor(s, w) == Some(0);
    assert Splice(s, 1, w) == [x, w, y, z];
  }

  /** Jobs A and B both due at 100, B submitted earlier, and C due at 50,
      submitted in the order A, B, C: B ties with the tail A and so goes after
      it, and the list holds them, in dispatch order, as C, A, B. */
  lemma TailTieOrder()
    ensures var a := Job(["a"], 20, 80);
            var b := Job(["b"], 10, 90);
            var c := Job(["c"], 0, 50);
      InsertJob(InsertJob(InsertJob(CreateList(), a), b), c).jobs == [c, a, b]
  {
    var a := Job(["a"], 20, 80);
    var b := Job(["b"], 10, 90);
    var c := Job(["c"], 0, 50);
    var l1 := InsertJob(CreateList(), a);
    assert l1.jobs == [a] && l1.lastJob == Some(a);
    var l2 := InsertJob(l1, b);
    assert l2.jobs == [a, b];
  }

  /** Three dispatcher steps at 100 hand the jobs of `TailTieOrder` to
      executors in list order and leave the list empty. */
  lemma TailTieDispatch()
    ensures var a := Job(["a"], 20, 80);
            var b := Job(["b"], 10, 90);
            var c := Job(["c"], 0, 50);
            var p1 := DispatcherStep(JobList([c, a, b], 3, Some(b)), 100);
            var p2 := DispatcherStep(p1.list, 100);
            var p3 := DispatcherStep(p2.list, 100);
      && p1.job == Some(c) && p2.job == Some(a) && p3.job == Some(b)
      && p3.list.jobs == []
  {
    var a := Job(["a"], 20, 80);
    var b := Job(["b"], 10, 90);
    var c := Job(["c"], 0, 50);
    var p1 := DispatcherStep(JobList([c, a, b], 3, Some(b)), 100);
    assert p1.list.jobs == [a, b];
    var p2 := DispatcherStep(p1.list, 100);
    assert p2.list.jobs == [b];
  }
}
