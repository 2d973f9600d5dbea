/**
  The round-robin order in which `simulate` (vmsim_main.c) runs processes, as a
  value. A process is summarised as a job: its pid and how many more `execute`
  calls it needs after the next one. Every pass over the list runs each job once,
  in list order, and drops the jobs that finish; the schedule is the sequence of
  pids in the order they run until the list is empty.
 */
module RoundRobin {

  /** A process in the list: it still needs `rest + 1` calls of `execute`. */
  datatype Job = Job(pid: int, rest: nat)

  /** Calls of `execute` the jobs still need, all together. */
  function Total(q: seq<Job>): (t: nat)
    ensures t >= |q|
    ensures t == 0 <==> q == []
  {
    if q == [] then 0 else q[0].rest + 1 + Total(q[1..])
  }

  /** The pids of the jobs, in list order. */
  function Pids(q: seq<Job>): (r: seq<int>)
    ensures |r| == |q|
    ensures forall i :: 0 <= i < |q| ==> r[i] == q[i].pid
  {
    if q == [] then [] else [q[0].pid] + Pids(q[1..])
  }

  /** The list after one pass: each job has run once; the finished ones are
      unlinked and the others keep their relative order. */
  function Survivors(q: seq<Job>): (r: seq<Job>)
    ensures Total(r) + |q| == Total(q)
    ensures |r| <= |q|
  {
    if q == [] then []
    else if q[0].rest == 0 then Survivors(q[1..])
    else
      var s := Survivors(q[1..]);
      assert ([Job(q[0].pid, q[0].rest - 1)] + s)[1..] == s;
      [Job(q[0].pid, q[0].rest - 1)] + s
  }

  /** The pids in the order `simulate` runs them: one pass, then the schedule of
      what survives it. */
  function Schedule(q: seq<Job>): (r: seq<int>)
    decreases Total(q)
    ensures |r| >= |q|
    ensures r == [] <==> q == []
    ensures Pids(q) <= r
  {
    if q == [] then [] else Pids(q) + Schedule(Survivors(q))
  }

  /** One pass over a list with a job in front: that job first, then the rest. */
  lemma SurvivorsCons(j: Job, q: seq<Job>)
    ensures Survivors([j] + q) == (if j.rest == 0 then [] else [Job(j.pid, j.rest - 1)]) + Survivors(q)
  {
    assert ([j] + q)[0] == j;
    assert ([j] + q)[1..] == q;
  }

  lemma AppendAssoc<T>(x: seq<T>, y: seq<T>, z: seq<T>)
    ensures x + (y + z) == (x + y) + z
  {
  }

  lemma {:induction false} SurvivorsAppend(a: seq<Job>, b: seq<Job>)
    ensures Survivors(a + b) == Survivors(a) + Survivors(b)
  {
    if a != [] {
      var head := if a[0].rest == 0 then [] else [Job(a[0].pid, a[0].rest - 1)];
      assert Survivors(a) == head + Survivors(a[1..]) by {
        assert a == [a[0]] + a[1..];
        SurvivorsCons(a[0], a[1..]);
      }
      assert Survivors(a + b) == head + Survivors(a[1..] + b) by {
        assert a + b == [a[0]] + (a[1..] + b);
        SurvivorsCons(a[0], a[1..] + b);
      }
      SurvivorsAppend(a[1..], b);
      AppendAssoc(head, Survivors(a[1..]), Survivors(b));
    } else {
      assert a + b == b;
    }
  }

  /** Running one more job at the end of a partial pass extends the survivors by
      that job, decremented, unless it finishes. */
  lemma SurvivorsSnoc(a: seq<Job>, j: Job)
    ensures Survivors(a + [j]) == Survivors(a) + (if j.rest == 0 then [] else [Job(j.pid, j.rest - 1)])
  {
    SurvivorsAppend(a, [j]);
    assert [j][1..] == [];
  }

  lemma PidsSnoc(a: seq<Job>, j: Job)
    ensures Pids(a + [j]) == Pids(a) + [j.pid]
  {
  }

  /** The pids of a pass extend by one job at a time, behind any earlier log. */
  lemma PidsPrefix(log: seq<int>, q: seq<Job>, k: nat)
    requires k < |q|
    ensures log + Pids(q[..k]) + [q[k].pid] == log + Pids(q[..k + 1])
  {
    assert q[..k + 1] == q[..k] + [q[k]];
    PidsSnoc(q[..k], q[k]);
  }

  /** The schedule of a non-empty list is one pass and then the schedule of its
      survivors, behind any earlier log. */
  lemma ScheduleUnroll(log: seq<int>, q: seq<Job>)
    requires q != []
    ensures log + Schedule(q) == log + Pids(q) + Schedule(Survivors(q))
  {
    AppendAssoc(log, Pids(q), Schedule(Survivors(q)));
  }

  /** `simulate` performs exactly as many steps as the jobs need, so the clock
      advances by Total(q). */
  lemma {:induction false} ScheduleLength(q: seq<Job>)
    ensures |Schedule(q)| == Total(q)
    decreases Total(q)
  {
    if q != [] {
      ScheduleLength(Survivors(q));
    }
  }

  /** Occurrences of `x` in `s`. */
  function Count(s: seq<int>, x: int): nat
  {
    if s == [] then 0 else (if s[0] == x then 1 else 0) + Count(s[1..], x)
  }

  lemma {:induction false} CountAppend(a: seq<int>, b: seq<int>, x: int)
    ensures Count(a + b, x) == Count(a, x) + Count(b, x)
  {
    if a == [] {
      assert a + b == b;
    } else {
      assert (a + b)[0] == a[0];
      assert (a + b)[1..] == a[1..] + b;
      CountAppend(a[1..], b, x);
    }
  }

  /** Calls of `execute` the jobs with this pid still need. */
  function Demand(q: seq<Job>, pid: int): nat
  {
    if q == [] then 0 else (if q[0].pid == pid then q[0].rest + 1 else 0) + Demand(q[1..], pid)
  }

  lemma {:induction false} PassDemand(q: seq<Job>, pid: int)
    ensures Count(Pids(q), pid) + Demand(Survivors(q), pid) == Demand(q, pid)
  {
    if q != [] {
      PassDemand(q[1..], pid);
      assert Pids(q) == [q[0].pid] + Pids(q[1..]);
      CountAppend([q[0].pid], Pids(q[1..]), pid);
      assert [q[0].pid][1..] == [];
      if q[0].rest != 0 {
        var s := Survivors(q[1..]);
        assert ([Job(q[0].pid, q[0].rest - 1)] + s)[1..] == s;
      }
    }
  }

  /** Every process is executed exactly as many times as it needs: pid occurs in
      the schedule once per call its jobs still need. */
  lemma {:induction false} ScheduleCount(q: seq<Job>, pid: int)
    ensures Count(Schedule(q), pid) == Demand(q, pid)
    decreases Total(q)
  {
    if q != [] {
      ScheduleCount(Survivors(q), pid);
      CountAppend(Pids(q), Schedule(Survivors(q)), pid);
      PassDemand(q, pid);
    }
  }

  /** The pids of a list are pairwise different. `load` accepts any pid; `main`
      gives the i-th image file pid i - 1, so its list has this property. */
  predicate DistinctPids(q: seq<Job>)
  {
    forall i, j :: 0 <= i < j < |q| ==> q[i].pid != q[j].pid
  }

  lemma {:induction false} DemandOfDistinct(q: seq<Job>, i: nat)
    requires DistinctPids(q) && i < |q|
    ensures Demand(q, q[i].pid) == q[i].rest + 1
  {
    if i == 0 {
      DemandAbsent(q[1..], q[0].pid);
    } else {
      DemandOfDistinct(q[1..], i - 1);
    }
  }

  lemma {:induction false} DemandAbsent(q: seq<Job>, pid: int)
    requires forall i :: 0 <= i < |q| ==> q[i].pid != pid
    ensures Demand(q, pid) == 0
  {
    if q != [] {
      DemandAbsent(q[1..], pid);
    }
  }

  /** Termination: in a list of distinct pids, the job at index i is executed
      exactly rest + 1 times before `simulate` returns. */
  lemma ScheduledExactly(q: seq<Job>, i: nat)
    requires DistinctPids(q) && i < |q|
    ensures Count(Schedule(q), q[i].pid) == q[i].rest + 1
  {
    ScheduleCount(q, q[i].pid);
    DemandOfDistinct(q, i);
  }

  /** Pids, in list order, of the jobs that need more than r calls: the
      processes still in the list during pass r. */
  function Alive(q: seq<Job>, r: nat): seq<int>
  {
    if q == [] then [] else (if q[0].rest >= r then [q[0].pid] else []) + Alive(q[1..], r)
  }

  /** Number of passes `simulate` makes: the largest need in the list. */
  function Height(q: seq<Job>): nat
  {
    if q == [] then 0
    else if q[0].rest + 1 >= Height(q[1..]) then q[0].rest + 1
    else Height(q[1..])
  }

  /** Passes r, r + 1, ... up to the last, one after the other. */
  function RoundsFrom(q: seq<Job>, r: nat): seq<int>
    decreases Height(q) - r
  {
    if r >= Height(q) then [] else Alive(q, r) + RoundsFrom(q, r + 1)
  }

  lemma {:induction false} AliveAll(q: seq<Job>)
    ensures Alive(q, 0) == Pids(q)
  {
    if q != [] {
      AliveAll(q[1..]);
    }
  }

  lemma {:induction false} AliveSurvivors(q: seq<Job>, r: nat)
    ensures Alive(Survivors(q), r) == Alive(q, r + 1)
  {
    if q != [] {
      AliveSurvivors(q[1..], r);
      if q[0].rest != 0 {
        var s := Survivors(q[1..]);
        var x := Job(q[0].pid, q[0].rest - 1);
        assert ([x] + s)[0] == x;
        assert ([x] + s)[1..] == s;
      }
    }
  }

  lemma {:induction false} HeightSurvivors(q: seq<Job>)
    requires q != []
    ensures Height(Survivors(q)) + 1 == Height(q)
  {
    if q[1..] != [] {
      HeightSurvivors(q[1..]);
    } else {
      assert Survivors(q[1..]) == [];
    }
    if q[0].rest != 0 {
      var s := Survivors(q[1..]);
      var x := Job(q[0].pid, q[0].rest - 1);
      assert ([x] + s)[0] == x;
      assert ([x] + s)[1..] == s;
    }
  }

  lemma {:induction false} RoundsShift(q: seq<Job>, r: nat)
    requires q != []
    ensures RoundsFrom(Survivors(q), r) == RoundsFrom(q, r + 1)
    decreases Height(q) - r
  {
    HeightSurvivors(q);
    if r + 1 < Height(q) {
      AliveSurvivors(q, r);
      RoundsShift(q, r + 1);
    }
  }

  /** Fairness: the schedule is pass 0, pass 1, ... in turn, and pass r runs,
      in load order, exactly the processes that need more than r calls. So no
      process runs its (r+1)-th step before every process still present has run
      its r-th. */
  lemma {:induction false} ScheduleRounds(q: seq<Job>)
    ensures Schedule(q) == RoundsFrom(q, 0)
    decreases Total(q)
  {
    if q != [] {
      ScheduleRounds(Survivors(q));
      RoundsShift(q, 0);
      AliveAll(q);
    }
  }
}
