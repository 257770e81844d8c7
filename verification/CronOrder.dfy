/** Sorting jobs by due time with jobsort, whose difference of two 32-bit times is read as a signed number. */
module CronOrder {
  import opened CronSpec
  import opened ExchangeSort

  /** Ticks from a common base to the due time, across wrap-around. */
  function Ahead(base: uint32, job: Job): uint32 {
    Minus(job.timestamp, base)
  }

  ghost predicate InWindow(base: uint32, jobs: multiset<Job>) {
    forall job :: job in jobs ==> Ahead(base, job) < 0x8000_0000
  }

  lemma WindowOrder(base: uint32, a: Job, b: Job)
    requires Ahead(base, a) < 0x8000_0000 && Ahead(base, b) < 0x8000_0000
    ensures JobSort(a, b) == Ahead(base, b) - Ahead(base, a)
  {
  }

  lemma WindowIsOrdered(base: uint32, jobs: multiset<Job>)
    requires InWindow(base, jobs)
    ensures TotalOn(JobSort, jobs) && TransitiveOn(JobSort, jobs)
  {
  }

  lemma OrderedHasWindow(jobs: seq<Job>) returns (base: uint32)
    requires jobs != []
    requires TotalOn(JobSort, multiset(jobs)) && TransitiveOn(JobSort, multiset(jobs))
    ensures InWindow(base, multiset(jobs))
  {
    var r := Sort(JobSort, jobs);
    SortSorts(JobSort, jobs, multiset(jobs));
    SortPermutes(JobSort, jobs);
    base := r[0].timestamp;
    forall job | job in multiset(jobs)
      ensures Ahead(base, job) < 0x8000_0000
    {
      assert job in multiset(r);
      var i :| 0 <= i < |r| && r[i] == job;
      assert i > 0 ==> Before(JobSort, r[0], r[i]);
    }
  }

  /**
   * The comparator orders a set of jobs (total and transitive) if and only if
   * all their due times lie within 2^31 ticks ahead of some common base.
   */
  lemma JobSortOrdersExactly(jobs: seq<Job>)
    requires jobs != []
    ensures TotalOn(JobSort, multiset(jobs)) && TransitiveOn(JobSort, multiset(jobs))
            <==> exists base: uint32 :: InWindow(base, multiset(jobs))
  {
    if TotalOn(JobSort, multiset(jobs)) && TransitiveOn(JobSort, multiset(jobs)) {
      var base := OrderedHasWindow(jobs);
    } else if exists base: uint32 :: InWindow(base, multiset(jobs)) {
      var base: uint32 :| InWindow(base, multiset(jobs));
      WindowIsOrdered(base, multiset(jobs));
    }
  }

  /** In such a window the list sort puts the jobs in order of their next due tick. */
  lemma SortsByDueTime(base: uint32, jobs: seq<Job>)
    requires InWindow(base, multiset(jobs))
    ensures var r := Sort(JobSort, jobs);
            && multiset(r) == multiset(jobs)
            && forall i, j :: 0 <= i < j < |r| ==> Ahead(base, r[i]) <= Ahead(base, r[j])
  {
    var r := Sort(JobSort, jobs);
    WindowIsOrdered(base, multiset(jobs));
    SortSorts(JobSort, jobs, multiset(jobs));
    SortPermutes(JobSort, jobs);
    forall i, j | 0 <= i < j < |r|
      ensures Ahead(base, r[i]) <= Ahead(base, r[j])
    {
      assert r[i] in multiset(r) && r[j] in multiset(r);
      assert Before(JobSort, r[i], r[j]);
      WindowOrder(base, r[i], r[j]);
    }
  }
}
