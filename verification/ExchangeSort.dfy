/** What ll_sort computes: an exchange sort that moves payloads, not nodes. */
module ExchangeSort {

  /** One pass: the payload at the front is exchanged with every one that compares below zero. */
  function Pass<T>(cmp: (T, T) -> int, front: T, rest: seq<T>): (r: (T, seq<T>))
    ensures |r.1| == |rest|
    decreases |rest|
  {
    if rest == [] then (front, [])
    else if cmp(front, rest[0]) < 0 then
      var (best, others) := Pass(cmp, rest[0], rest[1..]);
      (best, [front] + others)
    else
      var (best, others) := Pass(cmp, front, rest[1..]);
      (best, [rest[0]] + others)
  }

  lemma MultisetCons<T>(x: T, s: seq<T>)
    ensures multiset([x] + s) == multiset{x} + multiset(s)
  {
  }

  lemma {:induction false} PassPermutes<T>(cmp: (T, T) -> int, front: T, rest: seq<T>)
    ensures multiset(Pass(cmp, front, rest).1) + multiset{Pass(cmp, front, rest).0} == multiset(rest) + multiset{front}
    decreases |rest|
  {
    if rest != [] {
      assert rest == [rest[0]] + rest[1..];
      MultisetCons(rest[0], rest[1..]);
      var (winner, loser) := if cmp(front, rest[0]) < 0 then (rest[0], front) else (front, rest[0]);
      PassPermutes(cmp, winner, rest[1..]);
      var (best, others) := Pass(cmp, winner, rest[1..]);
      MultisetCons(loser, others);
      calc {
        multiset(Pass(cmp, front, rest).1) + multiset{Pass(cmp, front, rest).0};
        (multiset{loser} + multiset(others)) + multiset{best};
        (multiset(others) + multiset{best}) + multiset{loser};
        (multiset(rest[1..]) + multiset{winner}) + multiset{loser};
        (multiset(rest[1..]) + multiset{rest[0]}) + multiset{front};
        multiset([rest[0]] + rest[1..]) + multiset{front};
        multiset(rest) + multiset{front};
      }
    }
  }

  function Sort<T>(cmp: (T, T) -> int, s: seq<T>): (r: seq<T>)
    ensures |r| == |s|
    decreases |s|
  {
    if s == [] then [] else
      var (best, others) := Pass(cmp, s[0], s[1..]);
      [best] + Sort(cmp, others)
  }

  /** "a may stand before b" */
  predicate Before<T>(cmp: (T, T) -> int, a: T, b: T) {
    cmp(a, b) >= 0
  }

  ghost predicate TotalOn<T(!new)>(cmp: (T, T) -> int, s: multiset<T>) {
    forall a, b {:trigger Before(cmp, a, b)} :: a in s && b in s ==> Before(cmp, a, b) || Before(cmp, b, a)
  }

  ghost predicate TransitiveOn<T(!new)>(cmp: (T, T) -> int, s: multiset<T>) {
    forall a, b, c {:trigger Before(cmp, a, b), Before(cmp, b, c)} ::
      a in s && b in s && c in s && Before(cmp, a, b) && Before(cmp, b, c) ==> Before(cmp, a, c)
  }

  predicate Sorted<T>(cmp: (T, T) -> int, s: seq<T>) {
    forall i, j :: 0 <= i < j < |s| ==> Before(cmp, s[i], s[j])
  }

  lemma {:induction false} SortPermutes<T>(cmp: (T, T) -> int, s: seq<T>)
    ensures multiset(Sort(cmp, s)) == multiset(s)
    decreases |s|
  {
    if s != [] {
      assert s == [s[0]] + s[1..];
      var (best, others) := Pass(cmp, s[0], s[1..]);
      PassPermutes(cmp, s[0], s[1..]);
      SortPermutes(cmp, others);
      MultisetCons(best, Sort(cmp, others));
      calc {
        multiset(Sort(cmp, s));
        multiset{best} + multiset(others);
        multiset(s[1..]) + multiset{s[0]};
        multiset([s[0]] + s[1..]);
        multiset(s);
      }
    }
  }

  ghost predicate AllAfter<T>(cmp: (T, T) -> int, best: T, s: multiset<T>) {
    forall x {:trigger Before(cmp, best, x)} {:trigger s[x]} :: x in s ==> Before(cmp, best, x)
  }

  lemma {:induction false} PassSelects<T(!new)>(cmp: (T, T) -> int, front: T, rest: seq<T>, all: multiset<T>)
    requires TotalOn(cmp, all) && TransitiveOn(cmp, all)
    requires multiset(rest) + multiset{front} <= all
    ensures Pass(cmp, front, rest).0 in all && Before(cmp, Pass(cmp, front, rest).0, front)
    ensures AllAfter(cmp, Pass(cmp, front, rest).0, multiset(Pass(cmp, front, rest).1))
    decreases |rest|
  {
    assert Before(cmp, front, front);
    if rest != [] {
      assert rest == [rest[0]] + rest[1..];
      assert rest[0] in multiset(rest);
      var winner, loser := front, rest[0];
      if cmp(front, rest[0]) < 0 {
        winner, loser := rest[0], front;
      }
      assert Before(cmp, winner, loser) by {
        assert Before(cmp, front, rest[0]) || Before(cmp, rest[0], front);
      }
      PassSelects(cmp, winner, rest[1..], all);
      var (best, others) := Pass(cmp, winner, rest[1..]);
      assert Before(cmp, best, loser) by {
        assert Before(cmp, best, winner) && Before(cmp, winner, loser);
      }
      assert Before(cmp, winner, front);
      assert AllAfter(cmp, best, multiset(others) + multiset{loser});
    }
  }

  /** Whenever the comparator is total and transitive on the payloads, the result is in order. */
  lemma {:induction false} SortSorts<T(!new)>(cmp: (T, T) -> int, s: seq<T>, all: multiset<T>)
    requires multiset(s) <= all && TotalOn(cmp, all) && TransitiveOn(cmp, all)
    ensures Sorted(cmp, Sort(cmp, s))
    decreases |s|
  {
    if s != [] {
      assert s == [s[0]] + s[1..];
      var (best, others) := Pass(cmp, s[0], s[1..]);
      PassSelects(cmp, s[0], s[1..], all);
      PassPermutes(cmp, s[0], s[1..]);
      SortPermutes(cmp, others);
      SortSorts(cmp, others, all);
      SortedCons(cmp, best, Sort(cmp, others));
    }
  }

  lemma SortedCons<T>(cmp: (T, T) -> int, best: T, s: seq<T>)
    requires AllAfter(cmp, best, multiset(s)) && Sorted(cmp, s)
    ensures Sorted(cmp, [best] + s)
  {
  }
}
