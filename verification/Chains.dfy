/**
 * What a linked list means: its nodes in chain order, each with its payload and
 * whether its back link is set. The list code keeps every back link either null
 * or equal to the true predecessor, so one bit says which. A node that is not
 * the head and has no back link is called severed.
 */
module Chains {

  datatype Cell<N, T> = Cell(node: N, data: T, linked: bool)

  /** Every node but the head has its back link. */
  predicate FullyLinked<N, T>(s: seq<Cell<N, T>>) {
    forall i :: 0 <= i < |s| ==> s[i].linked == (i > 0)
  }

  ghost predicate Distinct<N, T>(s: seq<Cell<N, T>>) {
    forall i, j :: 0 <= i < j < |s| ==> s[i].node != s[j].node
  }

  predicate HeadUnlinked<N, T>(s: seq<Cell<N, T>>) {
    s != [] ==> !s[0].linked
  }

  /** The list after its first node lost its back link. */
  function Sever<N, T>(s: seq<Cell<N, T>>): (r: seq<Cell<N, T>>)
    ensures |r| == |s|
    ensures forall i :: 0 <= i < |s| ==> r[i].node == s[i].node && r[i].data == s[i].data
    ensures forall i :: 0 <= i < |s| ==> r[i].linked == (s[i].linked && i > 0)
  {
    if s == [] then [] else [s[0].(linked := false)] + s[1..]
  }

  /** Two lists joined by a next link and the back link of the second head. */
  function Join<N, T>(a: seq<Cell<N, T>>, b: seq<Cell<N, T>>): (r: seq<Cell<N, T>>)
    ensures |r| == |a| + |b|
    ensures forall i :: 0 <= i < |a| ==> r[i] == a[i]
    ensures forall i :: |a| <= i < |r| ==>
              r[i] == if a != [] && i == |a| then b[0].(linked := true) else b[i - |a|]
  {
    if a == [] || b == [] then a + b else a + [b[0].(linked := true)] + b[1..]
  }

  /**
   * The effect of ll_remove on the chain. The successor always loses its back
   * link. A severed node that is not the head is not unlinked from its
   * predecessor but loses its own next link, which cuts the chain behind it.
   */
  function RemoveAt<N, T>(s: seq<Cell<N, T>>, i: nat): seq<Cell<N, T>>
    requires i < |s|
  {
    if i == 0 || s[i].linked then s[..i] + Sever(s[i + 1..]) else s[..i + 1]
  }

  function Nodes<N, T>(s: seq<Cell<N, T>>): (r: seq<N>)
    ensures |r| == |s|
    ensures forall i :: 0 <= i < |s| ==> r[i] == s[i].node
  {
    if s == [] then [] else [s[0].node] + Nodes(s[1..])
  }

  lemma {:induction false} NodesAppend<N, T>(a: seq<Cell<N, T>>, b: seq<Cell<N, T>>)
    ensures Nodes(a + b) == Nodes(a) + Nodes(b)
  {
  }

  lemma NodesSlices<N, T>(s: seq<Cell<N, T>>, k: nat)
    requires k <= |s|
    ensures Nodes(s[..k]) == Nodes(s)[..k] && Nodes(s[k..]) == Nodes(s)[k..]
  {
    NodesAppend(s[..k], s[k..]);
    assert s == s[..k] + s[k..];
    assert |Nodes(s[..k])| == k;
    hide Nodes;
  }

  lemma RemoveAtCells<N, T>(s: seq<Cell<N, T>>, i: nat)
    requires i < |s|
    ensures i == 0 || s[i].linked ==> |RemoveAt(s, i)| == |s| - 1
    ensures i == 0 || s[i].linked ==>
              forall j {:trigger RemoveAt(s, i)[j]} :: 0 <= j < |s| - 1 ==>
                RemoveAt(s, i)[j] == if j < i then s[j] else if j == i then s[i + 1].(linked := false) else s[j + 1]
    ensures !(i == 0 || s[i].linked) ==> RemoveAt(s, i) == s[..i + 1]
  {
  }

  lemma RemoveKeepsDistinct<N, T>(s: seq<Cell<N, T>>, i: nat)
    requires i < |s| && Distinct(s)
    ensures Distinct(RemoveAt(s, i))
  {
  }

  /** Removal deletes exactly the one node if and only if it is the head or its back link is set. */
  lemma RemoveDeletesExactly<N, T>(s: seq<Cell<N, T>>, i: nat)
    requires i < |s| && Distinct(s)
    ensures Nodes(RemoveAt(s, i)) == Nodes(s[..i]) + Nodes(s[i + 1..]) <==> i == 0 || s[i].linked
  {
    if i == 0 || s[i].linked {
      NodesAppend(s[..i], Sever(s[i + 1..]));
      assert Nodes(Sever(s[i + 1..])) == Nodes(s[i + 1..]);
    } else {
      assert Nodes(RemoveAt(s, i))[i] == s[i].node;
      assert i + 1 < |s| ==> (Nodes(s[..i]) + Nodes(s[i + 1..]))[i] == s[i + 1].node;
    }
  }

  /** A fully linked list stays fully linked exactly when its head or its tail is removed. */
  lemma RemoveKeepsFullyLinked<N, T>(s: seq<Cell<N, T>>, i: nat)
    requires i < |s| && FullyLinked(s)
    ensures FullyLinked(RemoveAt(s, i)) <==> i == 0 || i == |s| - 1
  {
    if 0 < i < |s| - 1 {
      assert !RemoveAt(s, i)[i].linked;
    }
  }

  // ----- Removing many nodes in one pass

  /**
   * One pass over a list that visits every node, updates the payload of those
   * that stay and removes the dead ones on the way. The result is the chain
   * that hangs off the list head afterwards; once it is cut, the nodes behind
   * the cut are still visited but no longer part of it.
   */
  function Sweep<N, T>(kept: seq<Cell<N, T>>, rest: seq<Cell<N, T>>, dead: T -> bool, update: T -> T): seq<Cell<N, T>>
    decreases |rest|
  {
    if rest == [] then kept
    else
      var visited := rest[0].(data := update(rest[0].data));
      if !dead(rest[0].data) then Sweep(kept + [visited], rest[1..], dead, update)
      else if kept == [] || rest[0].linked then Sweep(kept, Sever(rest[1..]), dead, update)
      else kept + [visited]
  }

  /** The nodes that are to stay; one right behind a dead node has lost its back link. */
  function Survivors<N, T>(s: seq<Cell<N, T>>, behindDead: bool, dead: T -> bool, update: T -> T): seq<Cell<N, T>> {
    if s == [] then []
    else if dead(s[0].data) then Survivors(s[1..], true, dead, update)
    else [Cell(s[0].node, update(s[0].data), s[0].linked && !behindDead)] + Survivors(s[1..], false, dead, update)
  }

  /** All nodes up to and including position i are dead. */
  predicate InLeadingRun<N, T>(s: seq<Cell<N, T>>, i: nat, dead: T -> bool)
    requires i < |s|
  {
    forall j :: 0 <= j <= i ==> dead(s[j].data)
  }

  /**
   * A dead node is in the leading run, or has its back link and a predecessor
   * that stays.
   */
  predicate SafeAt<N, T>(s: seq<Cell<N, T>>, i: nat, dead: T -> bool)
    requires i < |s|
  {
    dead(s[i].data) ==> InLeadingRun(s, i, dead) || (s[i].linked && !dead(s[i - 1].data))
  }

  predicate Safe<N, T>(s: seq<Cell<N, T>>, dead: T -> bool) {
    forall i :: 0 <= i < |s| ==> SafeAt(s, i, dead)
  }

  predicate DeadNeighbours<N, T>(s: seq<Cell<N, T>>, i: nat, dead: T -> bool)
    requires i < |s|
  {
    i > 0 && dead(s[i - 1].data) && dead(s[i].data)
  }

  /** A fully linked list is safe when no two neighbours behind the leading run are dead. */
  lemma SafeWhenFullyLinked<N, T>(s: seq<Cell<N, T>>, dead: T -> bool)
    requires FullyLinked(s)
    ensures Safe(s, dead) <==>
            forall i :: 0 <= i < |s| && DeadNeighbours(s, i, dead) ==> InLeadingRun(s, i, dead)
  {
    forall i | 0 <= i < |s|
      ensures SafeAt(s, i, dead) <==> (DeadNeighbours(s, i, dead) ==> InLeadingRun(s, i, dead))
    {
    }
  }

  /** Safe, stated along the pass; at the head no back link is needed. */
  predicate SafeFrom<N, T>(atHead: bool, s: seq<Cell<N, T>>, dead: T -> bool)
    decreases |s|
  {
    s == [] ||
    if dead(s[0].data) then (atHead || s[0].linked) && SafeFrom(atHead, Sever(s[1..]), dead)
    else SafeFrom(false, s[1..], dead)
  }

  predicate InsideAt<N, T>(s: seq<Cell<N, T>>, i: nat, dead: T -> bool)
    requires i < |s|
  {
    dead(s[i].data) ==> s[i].linked && (i > 0 ==> !dead(s[i - 1].data))
  }

  predicate SafeInside<N, T>(s: seq<Cell<N, T>>, dead: T -> bool) {
    forall i :: 0 <= i < |s| ==> InsideAt(s, i, dead)
  }

  lemma {:induction false} SafeInsideExactly<N, T>(s: seq<Cell<N, T>>, dead: T -> bool)
    ensures SafeFrom(false, s, dead) <==> SafeInside(s, dead)
    decreases |s|
  {
    if s != [] {
      var next := if dead(s[0].data) then Sever(s[1..]) else s[1..];
      SafeInsideExactly(next, dead);
      forall i | 0 <= i < |next|
        ensures InsideAt(s, i + 1, dead) <==> InsideAt(next, i, dead)
      {
      }
      assert SafeInside(s, dead) <==> InsideAt(s, 0, dead) && SafeInside(next, dead) by {
        ShiftInside(s, next, dead);
      }
    }
  }

  lemma ShiftInside<N, T>(s: seq<Cell<N, T>>, next: seq<Cell<N, T>>, dead: T -> bool)
    requires |s| == |next| + 1
    requires forall i :: 0 <= i < |next| ==> (InsideAt(s, i + 1, dead) <==> InsideAt(next, i, dead))
    ensures SafeInside(s, dead) <==> InsideAt(s, 0, dead) && SafeInside(next, dead)
  {
    if SafeInside(next, dead) && InsideAt(s, 0, dead) {
      forall i | 0 <= i < |s|
        ensures InsideAt(s, i, dead)
      {
        assert i > 0 ==> InsideAt(next, i - 1, dead);
      }
    }
  }

  lemma {:induction false} SafeExactly<N, T>(s: seq<Cell<N, T>>, dead: T -> bool)
    ensures SafeFrom(true, s, dead) <==> Safe(s, dead)
    decreases |s|
  {
    if s != [] {
      if dead(s[0].data) {
        SafeExactly(Sever(s[1..]), dead);
        SafeBehindHead(s, dead);
      } else {
        SafeInsideExactly(s[1..], dead);
        SafeBehindSurvivor(s, dead);
      }
    }
  }

  lemma SafeBehindHead<N, T>(s: seq<Cell<N, T>>, dead: T -> bool)
    requires s != [] && dead(s[0].data)
    ensures Safe(s, dead) <==> Safe(Sever(s[1..]), dead)
  {
    var t := Sever(s[1..]);
    forall i | 0 < i < |s|
      ensures SafeAt(s, i, dead) <==> SafeAt(t, i - 1, dead)
    {
      if InLeadingRun(t, i - 1, dead) {
        assert forall j :: 0 < j <= i ==> s[j].data == t[j - 1].data;
      }
      if InLeadingRun(s, i, dead) {
        assert forall j :: 0 <= j <= i - 1 ==> t[j].data == s[j + 1].data;
      }
    }
    if Safe(t, dead) {
      forall i | 0 < i < |s|
        ensures SafeAt(s, i, dead)
      {
        assert SafeAt(t, i - 1, dead);
      }
    }
    if Safe(s, dead) {
      forall i | 0 <= i < |t|
        ensures SafeAt(t, i, dead)
      {
        assert SafeAt(s, i + 1, dead);
      }
    }
  }

  lemma SafeBehindSurvivor<N, T>(s: seq<Cell<N, T>>, dead: T -> bool)
    requires s != [] && !dead(s[0].data)
    ensures Safe(s, dead) <==> SafeInside(s[1..], dead)
  {
    var t := s[1..];
    forall i | 0 < i < |s|
      ensures SafeAt(s, i, dead) <==> InsideAt(t, i - 1, dead)
    {
    }
    if SafeInside(t, dead) {
      forall i | 0 < i < |s|
        ensures SafeAt(s, i, dead)
      {
        assert InsideAt(t, i - 1, dead);
      }
    }
    if Safe(s, dead) {
      forall i | 0 <= i < |t|
        ensures InsideAt(t, i, dead)
      {
        assert SafeAt(s, i + 1, dead);
      }
    }
  }

  lemma {:induction false} SurvivorsOfSevered<N, T>(s: seq<Cell<N, T>>, dead: T -> bool, update: T -> T)
    ensures Survivors(Sever(s), false, dead, update) == Survivors(s, true, dead, update)
  {
  }

  lemma {:induction false} SweepKeepsSurvivors<N, T>(kept: seq<Cell<N, T>>, rest: seq<Cell<N, T>>, dead: T -> bool,
          update: T -> T)
    requires SafeFrom(kept == [], rest, dead)
    ensures Sweep(kept, rest, dead, update) == kept + Survivors(rest, false, dead, update)
    decreases |rest|
  {
    if rest != [] {
      var visited := rest[0].(data := update(rest[0].data));
      if dead(rest[0].data) {
        SurvivorsOfSevered(rest[1..], dead, update);
        SweepKeepsSurvivors(kept, Sever(rest[1..]), dead, update);
      } else {
        SweepKeepsSurvivors(kept + [visited], rest[1..], dead, update);
        assert kept + Survivors(rest, false, dead, update) ==
               kept + [visited] + Survivors(rest[1..], false, dead, update);
      }
    }
  }

  /** Without safety the pass leaves a dead node in the list. */
  lemma {:induction false} SweepLeavesDead<N, T>(kept: seq<Cell<N, T>>, rest: seq<Cell<N, T>>, dead: T -> bool,
          update: T -> T)
    returns (at: nat, i: nat)
    requires !SafeFrom(kept == [], rest, dead)
    ensures i < |rest| && dead(rest[i].data)
    ensures at < |Sweep(kept, rest, dead, update)| && Sweep(kept, rest, dead, update)[at].node == rest[i].node
    decreases |rest|
  {
    var visited := rest[0].(data := update(rest[0].data));
    if !dead(rest[0].data) {
      at, i := SweepLeavesDead(kept + [visited], rest[1..], dead, update);
      i := i + 1;
    } else if kept == [] || rest[0].linked {
      at, i := SweepLeavesDead(kept, Sever(rest[1..]), dead, update);
      i := i + 1;
    } else {
      at, i := |kept|, 0;
    }
  }

  ghost predicate Contains<N, T>(s: seq<Cell<N, T>>, node: N, data: T) {
    exists i :: 0 <= i < |s| && s[i].node == node && s[i].data == data
  }

  lemma ContainsCons<N, T>(cell: Cell<N, T>, s: seq<Cell<N, T>>, node: N, data: T)
    ensures Contains([cell] + s, node, data) <==> (cell.node == node && cell.data == data) || Contains(s, node, data)
  {
    var all := [cell] + s;
    if Contains(s, node, data) {
      var i :| 0 <= i < |s| && s[i].node == node && s[i].data == data;
      assert all[i + 1] == s[i];
    }
    assert all[0] == cell;
  }

  /** The survivors are the updated payloads of the nodes that are not dead. */
  lemma {:induction false} SurvivorsContain<N, T>(s: seq<Cell<N, T>>, behindDead: bool, dead: T -> bool,
          update: T -> T, node: N, data: T)
    ensures Contains(Survivors(s, behindDead, dead, update), node, data) <==>
            exists i :: 0 <= i < |s| && s[i].node == node && !dead(s[i].data) && update(s[i].data) == data
  {
    if s != [] {
      var rest := Survivors(s[1..], dead(s[0].data), dead, update);
      SurvivorsContain(s[1..], dead(s[0].data), dead, update, node, data);
      if !dead(s[0].data) {
        ContainsCons(Cell(s[0].node, update(s[0].data), s[0].linked && !behindDead), rest, node, data);
      }
      assert s == [s[0]] + s[1..];
    }
  }

  lemma {:induction false} SurvivorsDistinct<N, T>(s: seq<Cell<N, T>>, behindDead: bool, dead: T -> bool,
          update: T -> T)
    requires Distinct(s)
    ensures Distinct(Survivors(s, behindDead, dead, update))
    ensures forall x :: x in Nodes(Survivors(s, behindDead, dead, update)) ==> x in Nodes(s)
    ensures forall i :: 0 <= i < |s| && dead(s[i].data) ==> s[i].node !in Nodes(Survivors(s, behindDead, dead, update))
  {
    if s != [] {
      var r, rest := Survivors(s, behindDead, dead, update), Survivors(s[1..], dead(s[0].data), dead, update);
      SurvivorsDistinct(s[1..], dead(s[0].data), dead, update);
      assert s[0].node !in Nodes(s[1..]) by {
        assert forall i :: 0 <= i < |s[1..]| ==> s[1..][i] == s[i + 1];
      }
      if !dead(s[0].data) {
        assert Nodes(r) == [s[0].node] + Nodes(rest);
        DistinctCons(r[0], rest);
      }
      forall i | 0 <= i < |s| && dead(s[i].data)
        ensures s[i].node !in Nodes(r)
      {
        assert i > 0 ==> s[1..][i - 1] == s[i];
      }
    }
  }

  lemma DistinctCons<N, T>(cell: Cell<N, T>, s: seq<Cell<N, T>>)
    requires Distinct(s) && cell.node !in Nodes(s)
    ensures Distinct([cell] + s)
  {
  }

  /**
   * The exact condition for removal during a walk: the chain that is left is
   * the survivors, in order and with these back links, if and only if the list
   * was safe; otherwise a dead node is still in it.
   */
  lemma {:induction false} SweepExactly<N, T>(s: seq<Cell<N, T>>, dead: T -> bool, update: T -> T)
    requires Distinct(s)
    ensures Safe(s, dead) <==> Sweep([], s, dead, update) == Survivors(s, false, dead, update)
    ensures Safe(s, dead) <==>
            forall i :: 0 <= i < |s| && dead(s[i].data) ==> s[i].node !in Nodes(Sweep([], s, dead, update))
  {
    var r := Sweep([], s, dead, update);
    SafeExactly(s, dead);
    SurvivorsDistinct(s, false, dead, update);
    if Safe(s, dead) {
      SweepKeepsSurvivors([], s, dead, update);
    } else {
      var at, i := SweepLeavesDead([], s, dead, update);
      assert Nodes(r)[at] == s[i].node;
    }
  }

  /** The safe part of a pass: what it keeps, and that a node removed last severs the one behind it. */
  lemma {:induction false} SweepSafePart<N, T>(kept: seq<Cell<N, T>>, part: seq<Cell<N, T>>, rest: seq<Cell<N, T>>,
          dead: T -> bool, update: T -> T)
    requires SafeFrom(kept == [], part, dead)
    ensures Sweep(kept, part + rest, dead, update) ==
            Sweep(kept + Survivors(part, false, dead, update), AfterPart(part, rest, dead), dead, update)
    decreases |part|
  {
    if part == [] {
      assert part + rest == rest && kept + [] == kept;
    } else {
      assert (part + rest)[1..] == part[1..] + rest;
      if dead(part[0].data) {
        SurvivorsOfSevered(part[1..], dead, update);
        SeverPart(part[1..], rest);
        if part[1..] == [] {
          assert kept + [] == kept;
        } else {
          SweepSafePart(kept, Sever(part[1..]), rest, dead, update);
        }
      } else {
        var visited := part[0].(data := update(part[0].data));
        SweepSafePart(kept + [visited], part[1..], rest, dead, update);
        assert kept + ([visited] + Survivors(part[1..], false, dead, update)) ==
               kept + [visited] + Survivors(part[1..], false, dead, update);
      }
    }
  }

  function AfterPart<N, T>(part: seq<Cell<N, T>>, rest: seq<Cell<N, T>>, dead: T -> bool): seq<Cell<N, T>> {
    if part != [] && dead(part[|part| - 1].data) then Sever(rest) else rest
  }

  lemma SeverPart<N, T>(part: seq<Cell<N, T>>, rest: seq<Cell<N, T>>)
    ensures Sever(part + rest) == if part == [] then Sever(rest) else Sever(part) + rest
  {
    if part == [] {
      assert part + rest == rest;
    }
  }

  predicate FirstUnsafe<N, T>(s: seq<Cell<N, T>>, i: nat, dead: T -> bool) {
    i < |s| && !SafeAt(s, i, dead) && forall j :: 0 <= j < i ==> SafeAt(s, j, dead)
  }

  /**
   * What an unsafe pass leaves: the survivors up to the first node that is not
   * safe, that node itself, removed as it is, and nothing behind it.
   */
  lemma SweepCutExactly<N, T>(s: seq<Cell<N, T>>, i: nat, dead: T -> bool, update: T -> T)
    requires FirstUnsafe(s, i, dead)
    ensures Sweep([], s, dead, update) ==
            Survivors(s[..i], false, dead, update) + [Cell(s[i].node, update(s[i].data), false)]
  {
    var part, rest := s[..i], s[i..];
    assert s == part + rest;
    forall j | 0 <= j < i
      ensures SafeAt(part, j, dead)
    {
      assert SafeAt(s, j, dead);
      if InLeadingRun(s, j, dead) {
        assert InLeadingRun(part, j, dead);
      }
    }
    SafeExactly(part, dead);
    SweepSafePart([], part, rest, dead, update);
    var j :| 0 <= j <= i && !dead(s[j].data);
    SurvivorsContain(part, false, dead, update, s[j].node, update(s[j].data));
    assert part[j] == s[j];
    var kept := Survivors(part, false, dead, update);
    assert kept != [] && [] + kept == kept;
    assert !AfterPart(part, rest, dead)[0].linked;
  }

  lemma {:induction false} SweepWithin<N, T>(kept: seq<Cell<N, T>>, rest: seq<Cell<N, T>>, dead: T -> bool,
          update: T -> T)
    ensures forall x :: x in Nodes(Sweep(kept, rest, dead, update)) ==> x in Nodes(kept) || x in Nodes(rest)
    decreases |rest|
  {
    if rest != [] {
      var visited := rest[0].(data := update(rest[0].data));
      NodesAppend(kept, [visited]);
      assert Nodes([visited]) == [visited.node] && Nodes(rest) == [rest[0].node] + Nodes(rest[1..]);
      if !dead(rest[0].data) {
        SweepWithin(kept + [visited], rest[1..], dead, update);
      } else if kept == [] || rest[0].linked {
        assert Nodes(Sever(rest[1..])) == Nodes(rest[1..]);
        SweepWithin(kept, Sever(rest[1..]), dead, update);
      }
    }
  }

  // ----- Removing the first dead node again and again

  predicate FirstDead<N, T>(s: seq<Cell<N, T>>, i: nat, dead: T -> bool) {
    i < |s| && dead(s[i].data) && forall j :: 0 <= j < i ==> !dead(s[j].data)
  }

  /** Where the first dead node is, or -1. */
  function FirstDeadIndex<N, T>(s: seq<Cell<N, T>>, dead: T -> bool): (i: int)
    ensures -1 <= i < |s|
    ensures i >= 0 ==> FirstDead(s, i, dead)
    ensures i < 0 ==> forall j :: 0 <= j < |s| ==> !dead(s[j].data)
  {
    if s == [] then -1
    else if dead(s[0].data) then 0
    else
      var j := FirstDeadIndex(s[1..], dead);
      assert forall k :: 1 <= k < |s| ==> s[k] == s[1..][k - 1];
      if j < 0 then -1 else j + 1
  }

  /**
   * One round of find-and-remove: the list is safe exactly when this removal
   * does not cut the chain and what it leaves is safe; and then the survivors
   * stay the same.
   */
  lemma {:induction false} RemoveFirstDead<N, T>(s: seq<Cell<N, T>>, i: nat, dead: T -> bool, update: T -> T)
    requires FirstDead(s, i, dead)
    ensures Safe(s, dead) <==> (i == 0 || s[i].linked) && Safe(RemoveAt(s, i), dead)
    ensures i == 0 || s[i].linked ==>
              Survivors(RemoveAt(s, i), false, dead, update) == Survivors(s, false, dead, update)
  {
    if i == 0 || s[i].linked {
      SafeExactly(s, dead);
      SafeExactly(RemoveAt(s, i), dead);
      RemoveFirstDeadFrom(true, s, i, dead, update);
    } else {
      assert !dead(s[0].data);
      assert !SafeAt(s, i, dead);
    }
  }

  lemma {:induction false} RemoveFirstDeadFrom<N, T>(atHead: bool, s: seq<Cell<N, T>>, i: nat, dead: T -> bool,
          update: T -> T)
    requires FirstDead(s, i, dead) && (s[i].linked || (i == 0 && atHead))
    ensures SafeFrom(atHead, s, dead) <==> SafeFrom(atHead, RemoveAt(s, i), dead)
    ensures Survivors(RemoveAt(s, i), false, dead, update) == Survivors(s, false, dead, update)
    decreases i
  {
    if i == 0 {
      assert RemoveAt(s, i) == Sever(s[1..]);
      SurvivorsOfSevered(s[1..], dead, update);
    } else {
      RemoveTail(s, i);
      hide RemoveAt, Sever;
      RemoveFirstDeadFrom(false, s[1..], i - 1, dead, update);
    }
  }

  lemma RemoveTail<N, T>(s: seq<Cell<N, T>>, i: nat)
    requires 0 < i < |s| && s[i].linked
    ensures RemoveAt(s, i) != [] && RemoveAt(s, i)[0] == s[0]
    ensures RemoveAt(s, i)[1..] == RemoveAt(s[1..], i - 1)
  {
    hide Sever;
    assert s[1..][i..] == s[i + 1..] && s[1..][..i - 1] == s[1..i];
    assert (s[..i] + Sever(s[i + 1..]))[1..] == s[1..i] + Sever(s[i + 1..]);
  }

  predicate Cuts<N, T>(s: seq<Cell<N, T>>, i: nat)
    requires i < |s|
  {
    i > 0 && !s[i].linked
  }

  /**
   * What finding and removing the first dead node again and again leaves. A
   * removal that cuts the chain is the last one: the removed node is still in
   * the chain, with no dead node before it, so it is what the next search
   * comes to.
   */
  function Deletions<N, T>(s: seq<Cell<N, T>>, dead: T -> bool): seq<Cell<N, T>>
    decreases |s|
  {
    var i := FirstDeadIndex(s, dead);
    if i < 0 then s
    else if Cuts(s, i) then RemoveAt(s, i)
    else Deletions(RemoveAt(s, i), dead)
  }

  /** The nodes these removals free. */
  ghost function Freed<N, T>(s: seq<Cell<N, T>>, dead: T -> bool): set<N>
    decreases |s|
  {
    var i := FirstDeadIndex(s, dead);
    if i < 0 then {}
    else if Cuts(s, i) then {s[i].node}
    else {s[i].node} + Freed(RemoveAt(s, i), dead)
  }

  /** Each removed node is the head or has its back link. */
  predicate NeverCuts<N, T>(s: seq<Cell<N, T>>, dead: T -> bool)
    decreases |s|
  {
    var i := FirstDeadIndex(s, dead);
    i < 0 || (!Cuts(s, i) && NeverCuts(RemoveAt(s, i), dead))
  }

  lemma DeletionsUnfold<N, T>(s: seq<Cell<N, T>>, dead: T -> bool)
    ensures var i := FirstDeadIndex(s, dead);
            if i < 0 then
              Deletions(s, dead) == s && Freed(s, dead) == {} && NeverCuts(s, dead)
            else if Cuts(s, i) then
              Deletions(s, dead) == s[..i + 1] && Freed(s, dead) == {s[i].node} && !NeverCuts(s, dead)
            else
              && |RemoveAt(s, i)| < |s|
              && Deletions(s, dead) == Deletions(RemoveAt(s, i), dead)
              && Freed(s, dead) == {s[i].node} + Freed(RemoveAt(s, i), dead)
              && NeverCuts(s, dead) == NeverCuts(RemoveAt(s, i), dead)
  {
  }

  /** Behind a cut the next search finds the node that was just freed, and its removal changes nothing. */
  lemma FoundAgain<N, T>(s: seq<Cell<N, T>>, dead: T -> bool)
    requires var i := FirstDeadIndex(s, dead); i >= 0 && Cuts(s, i)
    ensures var (i, r) := (FirstDeadIndex(s, dead), Deletions(s, dead));
            && FirstDeadIndex(r, dead) == i && r[i].node in Freed(s, dead)
            && RemoveAt(r, i) == r
  {
    var i := FirstDeadIndex(s, dead);
    FirstDeadIsFirst(s[..i + 1], i, dead);
  }

  lemma FirstDeadIsFirst<N, T>(s: seq<Cell<N, T>>, i: nat, dead: T -> bool)
    requires FirstDead(s, i, dead)
    ensures FirstDeadIndex(s, dead) == i
  {
  }

  /** Removing again and again cuts the chain at some point exactly when the list is not safe. */
  lemma {:induction false} NeverCutsExactly<N, T>(s: seq<Cell<N, T>>, dead: T -> bool)
    ensures NeverCuts(s, dead) <==> Safe(s, dead)
    decreases |s|
  {
    hide Safe, NeverCuts, RemoveAt;
    DeletionsUnfold(s, dead);
    var i := FirstDeadIndex(s, dead);
    if i < 0 {
      NothingDeadIsSafe(s, dead);
    } else {
      RemoveFirstDead(s, i, dead, t => t);
      if !Cuts(s, i) {
        NeverCutsExactly(RemoveAt(s, i), dead);
      }
    }
  }

  lemma NothingDeadIsSafe<N, T>(s: seq<Cell<N, T>>, dead: T -> bool)
    requires forall i :: 0 <= i < |s| ==> !dead(s[i].data)
    ensures Safe(s, dead)
  {
  }

  lemma {:induction false} DeletionsKeepSurvivors<N, T>(s: seq<Cell<N, T>>, dead: T -> bool, update: T -> T)
    requires Safe(s, dead) && forall t :: update(t) == t
    ensures Deletions(s, dead) == Survivors(s, false, dead, update)
    decreases |s|
  {
    hide Safe, Survivors, Deletions, RemoveAt;
    DeletionsUnfold(s, dead);
    var i := FirstDeadIndex(s, dead);
    if i < 0 {
      NothingDead(s, dead, update);
    } else {
      RemoveFirstDead(s, i, dead, update);
      DeletionsKeepSurvivors(RemoveAt(s, i), dead, update);
    }
  }

  /** Nodes that are not dead are passed. */
  lemma {:induction false} SweepPasses<N, T>(kept: seq<Cell<N, T>>, part: seq<Cell<N, T>>, rest: seq<Cell<N, T>>,
          dead: T -> bool, update: T -> T)
    requires (forall i :: 0 <= i < |part| ==> !dead(part[i].data)) && forall t :: update(t) == t
    ensures Sweep(kept, part + rest, dead, update) == Sweep(kept + part, rest, dead, update)
    decreases |part|
  {
    if part == [] {
      assert part + rest == rest && kept + part == kept;
    } else {
      assert (part + rest)[1..] == part[1..] + rest;
      SweepPasses(kept + [part[0]], part[1..], rest, dead, update);
      assert kept + [part[0]] + part[1..] == kept + part;
    }
  }

  /** Searching again from the head each time leaves what one pass leaves, whether it cuts the chain or not. */
  lemma {:induction false} DeletionsAreSweep<N, T>(s: seq<Cell<N, T>>, dead: T -> bool, update: T -> T)
    requires forall t :: update(t) == t
    ensures Deletions(s, dead) == Sweep([], s, dead, update)
    decreases |s|
  {
    DeletionsUnfold(s, dead);
    hide Deletions, Freed, NeverCuts;
    var i := FirstDeadIndex(s, dead);
    if i < 0 {
      SweepPasses([], s, [], dead, update);
      assert s + [] == s && [] + s == s;
    } else {
      var part, rest := s[..i], s[i..];
      SweepPasses([], part, rest, dead, update);
      assert part + rest == s && [] + part == part && rest[1..] == s[i + 1..];
      if Cuts(s, i) {
        assert part + [rest[0]] == s[..i + 1];
      } else {
        DeletionsAreSweep(RemoveAt(s, i), dead, update);
        SweepPasses([], part, Sever(rest[1..]), dead, update);
      }
    }
  }

  ghost function Members<N, T>(s: seq<Cell<N, T>>): set<N> {
    set x | x in Nodes(s)
  }

  /** The nodes of the list are those that are left, those that were freed, and those behind a cut. */
  lemma {:induction false} DeletionsPart<N, T>(s: seq<Cell<N, T>>, dead: T -> bool)
    requires Distinct(s)
    ensures Members(Deletions(s, dead)) + Freed(s, dead) <= Members(s)
    ensures NeverCuts(s, dead) ==> Freed(s, dead) == Members(s) - Members(Deletions(s, dead))
    ensures NeverCuts(s, dead) <==> Freed(s, dead) !! Members(Deletions(s, dead))
    decreases |s|
  {
    hide Deletions, Freed, NeverCuts, RemoveAt, Distinct, Members;
    DeletionsUnfold(s, dead);
    var i := FirstDeadIndex(s, dead);
    if i >= 0 {
      NodesAround(s, i);
      if Cuts(s, i) {
        MembersUpTo(s, i);
      } else {
        RemoveKeepsDistinct(s, i);
        DeletionsPart(RemoveAt(s, i), dead);
        MembersWithout(s, i);
      }
    }
  }

  lemma MembersUpTo<N, T>(s: seq<Cell<N, T>>, i: nat)
    requires i < |s|
    ensures s[i].node in Members(s[..i + 1]) && Members(s[..i + 1]) <= Members(s)
  {
    NodesAppend(s[..i + 1], s[i + 1..]);
    assert s == s[..i + 1] + s[i + 1..];
    assert Nodes(s[..i + 1])[i] == s[i].node;
  }

  lemma MembersWithout<N, T>(s: seq<Cell<N, T>>, i: nat)
    requires i < |s| && Distinct(s) && !Cuts(s, i)
    ensures Members(RemoveAt(s, i)) == Members(s) - {s[i].node}
    ensures s[i].node in Members(s)
  {
    RemoveDeletesExactly(s, i);
    NodesAround(s, i);
    hide Nodes, RemoveAt, Distinct;
  }

  lemma NodesAround<N, T>(s: seq<Cell<N, T>>, i: nat)
    requires i < |s| && Distinct(s)
    ensures Nodes(s) == Nodes(s[..i]) + ([s[i].node] + Nodes(s[i + 1..]))
    ensures s[i].node !in Nodes(s[..i]) && s[i].node !in Nodes(s[i + 1..])
  {
    hide Distinct, Nodes;
    OthersDiffer(s, i);
    NotInNodes(s, 0, i, s[i].node);
    NotInNodes(s, i + 1, |s|, s[i].node);
    assert s[0..i] == s[..i] && s[i + 1..|s|] == s[i + 1..];
    NodesSplit(s, i);
  }

  lemma OthersDiffer<N, T>(s: seq<Cell<N, T>>, i: nat)
    requires i < |s| && Distinct(s)
    ensures forall j :: 0 <= j < |s| && j != i ==> s[j].node != s[i].node
  {
  }

  lemma NodesSplit<N, T>(s: seq<Cell<N, T>>, i: nat)
    requires i < |s|
    ensures Nodes(s) == Nodes(s[..i]) + ([s[i].node] + Nodes(s[i + 1..]))
  {
    NodesAppend(s[..i], s[i..]);
    assert s == s[..i] + s[i..];
    assert s[i..][0] == s[i] && s[i..][1..] == s[i + 1..];
    assert Nodes(s[i..]) == [s[i].node] + Nodes(s[i + 1..]);
  }

  lemma NotInNodes<N, T>(s: seq<Cell<N, T>>, from: nat, to: nat, x: N)
    requires from <= to <= |s| && forall j :: from <= j < to ==> s[j].node != x
    ensures x !in Nodes(s[from..to])
  {
    var part := s[from..to];
    forall j | 0 <= j < |part|
      ensures Nodes(part)[j] != x
    {
      assert part[j] == s[from + j];
    }
  }

  /**
   * The exact condition for find-and-remove: every removed node is the head or
   * has its back link, if and only if the list is safe, if and only if no
   * freed node is left in the chain; and then the survivors are left.
   */
  lemma {:induction false} DeletionsExactly<N, T>(s: seq<Cell<N, T>>, dead: T -> bool, update: T -> T)
    requires Distinct(s) && forall t :: update(t) == t
    ensures NeverCuts(s, dead) <==> Safe(s, dead)
    ensures Safe(s, dead) <==> Freed(s, dead) !! Members(Deletions(s, dead))
    ensures Safe(s, dead) ==>
              && Deletions(s, dead) == Survivors(s, false, dead, update)
              && Freed(s, dead) == Members(s) - Members(Deletions(s, dead))
    ensures Members(Deletions(s, dead)) + Freed(s, dead) <= Members(s)
  {
    hide Safe, Survivors, Deletions, Freed, NeverCuts, Distinct, Members;
    NeverCutsExactly(s, dead);
    DeletionsPart(s, dead);
    if Safe(s, dead) {
      DeletionsKeepSurvivors(s, dead, update);
    }
  }

  lemma {:induction false} NothingDead<N, T>(s: seq<Cell<N, T>>, dead: T -> bool, update: T -> T)
    requires forall i :: 0 <= i < |s| ==> !dead(s[i].data)
    requires forall t :: update(t) == t
    ensures Survivors(s, false, dead, update) == s
  {
    if s != [] {
      NothingDead(s[1..], dead, update);
    }
  }

  lemma {:induction false} SurvivorsAgree<N, T>(s: seq<Cell<N, T>>, behindDead: bool, a: T -> bool, b: T -> bool,
          update: T -> T)
    requires forall i :: 0 <= i < |s| ==> a(s[i].data) == b(s[i].data)
    ensures Survivors(s, behindDead, a, update) == Survivors(s, behindDead, b, update)
  {
    if s != [] {
      SurvivorsAgree(s[1..], a(s[0].data), a, b, update);
    }
  }

  lemma {:induction false} FirstDeadAgrees<N, T>(s: seq<Cell<N, T>>, a: T -> bool, b: T -> bool)
    requires forall i :: 0 <= i < |s| ==> a(s[i].data) == b(s[i].data)
    ensures FirstDeadIndex(s, a) == FirstDeadIndex(s, b)
  {
    if s != [] {
      FirstDeadAgrees(s[1..], a, b);
    }
  }

  lemma {:induction false} DeletionsAgree<N, T>(s: seq<Cell<N, T>>, a: T -> bool, b: T -> bool)
    requires forall t :: a(t) == b(t)
    ensures Deletions(s, a) == Deletions(s, b) && Freed(s, a) == Freed(s, b)
    decreases |s|
  {
    FirstDeadAgrees(s, a, b);
    var i := FirstDeadIndex(s, a);
    if i >= 0 && !Cuts(s, i) {
      DeletionsAgree(RemoveAt(s, i), a, b);
    }
  }

  lemma SafeAgrees<N, T>(s: seq<Cell<N, T>>, a: T -> bool, b: T -> bool)
    requires forall i :: 0 <= i < |s| ==> a(s[i].data) == b(s[i].data)
    ensures Safe(s, a) <==> Safe(s, b)
  {
    forall i | 0 <= i < |s|
      ensures SafeAt(s, i, a) <==> SafeAt(s, i, b)
    {
    }
  }
}
