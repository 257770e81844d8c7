/** Whole runs of additions at the back, pops and removals on a list: which back links are gone. */
module ListRuns {
  import opened Chains
  import L = LinkedList

  /** An addition at the back, the removal of the node at a place, or a pop at the front. */
  datatype Op<N, T> = Append(node: N, data: T) | Remove(at: nat) | Pop

  /**
   * The list; for nodes the one they were last added behind, as long as that
   * one has not been added again since; and the nodes that left the list with
   * a link of their own.
   */
  datatype State<N, T> = State(cells: seq<Cell<N, T>>, addedBehind: map<N, N>, loose: set<N>)

  function Start<N, T>(): State<N, T> {
    State([], map[], {})
  }

  /**
   * Only a node that is not in the list and has no links is a single item to add;
   * it may have been in the list before.
   */
  predicate Possible<N(==), T>(s: State<N, T>, op: Op<N, T>) {
    match op
    case Append(node, _) => node !in Nodes(s.cells) && node !in s.loose
    case Remove(at) => at < |s.cells|
    case Pop => true
  }

  /** An addition replaces what was known of the node, and nobody counts any more as added behind it. */
  function Recorded<N, T>(s: State<N, T>, node: N): map<N, N> {
    var others := map n | n in s.addedBehind && n != node && s.addedBehind[n] != node :: s.addedBehind[n];
    if s.cells == [] then others else others[node := s.cells[|s.cells| - 1].node]
  }

  /** The nodes behind a cut that still have a link: all but a last one without its back link. */
  function StillLinked<N, T>(lost: seq<Cell<N, T>>): set<N> {
    set i | 0 <= i < |lost| && (i + 1 < |lost| || lost[i].linked) :: lost[i].node
  }

  /** A cut leaves the nodes behind it linked to one another, and a popped node keeps its next link. */
  function LeftLoose<N, T>(cells: seq<Cell<N, T>>, op: Op<N, T>): set<N>
    requires op.Remove? ==> op.at < |cells|
  {
    match op
    case Append(_, _) => {}
    case Remove(at) => if Cuts(cells, at) then StillLinked(Sever(cells[at + 1..])) else {}
    case Pop => if |cells| > 1 then {cells[0].node} else {}
  }

  function Step<N, T>(s: State<N, T>, op: Op<N, T>): State<N, T>
    requires Possible(s, op)
  {
    var loose := s.loose + LeftLoose(s.cells, op);
    match op
    case Append(node, data) => State(Join(s.cells, [Cell(node, data, false)]), Recorded(s, node), loose)
    case Remove(at) => s.(cells := RemoveAt(s.cells, at), loose := loose)
    case Pop => if s.cells == [] then s else s.(cells := Sever(s.cells[1..]), loose := loose)
  }

  lemma RemovedNodes<N, T>(cells: seq<Cell<N, T>>, at: nat)
    requires at < |cells| && Distinct(cells)
    ensures var before := Nodes(cells);
            Nodes(RemoveAt(cells, at)) == if Cuts(cells, at) then before[..at + 1] else before[..at] + before[at + 1..]
  {
    RemoveDeletesExactly(cells, at);
    NodesSlices(cells, at);
    NodesSlices(cells, at + 1);
    hide Nodes, Distinct;
  }

  lemma PoppedNodes<N, T>(cells: seq<Cell<N, T>>)
    requires cells != []
    ensures Nodes(Sever(cells[1..])) == Nodes(cells)[1..]
  {
    NodesSlices(cells, 1);
    SeverNodes(cells[1..]);
    hide Nodes, Sever;
  }

  lemma SeverNodes<N, T>(cells: seq<Cell<N, T>>)
    ensures Nodes(Sever(cells)) == Nodes(cells)
  {
  }

  /** What each operation does to the nodes of the list, in order. */
  lemma StepNodes<N, T>(s: State<N, T>, op: Op<N, T>)
    requires Distinct(s.cells) && Possible(s, op)
    ensures var (before, after) := (Nodes(s.cells), Nodes(Step(s, op).cells));
            match op
            case Append(node, _) => after == before + [node]
            case Remove(at) => after == if Cuts(s.cells, at) then before[..at + 1] else before[..at] + before[at + 1..]
            case Pop => after == if before == [] then [] else before[1..]
  {
    hide Nodes, Distinct, RemoveAt, Sever, Join, Recorded, LeftLoose;
    match op
    case Append(node, data) =>
      L.NodesOfJoin(s.cells, [Cell(node, data, false)]);
      OneNode(Cell(node, data, false));
    case Remove(at) => RemovedNodes(s.cells, at);
    case Pop =>
      if s.cells != [] {
        PoppedNodes(s.cells);
      }
  }

  lemma OneNode<N, T>(cell: Cell<N, T>)
    ensures Nodes([cell]) == [cell.node]
  {
  }

  ghost predicate RunPossible<N, T>(s: State<N, T>, ops: seq<Op<N, T>>)
    decreases |ops|
  {
    ops == [] || (Possible(s, ops[0]) && RunPossible(Step(s, ops[0]), ops[1..]))
  }

  ghost function Run<N, T>(s: State<N, T>, ops: seq<Op<N, T>>): State<N, T>
    requires RunPossible(s, ops)
    decreases |ops|
  {
    if ops == [] then s else Run(Step(s, ops[0]), ops[1..])
  }

  predicate Behind<N(==), T>(s: State<N, T>, i: nat, j: nat)
    requires i < |s.cells| && j < |s.cells|
  {
    s.cells[i].node in s.addedBehind && s.addedBehind[s.cells[i].node] == s.cells[j].node
  }

  /**
   * A node has its back link exactly when the node it was added behind has
   * been in the list ever since, and that one is then its predecessor.
   */
  ghost predicate LinksTellHistory<N, T>(s: State<N, T>) {
    && Distinct(s.cells)
    && HeadUnlinked(s.cells)
    && (forall i, j :: 0 <= i < |s.cells| && 0 <= j < |s.cells| ==>
          (Behind(s, i, j) <==> j == i - 1 && s.cells[i].linked))
  }

  lemma AppendTells<N, T>(s: State<N, T>, node: N, data: T)
    requires LinksTellHistory(s) && Possible(s, Append(node, data))
    ensures LinksTellHistory(Step(s, Append(node, data)))
  {
    var t, n := Step(s, Append(node, data)), |s.cells|;
    assert t.cells[n].node == node && t.cells[n].linked == (n > 0);
    assert forall i :: 0 <= i < n ==> t.cells[i] == s.cells[i] && Nodes(s.cells)[i] == s.cells[i].node != node;
    hide Join, Nodes;
    forall i, j | 0 <= i < |t.cells| && 0 <= j < |t.cells|
      ensures Behind(t, i, j) <==> j == i - 1 && t.cells[i].linked
    {
      if i < n && j < n {
        assert Behind(t, i, j) <==> Behind(s, i, j);
      }
    }
  }

  /** Where a node of the list after a removal was before. */
  function Before(i: nat, at: nat, deleted: bool): nat {
    if deleted && i >= at then i + 1 else i
  }

  lemma RemoveFromBefore<N, T>(cells: seq<Cell<N, T>>, at: nat, i: nat)
    requires at < |cells| && i < |RemoveAt(cells, at)|
    ensures var deleted := at == 0 || cells[at].linked;
            var b := Before(i, at, deleted);
            && b < |cells| && (deleted ==> b != at)
            && RemoveAt(cells, at)[i] == cells[b].(linked := cells[b].linked && !(deleted && i == at))
  {
    RemoveAtCells(cells, at);
    hide RemoveAt, Sever;
  }

  lemma PairTells<N, T>(s: State<N, T>, at: nat, t: State<N, T>, i: nat, j: nat)
    requires LinksTellHistory(s) && at < |s.cells|
    requires t.cells == RemoveAt(s.cells, at) && t.addedBehind == s.addedBehind
    requires i < |t.cells| && j < |t.cells|
    ensures Behind(t, i, j) <==> j == i - 1 && t.cells[i].linked
  {
    var deleted := at == 0 || s.cells[at].linked;
    RemoveFromBefore(s.cells, at, i);
    RemoveFromBefore(s.cells, at, j);
    hide RemoveAt, Distinct, HeadUnlinked;
    assert Behind(t, i, j) <==> Behind(s, Before(i, at, deleted), Before(j, at, deleted));
  }

  lemma RemoveTells<N, T>(s: State<N, T>, at: nat, t: State<N, T>)
    requires LinksTellHistory(s) && at < |s.cells|
    requires t.cells == RemoveAt(s.cells, at) && t.addedBehind == s.addedBehind
    ensures LinksTellHistory(t)
  {
    RemoveKeepsDistinct(s.cells, at);
    if t.cells != [] {
      RemoveFromBefore(s.cells, at, 0);
    }
    hide RemoveAt, Distinct, Behind;
    forall i, j | 0 <= i < |t.cells| && 0 <= j < |t.cells|
      ensures Behind(t, i, j) <==> j == i - 1 && t.cells[i].linked
    {
      PairTells(s, at, t, i, j);
    }
  }

  lemma StepTells<N, T>(s: State<N, T>, op: Op<N, T>)
    requires LinksTellHistory(s) && Possible(s, op)
    ensures LinksTellHistory(Step(s, op))
  {
    match op
    case Append(node, data) => AppendTells(s, node, data);
    case Remove(at) => RemoveTells(s, at, Step(s, op));
    case Pop =>
      if s.cells != [] {
        RemoveTells(s, 0, Step(s, op));
      }
  }

  lemma {:induction false} RunTells<N, T>(s: State<N, T>, ops: seq<Op<N, T>>)
    requires LinksTellHistory(s) && RunPossible(s, ops)
    ensures LinksTellHistory(Run(s, ops))
    decreases |ops|
  {
    hide LinksTellHistory, Step;
    if ops != [] {
      StepTells(s, ops[0]);
      RunTells(Step(s, ops[0]), ops[1..]);
    }
  }

  /**
   * After any run from the empty list, nodes that come back included: no node
   * is twice in the list, the head has no back link, and removing the node at a
   * place deletes it, and nothing else, exactly when it is the head or the node
   * it was added behind has been in the list ever since.
   */
  lemma AfterAnyRun<N, T>(ops: seq<Op<N, T>>, at: nat)
    requires RunPossible(Start<N, T>(), ops)
    ensures var s := Run(Start<N, T>(), ops);
            && Distinct(s.cells) && HeadUnlinked(s.cells)
            && (at < |s.cells| ==>
                (Nodes(RemoveAt(s.cells, at)) == Nodes(s.cells[..at]) + Nodes(s.cells[at + 1..])
                 <==> at == 0 || exists j :: 0 <= j < |s.cells| && Behind(s, at, j)))
  {
    var s := Run(Start<N, T>(), ops);
    RunTells(Start<N, T>(), ops);
    if at < |s.cells| {
      RemoveDeletesExactly(s.cells, at);
      assert at > 0 ==> (Behind(s, at, at - 1) <==> s.cells[at].linked);
    }
  }

  // ----- The same runs on the heap

  /** Nodes that are neither in the list nor loose have no links, so that they can be added as single items. */
  ghost predicate Bare<T>(universe: set<L.Node<T>>, s: State<L.Node<T>, T>)
    reads universe
  {
    forall n :: n in universe && n !in L.NodeSet(s.cells) && n !in s.loose ==> n.next == null && n.last == null
  }

  ghost predicate Holds<T>(list: L.Node?<T>, s: State<L.Node<T>, T>, universe: set<L.Node<T>>)
    reads universe, L.NodeSet(s.cells)
  {
    L.Represents(list, s.cells) && L.NodeSet(s.cells) <= universe && Bare(universe, s)
  }

  method NodeAt<T>(list: L.Node?<T>, at: nat, ghost cells: L.Cells<T>) returns (item: L.Node<T>)
    requires L.Represents(list, cells) && at < |cells|
    ensures item == cells[at].node
  {
    item := list;
    var i := 0;
    while i < at
      invariant 0 <= i <= at && item == cells[i].node
    {
      assert cells[i].node.next == L.At(cells, i + 1);
      item := item.next;
      i := i + 1;
    }
  }

  method AddAgain<T>(list: L.Node?<T>, item: L.Node<T>, ghost s: State<L.Node<T>, T>, ghost universe: set<L.Node<T>>)
    returns (r: L.Node?<T>)
    requires Holds(list, s, universe) && item in universe && Possible(s, Append(item, item.data))
    modifies universe
    ensures Holds(r, Step(s, Append(item, old(item.data))), universe)
    ensures forall n :: n in universe ==> n.data == old(n.data)
  {
    ghost var cell, loose := Cell(item, item.data, false), s.loose;
    L.NodeSetIsNodes(s.cells);
    L.SingleIsList(item, cell);
    L.JoinNodeSet(s.cells, [cell]);
    hide Recorded;
    SameData(list, s.cells);
    r := L.AddBack(list, item, s.cells, [cell]);
    SameData(r, Join(s.cells, [cell]));
  }

  method TakeOff<T>(list: L.Node?<T>, ghost s: State<L.Node<T>, T>, ghost universe: set<L.Node<T>>)
    returns (r: L.Node?<T>)
    requires Holds(list, s, universe)
    modifies universe
    ensures Holds(r, Step(s, Pop), universe)
    ensures forall n :: n in universe ==> n.data == old(n.data)
  {
    ghost var rest := Sever(if s.cells == [] then [] else s.cells[1..]);
    var item;
    r, item := L.PopFront(list, s.cells);
    if s.cells != [] {
      BareAfterPop(s.cells, rest);
    }
  }

  lemma BareAfterPop<T>(cells: L.Cells<T>, rest: L.Cells<T>)
    requires cells != [] && rest == Sever(cells[1..])
    ensures L.NodeSet(rest) <= L.NodeSet(cells) <= L.NodeSet(rest) + {cells[0].node}
  {
    forall i | 0 < i < |cells|
      ensures cells[i].node in L.NodeSet(rest)
    {
      assert rest[i - 1].node == cells[i].node;
    }
  }

  lemma StillThere<T>(cells: L.Cells<T>, at: nat, i: nat)
    requires at < |cells| && i < |cells| && i != at && (!Cuts(cells, at) || i < at)
    ensures cells[i].node in L.NodeSet(RemoveAt(cells, at))
  {
    RemoveAtCells(cells, at);
    hide RemoveAt;
    assert RemoveAt(cells, at)[if i < at then i else i - 1].node == cells[i].node;
  }

  /** Who is neither left in the list nor loose after a removal: the node itself, or a single node behind a cut. */
  lemma BareAfterRemoval<T>(list: L.Node?<T>, cells: L.Cells<T>, at: nat, i: nat)
    requires L.Represents(list, cells) && at < |cells| && i < |cells| && i != at
    requires cells[i].node !in L.NodeSet(RemoveAt(cells, at)) && cells[i].node !in LeftLoose(cells, Remove(at))
    ensures cells[at].node.last == null && cells[i].node.next == null
    ensures cells[i].node.last == null || cells[i].node == cells[at].node.next
  {
    if !Cuts(cells, at) || i < at {
      StillThere(cells, at, i);
    } else {
      var lost := Sever(cells[at + 1..]);
      assert lost[i - at - 1].node == cells[i].node;
      hide Sever, RemoveAt, L.NodeSet;
    }
  }

  /** The nodes that a removal touches, and that it leaves in order. */
  lemma RemovalFacts<T>(list: L.Node?<T>, cells: L.Cells<T>, at: nat)
    requires L.Represents(list, cells) && at < |cells|
    ensures var item := cells[at].node;
            && item in L.NodeSet(cells)
            && L.Only(item.last) <= L.NodeSet(cells) && L.Only(item.next) <= L.NodeSet(cells)
            && item.last != item && item.next != item
    ensures L.NodeSet(RemoveAt(cells, at)) <= L.NodeSet(cells)
    ensures forall n :: n in L.NodeSet(cells) && n !in L.NodeSet(RemoveAt(cells, at)) &&
                        n !in LeftLoose(cells, Remove(at)) && n != cells[at].node ==>
              n.next == null && cells[at].node.last == null && (n.last == null || n == cells[at].node.next)
  {
    hide LeftLoose, RemoveAt;
    NodesStay(cells, at);
    forall n | n in L.NodeSet(cells) && n !in L.NodeSet(RemoveAt(cells, at)) &&
               n !in LeftLoose(cells, Remove(at)) && n != cells[at].node
      ensures n.next == null && cells[at].node.last == null && (n.last == null || n == cells[at].node.next)
    {
      var i :| 0 <= i < |cells| && cells[i].node == n;
      BareAfterRemoval(list, cells, at, i);
    }
  }

  lemma NodesStay<T>(cells: L.Cells<T>, at: nat)
    requires at < |cells|
    ensures L.NodeSet(RemoveAt(cells, at)) <= L.NodeSet(cells)
  {
  }

  method RemoveNode<T>(list: L.Node?<T>, item: L.Node<T>, at: nat, ghost s: State<L.Node<T>, T>,
          ghost universe: set<L.Node<T>>)
    returns (r: L.Node?<T>)
    requires Holds(list, s, universe) && at < |s.cells| && item == s.cells[at].node
    modifies universe
    ensures Holds(r, Step(s, Remove(at)), universe)
    ensures forall n :: n in universe ==> n.data == old(n.data)
  {
    hide L.Represents, L.NodeSet, RemoveAt, LeftLoose;
    RemovalFacts(list, s.cells, at);
    r := L.Remove(list, item, s.cells, at);
  }

  method RemovePlace<T>(list: L.Node?<T>, at: nat, ghost s: State<L.Node<T>, T>, ghost universe: set<L.Node<T>>)
    returns (r: L.Node?<T>)
    requires Holds(list, s, universe) && at < |s.cells|
    modifies universe
    ensures Holds(r, Step(s, Remove(at)), universe)
    ensures forall n :: n in universe ==> n.data == old(n.data)
  {
    var item := NodeAt(list, at, s.cells);
    r := RemoveNode(list, item, at, s, universe);
  }

  method Perform<T>(list: L.Node?<T>, op: Op<L.Node<T>, T>, ghost s: State<L.Node<T>, T>,
          ghost universe: set<L.Node<T>>)
    returns (r: L.Node?<T>)
    requires Holds(list, s, universe) && Possible(s, op)
    requires op.Append? ==> op.node in universe && op.node.data == op.data
    modifies universe
    ensures Holds(r, Step(s, op), universe)
    ensures forall n :: n in universe ==> n.data == old(n.data)
  {
    hide Holds, Step;
    match op
    case Append(node, _) => r := AddAgain(list, node, s, universe);
    case Remove(at) =>
      r := RemovePlace(list, at, s, universe);
    case Pop => r := TakeOff(list, s, universe);
  }

  /**
   * Any run of additions, removals and pops of single nodes, from the empty
   * list on: the list pointer represents the cells that the run on values has,
   * and every node that may be added again has no links.
   */
  method PerformAll<T>(ops: seq<Op<L.Node<T>, T>>, ghost universe: set<L.Node<T>>) returns (list: L.Node?<T>)
    requires RunPossible(Start<L.Node<T>, T>(), ops)
    requires forall n :: n in universe ==> n.next == null && n.last == null
    requires forall i :: 0 <= i < |ops| && ops[i].Append? ==> ops[i].node in universe && ops[i].node.data == ops[i].data
    modifies universe
    ensures Holds(list, Run(Start<L.Node<T>, T>(), ops), universe)
  {
    ghost var s := Start<L.Node<T>, T>();
    list := null;
    var i := 0;
    assert ops[0..] == ops;
    assert L.NodeSet(s.cells) == {};
    hide Holds, Step;
    while i < |ops|
      invariant 0 <= i <= |ops| && RunPossible(s, ops[i..])
      invariant Run(s, ops[i..]) == Run(Start<L.Node<T>, T>(), ops)
      invariant Holds(list, s, universe)
      invariant forall k :: 0 <= k < |ops| && ops[k].Append? ==>
                  ops[k].node in universe && ops[k].node.data == ops[k].data
    {
      assert ops[i..][1..] == ops[i + 1..];
      list := Perform(list, ops[i], s, universe);
      s := Step(s, ops[i]);
      i := i + 1;
    }
  }

  lemma SameData<T>(list: L.Node?<T>, cells: L.Cells<T>)
    requires L.Represents(list, cells)
    ensures forall i :: 0 <= i < |cells| ==> cells[i].node.data == cells[i].data
  {
  }
}
