/** The doubly linked list of rocsmq/src/linkedlist.c, on the heap. */
module LinkedList {
  import opened Chains
  import ExchangeSort

  class Node<T> {
    var last: Node?<T>
    var next: Node?<T>
    var data: T

    /** ll_create */
    constructor Create(data: T)
      ensures this.data == data && next == null && last == null
    {
      this.data := data;
      next := null;
      last := null;
    }
  }

  type Cells<T> = seq<Cell<Node<T>, T>>

  ghost function At<T>(s: Cells<T>, i: int): Node?<T> {
    if 0 <= i < |s| then s[i].node else null
  }

  ghost function NodeSet<T>(s: Cells<T>): (r: set<Node<T>>)
    ensures forall i :: 0 <= i < |s| ==> s[i].node in r
  {
    set i | 0 <= i < |s| :: s[i].node
  }

  lemma NodeSetIsNodes<T>(s: Cells<T>)
    ensures forall n :: n in NodeSet(s) <==> n in Nodes(s)
    ensures NodeSet(s) == Members(s)
  {
  }

  lemma SingleNodeSet<T>(cell: Cell<Node<T>, T>)
    ensures NodeSet([cell]) == {cell.node}
  {
    assert [cell][0].node in NodeSet([cell]);
  }

  lemma JoinNodeSet<T>(s: Cells<T>, t: Cells<T>)
    ensures NodeSet(Join(s, t)) == NodeSet(s) + NodeSet(t)
  {
    var r := Join(s, t);
    forall n | n in NodeSet(s) + NodeSet(t)
      ensures n in NodeSet(r)
    {
      if n in NodeSet(s) {
        var i :| 0 <= i < |s| && s[i].node == n;
        assert r[i].node == n;
      } else {
        var i :| 0 <= i < |t| && t[i].node == n;
        assert r[|s| + i].node == n;
      }
    }
  }

  /** Taking out a node that RemoveAt deletes leaves exactly the other nodes. */
  lemma SplitOff<T>(s: Cells<T>, i: nat)
    requires i < |s| && Distinct(s) && (i == 0 || s[i].linked)
    ensures NodeSet(RemoveAt(s, i)) !! {s[i].node}
    ensures NodeSet(RemoveAt(s, i)) + {s[i].node} == NodeSet(s)
  {
    hide RemoveAt, Distinct, NodeSet, Members;
    NodeSetIsNodes(s);
    NodeSetIsNodes(RemoveAt(s, i));
    MembersWithout(s, i);
  }

  /** The next links from a list pointer run through exactly these nodes and end in null. */
  ghost predicate IsChain<T>(list: Node?<T>, s: Cells<T>)
    reads NodeSet(s)
  {
    && list == At(s, 0)
    && Distinct(s)
    && (forall i {:trigger s[i].node.next} :: 0 <= i < |s| ==> s[i].node.next == At(s, i + 1))
    && (forall i {:trigger s[i].node.data} :: 0 <= i < |s| ==> s[i].node.data == s[i].data)
  }

  /** Every back link is null or the true predecessor, as the cells say. */
  ghost predicate BackLinks<T>(s: Cells<T>)
    reads NodeSet(s)
  {
    && HeadUnlinked(s)
    && (forall i {:trigger s[i].node.last} :: 0 <= i < |s| ==>
          s[i].node.last == if s[i].linked then At(s, i - 1) else null)
  }

  /** A list pointer represents these cells. */
  ghost predicate Represents<T>(list: Node?<T>, s: Cells<T>)
    reads NodeSet(s)
  {
    IsChain(list, s) && BackLinks(s)
  }

  /** A node without links is a list by itself. */
  lemma SingleIsList<T>(item: Node<T>, cell: Cell<Node<T>, T>)
    requires cell == Cell(item, item.data, false) && item.next == null && item.last == null
    ensures Represents(item, [cell]) && NodeSet([cell]) == {item}
  {
    SingleNodeSet(cell);
  }

  lemma RepresentsIsChain<T>(list: Node?<T>, s: Cells<T>)
    requires Represents(list, s)
    ensures IsChain(list, s)
  {
  }

  lemma TailIsChain<T>(list: Node?<T>, s: Cells<T>)
    requires IsChain(list, s) && s != []
    ensures IsChain(s[0].node.next, s[1..])
  {
  }

  method GetLast<T>(list: Node?<T>, ghost s: Cells<T>) returns (r: Node?<T>)
    requires IsChain(list, s)
    ensures r == At(s, |s| - 1)
    decreases |s|
  {
    if list == null {
      return null;
    }
    if list.next == null {
      return list;
    }
    TailIsChain(list, s);
    r := GetLast(list.next, s[1..]);
  }

  lemma SameNodeSet<T>(s: Cells<T>, t: Cells<T>)
    requires |s| == |t| && forall i :: 0 <= i < |s| ==> s[i].node == t[i].node
    ensures NodeSet(s) == NodeSet(t)
  {
  }

  /** The list after the payload of one node was overwritten. */
  lemma PayloadChanged<T>(list: Node?<T>, s: Cells<T>, at: nat, t: Cells<T>)
    requires at < |s| && t == s[at := s[at].(data := s[at].node.data)]
    requires Distinct(s) && list == At(s, 0) && BackLinks(s)
    requires forall i {:trigger s[i].node.next} :: 0 <= i < |s| ==> s[i].node.next == At(s, i + 1)
    requires forall i {:trigger s[i].node.data} :: 0 <= i < |s| && i != at ==> s[i].node.data == s[i].data
    ensures Represents(list, t)
  {
  }

  /** Two lists whose ends have been tied together. */
  lemma Tied<T>(s: Cells<T>, t: Cells<T>)
    requires s != [] && t != [] && Distinct(s) && Distinct(t) && NodeSet(s) !! NodeSet(t)
    requires forall i {:trigger s[i].node.next} :: 0 <= i < |s| ==>
               s[i].node.next == if i == |s| - 1 then t[0].node else At(s, i + 1)
    requires forall i {:trigger s[i].node.data} :: 0 <= i < |s| ==> s[i].node.data == s[i].data
    requires forall i {:trigger t[i].node.next} :: 0 <= i < |t| ==> t[i].node.next == At(t, i + 1)
    requires forall i {:trigger t[i].node.data} :: 0 <= i < |t| ==> t[i].node.data == t[i].data
    requires BackLinks(s)
    requires forall i {:trigger t[i].node.last} :: 0 <= i < |t| ==>
               t[i].node.last == if i == 0 then s[|s| - 1].node else if t[i].linked then At(t, i - 1) else null
    ensures Represents(s[0].node, Join(s, t))
  {
  }

  lemma JoinEmpty<T>(t: Cells<T>)
    ensures Join([], t) == t
  {
  }

  /** ll_add with LL_BACK */
  method AddBack<T>(list: Node?<T>, items: Node?<T>, ghost s: Cells<T>, ghost t: Cells<T>) returns (r: Node?<T>)
    requires Represents(list, s) && Represents(items, t) && NodeSet(s) !! NodeSet(t)
    requires s != [] ==> t != []
    modifies NodeSet(s), NodeSet(t)
    ensures Represents(r, Join(s, t))
  {
    hide Join;
    var end := GetLast(list, s);
    if end == null {
      JoinEmpty(t);
      return items;
    }
    end.next := items;
    items.last := end;
    r := list;
    Tied(s, t);
  }

  /** ll_create and ll_add with LL_BACK, the way every list is built. */
  method AddNew<T>(list: Node?<T>, data: T, ghost s: Cells<T>) returns (r: Node?<T>, item: Node<T>)
    requires Represents(list, s)
    modifies NodeSet(s)
    ensures fresh(item) && Represents(r, Join(s, [Cell(item, data, false)]))
    ensures NodeSet(Join(s, [Cell(item, data, false)])) == NodeSet(s) + {item}
  {
    item := new Node.Create(data);
    ghost var t := [Cell(item, data, false)];
    SingleIsList(item, t[0]);
    JoinNodeSet(s, t);
    hide Represents, Join, NodeSet;
    r := Add(list, item, Back, (a: T, b: T) => 0, s, t);
  }

  /** ll_add with LL_FRONT, which dereferences both lists */
  method AddFront<T>(list: Node<T>, items: Node<T>, ghost s: Cells<T>, ghost t: Cells<T>) returns (r: Node<T>)
    requires Represents(list, s) && Represents(items, t) && NodeSet(s) !! NodeSet(t)
    modifies NodeSet(s), NodeSet(t)
    ensures Represents(r, Join(t, s))
  {
    var end := GetLast(items, t);
    end.next := list;
    list.last := end;
    r := items;
    Tied(t, s);
  }

  method Exchange<T>(a: Node<T>, b: Node<T>)
    modifies a`data, b`data
    ensures a.data == old(b.data) && b.data == old(a.data)
  {
    var dummy := a.data;
    a.data := b.data;
    b.data := dummy;
  }

  ghost function Only<T>(item: Node?<T>): set<Node<T>> {
    if item == null then {} else {item}
  }

  ghost function LastOf<T>(item: Node?<T>): Node?<T>
    reads item
  {
    if item == null then null else item.last
  }

  ghost function NextOf<T>(item: Node?<T>): Node?<T>
    reads item
  {
    if item == null then null else item.next
  }

  /** How the links of a list look after the node at a place was taken out. */
  ghost predicate TakenOut<T>(ll: Node?<T>, s: Cells<T>, at: nat)
    requires at < |s|
    reads NodeSet(s)
  {
    && ll == (if at == 0 then At(s, 1) else At(s, 0))
    && (forall i {:trigger s[i].node.next} :: 0 <= i < |s| ==>
          s[i].node.next ==
          if i == at then null else if i == at - 1 && s[at].linked then At(s, at + 1) else At(s, i + 1))
    && (forall i {:trigger s[i].node.last} :: 0 <= i < |s| ==>
          s[i].node.last == if s[i].linked && i != at && i != at + 1 then At(s, i - 1) else null)
    && (forall i {:trigger s[i].node.data} :: 0 <= i < |s| ==> s[i].node.data == s[i].data)
  }

  lemma TakenOutRepresents<T>(ll: Node?<T>, s: Cells<T>, at: nat)
    requires at < |s| && Distinct(s) && HeadUnlinked(s) && TakenOut(ll, s, at)
    ensures Represents(ll, RemoveAt(s, at))
  {
    var r := RemoveAt(s, at);
    RemoveAtCells(s, at);
    RemoveKeepsDistinct(s, at);
    forall i | 0 <= i < |r|
      ensures r[i].node.next == At(r, i + 1) && r[i].node.data == r[i].data
      ensures r[i].node.last == if r[i].linked then At(r, i - 1) else null
    {
      assert s[i].node.data == s[i].data;
      assert i + 1 < |s| ==> s[i + 1].node.data == s[i + 1].data;
    }
  }

  /**
   * ll_remove, link by link. The back link of the item is cleared before it is
   * copied to the successor, so the successor always ends up without one. The
   * effect on the chain is stated for an item at a place of the list; `at` is
   * negative for an item that no longer hangs off it.
   */
  method Remove<T>(list: Node?<T>, item: Node?<T>, ghost s: Cells<T>, ghost at: int) returns (ll: Node?<T>)
    requires 0 <= at < |s| ==> Represents(list, s) && item == s[at].node
    modifies Only(item)`last, Only(item)`next, Only(LastOf(item))`next, Only(NextOf(item))`last
    ensures ll == if item != null && list == item then old(NextOf(item)) else list
    ensures LastOf(item) == null && NextOf(item) == null
    ensures old(LastOf(item)) != null && old(LastOf(item)) != item ==> old(LastOf(item)).next == old(NextOf(item))
    ensures old(NextOf(item)) != null ==> old(NextOf(item)).last == null
    ensures 0 <= at < |s| ==> Represents(ll, RemoveAt(s, at))
  {
    ll := list;
    if item == null {
      return list;
    }
    if list == item {
      ll := list.next;
    }
    if item.last != null {
      item.last.next := item.next;
      item.last := null;
    }
    if item.next != null {
      item.next.last := item.last;
      item.next := null;
    }
    if 0 <= at < |s| {
      TakenOutRepresents(ll, s, at);
    }
  }

  /** ll_pop with LL_FRONT; the popped node keeps its next link. */
  method PopFront<T>(list: Node?<T>, ghost s: Cells<T>) returns (r: Node?<T>, item: Node?<T>)
    requires Represents(list, s)
    modifies Only(NextOf(list))`last
    ensures item == list && r == old(NextOf(list))
    ensures Represents(r, Sever(if s == [] then [] else s[1..]))
  {
    item := list;
    if list == null {
      return null, item;
    }
    if list.next != null {
      list.next.last := null;
    }
    r := list.next;
    ghost var t := Sever(s[1..]);
    forall i | 0 <= i < |t|
      ensures t[i].node.next == At(t, i + 1) && t[i].node.data == t[i].data
      ensures t[i].node.last == if t[i].linked then At(t, i - 1) else null
    {
      assert t[i].node == s[i + 1].node;
    }
  }

  /** The payloads a comparator takes for the searched one: those it maps to zero. */
  function MatchesItem<T>(cmp: (T, T) -> int, item: T): T -> bool {
    data => cmp(data, item) == 0
  }

  /** ll_find: the first node the comparator takes for the item, or null. */
  method Find<T>(list: Node?<T>, item: Node<T>, cmp: (T, T) -> int, ghost s: Cells<T>) returns (r: Node?<T>)
    requires IsChain(list, s)
    ensures r == At(s, FirstDeadIndex(s, MatchesItem(cmp, item.data)))
    ensures r == null ==> forall i :: 0 <= i < |s| ==> cmp(s[i].data, item.data) != 0
    ensures r != null ==> exists i ::
              && 0 <= i < |s| && r == s[i].node && cmp(s[i].data, item.data) == 0
              && forall j :: 0 <= j < i ==> cmp(s[j].data, item.data) != 0
    decreases |s|
  {
    if list == null {
      return null;
    }
    assert list.data == s[0].data;
    if cmp(list.data, item.data) == 0 {
      return list;
    }
    if list.next != null {
      TailIsChain(list, s);
      r := Find(list.next, item, cmp, s[1..]);
      return r;
    }
    return null;
  }

  function Payload<N, T>(s: seq<Cell<N, T>>): (r: seq<T>)
    ensures |r| == |s|
    ensures forall i :: 0 <= i < |s| ==> r[i] == s[i].data
  {
    if s == [] then [] else [s[0].data] + Payload(s[1..])
  }

  /** The same nodes in the same order with other payloads. */
  function WithPayload<N, T>(s: seq<Cell<N, T>>, data: seq<T>): (r: seq<Cell<N, T>>)
    requires |s| == |data|
    ensures |r| == |s|
    ensures forall i :: 0 <= i < |s| ==> r[i] == s[i].(data := data[i])
  {
    if s == [] then [] else [s[0].(data := data[0])] + WithPayload(s[1..], data[1..])
  }

  /** What ll_sort leaves: the same nodes in the same order, payloads sorted, every back link restored. */
  function Resorted<N, T>(s: seq<Cell<N, T>>, cmp: (T, T) -> int): (r: seq<Cell<N, T>>)
    ensures |r| == |s|
    ensures forall i :: 0 <= i < |s| ==> r[i] == Cell(s[i].node, ExchangeSort.Sort(cmp, Payload(s))[i], i > 0)
  {
    seq(|s|, i requires 0 <= i < |s| => Cell(s[i].node, ExchangeSort.Sort(cmp, Payload(s))[i], i > 0))
  }

  /** Payloads as a running pass has left them. */
  ghost predicate Holds<T>(s: Cells<T>, data: seq<T>)
    reads NodeSet(s)
  {
    && |data| == |s|
    && (forall i {:trigger s[i].node.data} :: 0 <= i < |s| ==> s[i].node.data == data[i])
  }

  /** Links without regard to payloads and back links. */
  ghost predicate NextLinks<T>(list: Node?<T>, s: Cells<T>)
    reads NodeSet(s)
  {
    && list == At(s, 0)
    && Distinct(s)
    && (forall i {:trigger s[i].node.next} :: 0 <= i < |s| ==> s[i].node.next == At(s, i + 1))
  }

  /** A pass that has come as far as position k still has the same outcome. */
  ghost predicate PassSoFar<T>(cmp: (T, T) -> int, original: seq<T>, data: seq<T>, k: nat) {
    && 0 <= k < |data| == |original|
    && var (best, others) := ExchangeSort.Pass(cmp, data[0], data[k + 1..]);
       ExchangeSort.Pass(cmp, original[0], original[1..]) == (best, data[1..k + 1] + others)
  }

  lemma PassAdvances<T>(cmp: (T, T) -> int, original: seq<T>, data: seq<T>, k: nat, after: seq<T>)
    requires k + 1 < |data| && PassSoFar(cmp, original, data, k)
    requires after == if cmp(data[0], data[k + 1]) < 0 then data[0 := data[k + 1]][k + 1 := data[0]] else data
    ensures PassSoFar(cmp, original, after, k + 1)
  {
    assert data[k + 1..][1..] == data[k + 2..] == after[k + 2..];
    assert data[1..k + 1] == after[1..k + 1];
    var (best, others) := ExchangeSort.Pass(cmp, after[0], after[k + 2..]);
    assert ExchangeSort.Pass(cmp, data[0], data[k + 1..]) == (best, [after[k + 1]] + others);
    assert data[1..k + 1] + ([after[k + 1]] + others) == after[1..k + 2] + others;
  }

  method FirstPass<T>(list: Node<T>, cmp: (T, T) -> int, ghost s: Cells<T>, ghost original: seq<T>)
    returns (ghost data: seq<T>, ghost calls: nat)
    requires NextLinks(list, s) && Holds(s, original)
    modifies NodeSet(s)`data
    ensures NextLinks(list, s) && Holds(s, data)
    ensures (data[0], data[1..]) == ExchangeSort.Pass(cmp, original[0], original[1..])
    ensures calls == |s| - 1
  {
    var start, cursor := list, list;
    data, calls := original, 0;
    assert original[1..1] + ExchangeSort.Pass(cmp, original[0], original[1..]).1 ==
           ExchangeSort.Pass(cmp, original[0], original[1..]).1;
    while cursor.next != null
      invariant calls < |s| && cursor == s[calls].node
      invariant NextLinks(list, s) && Holds(s, data)
      invariant PassSoFar(cmp, original, data, calls)
      decreases |s| - calls
    {
      cursor := cursor.next;
      ghost var before := data;
      if cmp(start.data, cursor.data) < 0 {
        Exchange(start, cursor);
        data := data[0 := data[calls + 1]][calls + 1 := data[0]];
      }
      PassAdvances(cmp, original, before, calls, data);
      calls := calls + 1;
    }
    assert data[1..] == data[1..calls + 1] + ExchangeSort.Pass(cmp, data[0], data[calls + 1..]).1;
  }

  lemma ResortedCells<N, T>(s: seq<Cell<N, T>>, cmp: (T, T) -> int, data: seq<T>)
    requires s != [] && |data| == |s|
    requires (data[0], data[1..]) == ExchangeSort.Pass(cmp, Payload(s)[0], Payload(s)[1..])
    ensures Resorted(s, cmp)[0] == Cell(s[0].node, data[0], false)
    ensures var q := Resorted(WithPayload(s[1..], data[1..]), cmp);
            |q| == |s| - 1 && forall i :: 0 <= i < |q| ==> Resorted(s, cmp)[i + 1] == q[i].(linked := true)
  {
    var t := WithPayload(s[1..], data[1..]);
    assert Payload(t) == data[1..];
    assert ExchangeSort.Sort(cmp, Payload(s)) == [data[0]] + ExchangeSort.Sort(cmp, Payload(t));
  }

  /** Hanging the sorted tail behind the first node completes the list. */
  lemma TailSorted<T>(list: Node<T>, s: Cells<T>, cmp: (T, T) -> int, data: seq<T>)
    requires s != [] && list == s[0].node && Distinct(s) && |data| == |s|
    requires (data[0], data[1..]) == ExchangeSort.Pass(cmp, Payload(s)[0], Payload(s)[1..])
    requires list.data == data[0] && list.next == At(s, 1)
    requires |s| > 1 ==> Sorted(s[1].node, WithPayload(s[1..], data[1..]), cmp) && s[1].node.last == list
    ensures Sorted(list, s, cmp)
  {
    ResortedCells(s, cmp, data);
    Behind(list, Resorted(s, cmp), Resorted(WithPayload(s[1..], data[1..]), cmp));
  }

  lemma Behind<T>(list: Node<T>, r: Cells<T>, q: Cells<T>)
    requires |r| == |q| + 1 && r[0].node == list && r[0].data == list.data && Distinct(r)
    requires forall i :: 0 <= i < |q| ==> r[i + 1] == q[i].(linked := true)
    requires DoublyLinked(At(q, 0), q) && list.next == At(q, 0) && (q != [] ==> q[0].node.last == list)
    ensures DoublyLinked(list, r)
  {
    forall i | 0 < i < |r|
      ensures r[i].node.next == At(r, i + 1) && r[i].node.data == r[i].data && r[i].node.last == At(r, i - 1)
    {
      assert r[i] == q[i - 1].(linked := true);
      assert q[i - 1].node.next == At(q, i);
      assert q[i - 1].node.data == q[i - 1].data;
    }
  }

  /** A chain in which every node but the head has its back link; that of the head may be anything. */
  ghost predicate DoublyLinked<T>(list: Node?<T>, r: Cells<T>)
    reads NodeSet(r)
  {
    && IsChain(list, r)
    && (forall i {:trigger r[i].node.last} :: 0 < i < |r| ==> r[i].node.last == At(r, i - 1))
  }

  ghost predicate Sorted<T>(list: Node?<T>, s: Cells<T>, cmp: (T, T) -> int)
    reads NodeSet(s)
  {
    DoublyLinked(list, Resorted(s, cmp))
  }

  /** The last two assignments of ll_sort. */
  method HangBehind<T>(start: Node<T>, tail: Node<T>, ghost r: Cells<T>)
    requires DoublyLinked(tail, r) && start !in NodeSet(r)
    modifies start`next, tail`last
    ensures DoublyLinked(tail, r) && start.next == tail && tail.last == start
  {
    start.next := tail;
    start.next.last := start;
  }

  lemma TailReady<T>(list: Node<T>, s: Cells<T>, data: seq<T>)
    requires NextLinks(list, s) && Holds(s, data) && |s| > 1
    ensures var t := WithPayload(s[1..], data[1..]);
            && IsChain(list.next, t) && list.next == s[1].node
            && NodeSet(t) <= NodeSet(s) && list in NodeSet(s) && list !in NodeSet(t)
  {
  }

  function Comparisons(n: nat): nat {
    if n == 0 then 0 else n - 1 + Comparisons(n - 1)
  }

  lemma {:induction false} ComparisonsClosedForm(n: nat)
    ensures 2 * Comparisons(n) == n * (n - 1)
  {
    if n > 0 {
      ComparisonsClosedForm(n - 1);
    }
  }

  /** ll_sort; it neither needs nor reads any back link, and leaves that of the head as it was. */
  method Sort<T>(list: Node?<T>, cmp: (T, T) -> int, ghost s: Cells<T>) returns (start: Node?<T>, ghost calls: nat)
    requires IsChain(list, s)
    modifies NodeSet(s)
    ensures start == list && Sorted(list, s, cmp)
    ensures LastOf(list) == old(LastOf(list))
    ensures calls == Comparisons(|s|)
    decreases |s|, 1
  {
    if list == null {
      return list, 0;
    }
    hide Sorted;
    start := list;
    ghost var data;
    data, calls := FirstPass(start, cmp, s, Payload(s));
    if start.next != null {
      ghost var more := SortBehind(start, cmp, s, data);
      calls := calls + more;
    }
    TailSorted(list, s, cmp, data);
  }

  /** The recursive half of ll_sort: the rest of the list is sorted and hung behind the first node again. */
  method SortBehind<T>(start: Node<T>, cmp: (T, T) -> int, ghost s: Cells<T>, ghost data: seq<T>)
    returns (ghost calls: nat)
    requires NextLinks(start, s) && Holds(s, data) && |s| > 1
    modifies NodeSet(s)
    ensures Sorted(s[1].node, WithPayload(s[1..], data[1..]), cmp)
    ensures start.next == s[1].node && s[1].node.last == start
    ensures start.data == old(start.data) && start.last == old(start.last)
    ensures calls == Comparisons(|s| - 1)
    decreases |s|, 0
  {
    ghost var t := WithPayload(s[1..], data[1..]);
    TailReady(start, s, data);
    hide NextLinks, Holds, IsChain, Resorted, DoublyLinked;
    var tail;
    tail, calls := Sort(start.next, cmp, t);
    HangBehind(start, tail, Resorted(t, cmp));
  }

  /** ll_add with LL_SORT: the new items in front of the list, then everything sorted. */
  method AddSorted<T>(list: Node?<T>, items: Node<T>, cmp: (T, T) -> int, ghost s: Cells<T>, ghost t: Cells<T>)
    returns (r: Node<T>)
    requires Represents(list, s) && Represents(items, t) && NodeSet(s) !! NodeSet(t)
    modifies NodeSet(s), NodeSet(t)
    ensures r == items && Represents(r, Resorted(t + s, cmp))
  {
    TieInFront(list, items, s, t);
    var start;
    ghost var calls;
    start, calls := Sort(items, cmp, Join(t, s));
    assert Payload(Join(t, s)) == Payload(t + s);
    assert Resorted(Join(t, s), cmp) == Resorted(t + s, cmp);
    r := items;
  }

  datatype Where = Front | Back | InOrder | Elsewhere(code: int)

  /** The list that ll_add returns; a value of `where` it does not know loses the old list. */
  function Added<N, T>(where: Where, cmp: (T, T) -> int, s: seq<Cell<N, T>>, t: seq<Cell<N, T>>): seq<Cell<N, T>> {
    match where
    case Front => Join(t, s)
    case Back => Join(s, t)
    case InOrder => Resorted(t + s, cmp)
    case Elsewhere(_) => t
  }

  lemma NodesOfJoin<N, T>(s: seq<Cell<N, T>>, t: seq<Cell<N, T>>)
    ensures Nodes(Join(s, t)) == Nodes(s) + Nodes(t)
    ensures Payload(Join(s, t)) == Payload(s) + Payload(t)
  {
  }

  lemma JoinKeepsLinks<N, T>(s: seq<Cell<N, T>>, t: seq<Cell<N, T>>)
    requires FullyLinked(s) && FullyLinked(t)
    ensures FullyLinked(Join(s, t))
  {
  }

  /** What adding at the back and in front means for nodes, payloads and back links. */
  lemma AddedAtEnds<N, T>(cmp: (T, T) -> int, s: seq<Cell<N, T>>, t: seq<Cell<N, T>>)
    ensures Nodes(Added(Back, cmp, s, t)) == Nodes(s) + Nodes(t)
    ensures Payload(Added(Back, cmp, s, t)) == Payload(s) + Payload(t)
    ensures Nodes(Added(Front, cmp, s, t)) == Nodes(t) + Nodes(s)
    ensures Payload(Added(Front, cmp, s, t)) == Payload(t) + Payload(s)
    ensures FullyLinked(s) && FullyLinked(t) ==>
              FullyLinked(Added(Back, cmp, s, t)) && FullyLinked(Added(Front, cmp, s, t))
  {
    NodesOfJoin(s, t);
    NodesOfJoin(t, s);
    if FullyLinked(s) && FullyLinked(t) {
      JoinKeepsLinks(s, t);
      JoinKeepsLinks(t, s);
    }
    hide Join, Resorted, Nodes, FullyLinked, Payload;
  }

  /** What adding in order means: the new nodes come first, and only payloads change places. */
  lemma AddedInOrder<N, T(!new)>(cmp: (T, T) -> int, s: seq<Cell<N, T>>, t: seq<Cell<N, T>>)
    ensures FullyLinked(Added(InOrder, cmp, s, t)) && Nodes(Added(InOrder, cmp, s, t)) == Nodes(t) + Nodes(s)
    ensures var all := multiset(Payload(s)) + multiset(Payload(t));
            && multiset(Payload(Added(InOrder, cmp, s, t))) == all
            && (ExchangeSort.TotalOn(cmp, all) && ExchangeSort.TransitiveOn(cmp, all) ==>
                ExchangeSort.Sorted(cmp, Payload(Added(InOrder, cmp, s, t))))
  {
    hide Join, Resorted, Nodes, FullyLinked, Payload, ExchangeSort.Sort, ExchangeSort.Sorted;
    hide ExchangeSort.TotalOn, ExchangeSort.TransitiveOn;
    PayloadOfSum(t, s);
    ResortedPayload(t + s, cmp);
    NodesAppend(t, s);
    ExchangeSort.SortPermutes(cmp, Payload(t + s));
    var all := multiset(Payload(s)) + multiset(Payload(t));
    assert multiset(Payload(t + s)) == all;
    if ExchangeSort.TotalOn(cmp, all) && ExchangeSort.TransitiveOn(cmp, all) {
      ExchangeSort.SortSorts(cmp, Payload(t + s), all);
    }
  }

  lemma PayloadOfSum<N, T>(s: seq<Cell<N, T>>, t: seq<Cell<N, T>>)
    ensures Payload(s + t) == Payload(s) + Payload(t)
  {
  }

  /** ll_add, which dereferences the items in front and in order, and in front also the list. */
  method Add<T>(list: Node?<T>, items: Node?<T>, where: Where, cmp: (T, T) -> int, ghost s: Cells<T>, ghost t: Cells<T>)
    returns (r: Node?<T>)
    requires Represents(list, s) && Represents(items, t) && NodeSet(s) !! NodeSet(t)
    requires where == Front ==> list != null && items != null
    requires where == Back && list != null ==> items != null
    requires where == InOrder ==> items != null
    modifies NodeSet(s), NodeSet(t)
    ensures Represents(r, Added(where, cmp, s, t))
    ensures where == Back ==> Represents(r, Join(s, t))
    ensures where == Front ==> Represents(r, Join(t, s))
    ensures where == InOrder ==> r == items && Represents(r, Resorted(t + s, cmp))
  {
    assert items != null ==> t != [];
    assert list == null ==> s == [];
    hide Represents, NodeSet, Join, Resorted;
    match where
    case Front => r := AddFront(list, items, s, t);
    case Back => r := AddBack(list, items, s, t);
    case InOrder => r := AddSorted(list, items, cmp, s, t);
    case Elsewhere(_) => r := items;
  }

  method TieInFront<T>(list: Node?<T>, items: Node<T>, ghost s: Cells<T>, ghost t: Cells<T>)
    requires Represents(list, s) && Represents(items, t) && NodeSet(s) !! NodeSet(t)
    modifies NodeSet(s), NodeSet(t)
    ensures Represents(items, Join(t, s))
  {
    var end := GetLast(items, t);
    end.next := list;
    if list != null {
      list.last := end;
      Tied(t, s);
    } else {
      assert Join(t, s) == t;
    }
  }

  /**
   * What a sorted list is, for a comparator that is total and transitive on
   * its payloads: the same nodes in the same order, fully linked, with the
   * same payloads in order.
   */
  lemma ResortedIsSorted<N, T(!new)>(s: seq<Cell<N, T>>, cmp: (T, T) -> int)
    requires ExchangeSort.TotalOn(cmp, multiset(Payload(s))) && ExchangeSort.TransitiveOn(cmp, multiset(Payload(s)))
    ensures Nodes(Resorted(s, cmp)) == Nodes(s) && FullyLinked(Resorted(s, cmp))
    ensures ExchangeSort.Sorted(cmp, Payload(Resorted(s, cmp)))
    ensures multiset(Payload(Resorted(s, cmp))) == multiset(Payload(s))
  {
    hide ExchangeSort.TotalOn, ExchangeSort.TransitiveOn, ExchangeSort.Sort, ExchangeSort.Sorted, Resorted;
    ResortedPayload(s, cmp);
    ExchangeSort.SortSorts(cmp, Payload(s), multiset(Payload(s)));
    ExchangeSort.SortPermutes(cmp, Payload(s));
  }

  lemma ResortedPayload<N, T>(s: seq<Cell<N, T>>, cmp: (T, T) -> int)
    ensures Payload(Resorted(s, cmp)) == ExchangeSort.Sort(cmp, Payload(s))
    ensures Nodes(Resorted(s, cmp)) == Nodes(s) && FullyLinked(Resorted(s, cmp))
  {
  }
}
