/** The list exercise of linkedlist/src/test.c: taking nodes off one end and adding them at the other. */
module Rotation {
  import opened Chains
  import L = LinkedList

  /** The cells in this order with every back link set. */
  function Relinked<N, T>(s: seq<Cell<N, T>>): (r: seq<Cell<N, T>>)
    ensures |r| == |s|
    ensures forall i :: 0 <= i < |s| ==> r[i] == s[i].(linked := i > 0)
  {
    seq(|s|, i requires 0 <= i < |s| => s[i].(linked := i > 0))
  }

  function Rotated<N, T>(s: seq<Cell<N, T>>, k: nat): seq<Cell<N, T>>
    requires k <= |s|
  {
    Relinked(s[k..] + s[..k])
  }

  lemma RelinkedMeans<N, T>(s: seq<Cell<N, T>>)
    ensures Nodes(Relinked(s)) == Nodes(s) && L.Payload(Relinked(s)) == L.Payload(s) && FullyLinked(Relinked(s))
  {
  }

  /** The nodes and payloads from place k on, then those before it, fully linked. */
  lemma RotatedMeans<N, T>(s: seq<Cell<N, T>>, k: nat)
    requires k <= |s|
    ensures Nodes(Rotated(s, k)) == Nodes(s)[k..] + Nodes(s)[..k]
    ensures L.Payload(Rotated(s, k)) == L.Payload(s)[k..] + L.Payload(s)[..k]
    ensures FullyLinked(Rotated(s, k))
  {
    hide Nodes, L.Payload, Relinked, FullyLinked;
    RelinkedMeans(s[k..] + s[..k]);
    NodesAppend(s[k..], s[..k]);
    NodesSlices(s, k);
    L.PayloadOfSum(s[k..], s[..k]);
    L.PayloadOfSum(s[..k], s[k..]);
    assert s == s[..k] + s[k..];
    assert |L.Payload(s[..k])| == k;
  }

  /** A full turn, either way, restores a fully linked list. */
  lemma FullTurn<N, T>(s: seq<Cell<N, T>>)
    requires FullyLinked(s)
    ensures Rotated(s, 0) == s && Rotated(s, |s|) == s
  {
  }

  lemma HeadToBack<N, T>(s: seq<Cell<N, T>>, k: nat)
    requires k < |s|
    ensures var r := Rotated(s, k);
            Join(RemoveAt(r, 0), [r[0]]) == Rotated(s, k + 1)
  {
    var r, q := Rotated(s, k), Rotated(s, k + 1);
    var left := RemoveAt(r, 0);
    RemoveAtCells(r, 0);
    hide RemoveAt;
    forall i | 0 <= i < |q|
      ensures Join(left, [r[0]])[i] == q[i]
    {
      assert q[i] == (s[k + 1..] + s[..k + 1])[i].(linked := i > 0);
      assert i < |left| ==> r[i + 1] == (s[k..] + s[..k])[i + 1].(linked := true);
    }
  }

  lemma TailToFront<N, T>(s: seq<Cell<N, T>>, k: nat)
    requires 0 < k <= |s| && |s| > 1
    ensures var r := Rotated(s, k);
            Join([r[|s| - 1].(linked := false)], RemoveAt(r, |s| - 1)) == Rotated(s, k - 1)
  {
    var r, q := Rotated(s, k), Rotated(s, k - 1);
    var left := RemoveAt(r, |s| - 1);
    RemoveAtCells(r, |s| - 1);
    hide RemoveAt;
    forall i | 0 <= i < |q|
      ensures Join([r[|s| - 1].(linked := false)], left)[i] == q[i]
    {
      assert q[i] == (s[k - 1..] + s[..k - 1])[i].(linked := i > 0);
      assert i > 0 ==> r[i - 1] == (s[k..] + s[..k])[i - 1].(linked := i - 1 > 0);
    }
  }

  lemma ListFacts<T>(list: L.Node?<T>, s: L.Cells<T>, i: nat)
    requires L.Represents(list, s) && i < |s|
    ensures Distinct(s) && list == s[0].node && s[i].node.data == s[i].data
    ensures L.Only(s[i].node.last) + L.Only(s[i].node.next) + {s[i].node} <= L.NodeSet(s)
  {
  }

  method HeadRound<T>(list: L.Node<T>, ghost s: L.Cells<T>) returns (r: L.Node<T>)
    requires L.Represents(list, s) && s != []
    modifies L.NodeSet(s)
    ensures L.Represents(r, Join(RemoveAt(s, 0), [s[0].(linked := false)]))
    ensures L.NodeSet(Join(RemoveAt(s, 0), [s[0].(linked := false)])) == L.NodeSet(s)
  {
    hide L.Represents, RemoveAt, L.NodeSet, Join, Distinct;
    ListFacts(list, s, 0);
    L.SplitOff(s, 0);
    var elem := list;
    ghost var cell := s[0].(linked := false);
    L.SingleNodeSet(cell);
    L.JoinNodeSet(RemoveAt(s, 0), [cell]);
    var rest := L.Remove(list, elem, s, 0);
    L.SingleIsList(elem, cell);
    var added := L.AddBack(rest, elem, RemoveAt(s, 0), [cell]);
    Headed(added, Join(RemoveAt(s, 0), [cell]));
    r := added;
  }

  lemma CutTail<N, T>(s: seq<Cell<N, T>>)
    requires |s| > 1 && s[|s| - 1].linked
    ensures RemoveAt(s, |s| - 1) != []
  {
  }

  lemma Headed<T>(list: L.Node?<T>, s: L.Cells<T>)
    requires L.Represents(list, s) && s != []
    ensures list != null && list == s[0].node
  {
  }

  method TailRound<T>(list: L.Node<T>, ghost s: L.Cells<T>) returns (r: L.Node<T>)
    requires L.Represents(list, s) && |s| > 1 && s[|s| - 1].linked
    modifies L.NodeSet(s)
    ensures L.Represents(r, Join([s[|s| - 1].(linked := false)], RemoveAt(s, |s| - 1)))
    ensures L.NodeSet(Join([s[|s| - 1].(linked := false)], RemoveAt(s, |s| - 1))) == L.NodeSet(s)
  {
    ghost var at := |s| - 1;
    CutTail(s);
    ListFacts(list, s, at);
    L.SplitOff(s, at);
    L.RepresentsIsChain(list, s);
    hide L.Represents, RemoveAt, L.IsChain, L.NodeSet, Join, Distinct, L.LastOf, L.NextOf;
    var elem := L.GetLast(list, s);
    ghost var cell := s[at].(linked := false);
    L.SingleNodeSet(cell);
    L.JoinNodeSet([cell], RemoveAt(s, at));
    var rest := L.Remove(list, elem, s, at);
    L.SingleIsList(elem, cell);
    Headed(rest, RemoveAt(s, at));
    r := L.AddFront(rest, elem, RemoveAt(s, at), [cell]);
  }

  /** Counting on around the list. */
  lemma CountsAround(n: nat, i: nat)
    requires n > 0
    ensures (i + 1) % n == if i % n + 1 == n then 0 else i % n + 1
  {
    var q, rest := i / n, i % n;
    var turns, r := if rest + 1 == n then q + 1 else q, if rest + 1 == n then 0 else rest + 1;
    assert i + 1 == turns * n + r;
    BetweenMultiples((i + 1) / n - turns, n, r - (i + 1) % n);
  }

  lemma BetweenMultiples(d: int, n: int, x: int)
    requires n > 0 && d * n == x && -n < x < n
    ensures x == 0
  {
    assert d >= 1 ==> d * n >= n;
    assert d <= -1 ==> d * n <= -n;
  }

  /** k rounds of taking the head and adding it at the back rotate the list by k, fully linked throughout. */
  method RotateForward<T>(list: L.Node<T>, k: nat, ghost s: L.Cells<T>) returns (r: L.Node<T>)
    requires L.Represents(list, s) && FullyLinked(s) && s != []
    modifies L.NodeSet(s)
    ensures L.Represents(r, Rotated(s, k % |s|))
    ensures k % |s| == 0 ==> L.Represents(r, s)
  {
    hide L.Represents, L.NodeSet, Rotated, RemoveAt, Join;
    FullTurn(s);
    r := list;
    var i := 0;
    ghost var turn := 0;
    while i < k
      invariant 0 <= i <= k && turn == i % |s|
      invariant L.Represents(r, Rotated(s, turn)) && |Rotated(s, turn)| == |s|
      invariant L.NodeSet(Rotated(s, turn)) == L.NodeSet(s)
    {
      HeadToBack(s, turn);
      RotatedShape(s, turn);
      RotatedShape(s, turn + 1);
      CountsAround(|s|, i);
      r := HeadRound(r, Rotated(s, turn));
      i := i + 1;
      turn := if turn + 1 == |s| then 0 else turn + 1;
    }
  }

  /** k rounds of taking the last node and adding it in front rotate the other way. */
  method RotateBackward<T>(list: L.Node<T>, k: nat, ghost s: L.Cells<T>) returns (r: L.Node<T>)
    requires L.Represents(list, s) && FullyLinked(s) && |s| > 1
    modifies L.NodeSet(s)
    ensures L.Represents(r, Rotated(s, |s| - k % |s|))
    ensures k % |s| == 0 ==> L.Represents(r, s)
  {
    hide L.Represents, L.NodeSet, Rotated, RemoveAt, Join;
    FullTurn(s);
    RotatedShape(s, |s|);
    r := list;
    var i := 0;
    ghost var at := |s|;
    while i < k
      invariant 0 <= i <= k && at == |s| - i % |s|
      invariant L.Represents(r, Rotated(s, at)) && |Rotated(s, at)| == |s|
      invariant L.NodeSet(Rotated(s, at)) == L.NodeSet(s)
    {
      TailToFront(s, at);
      RotatedShape(s, at);
      RotatedShape(s, at - 1);
      CountsAround(|s|, i);
      r := TailRound(r, Rotated(s, at));
      i := i + 1;
      at := if at == 1 then |s| else at - 1;
    }
  }

  lemma RotatedShape<N, T>(s: seq<Cell<N, T>>, k: nat)
    requires k <= |s|
    ensures |Rotated(s, k)| == |s| && FullyLinked(Rotated(s, k))
    ensures s != [] ==> Rotated(s, k)[0].(linked := false) == Rotated(s, k)[0]
  {
  }
}
