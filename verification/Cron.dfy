/** The cron table of rocsmq-cron/src/rocs_cron.c, on the heap. */
module Cron {
  import opened Chains
  import opened CronSpec
  import L = LinkedList

  type JobNode = L.Node<Job>
  type JobCells = seq<Cell<JobNode, Job>>

  /** The nodes of the dead jobs. */
  ghost function DeadNodes(s: JobCells, dead: Job -> bool): set<JobNode> {
    set i | 0 <= i < |s| && dead(s[i].data) :: s[i].node
  }

  /** The part of the table a walk has not come to: its own links, whatever its first back link is. */
  ghost predicate RestLinks(rest: JobCells)
    reads L.NodeSet(rest)
  {
    && Distinct(rest)
    && (forall i {:trigger rest[i].node.next} :: 0 <= i < |rest| ==> rest[i].node.next == L.At(rest, i + 1))
    && (forall i {:trigger rest[i].node.data} :: 0 <= i < |rest| ==> rest[i].node.data == rest[i].data)
    && (forall i {:trigger rest[i].node.last} :: 0 < i < |rest| ==>
          rest[i].node.last == if rest[i].linked then L.At(rest, i - 1) else null)
  }

  /**
   * A walk over the table: the kept jobs, the rest still to come, and whether
   * the chain has been cut, in which case the rest no longer hangs off it.
   */
  ghost predicate Walking(list: L.Node?<Job>, table: JobCells, kept: JobCells, rest: JobCells, cut: bool)
    reads L.NodeSet(table), L.NodeSet(rest)
  {
    && L.Represents(list, table)
    && RestLinks(rest)
    && (!cut ==> table == kept + rest)
    && (cut ==> table != [] && L.NodeSet(table) !! L.NodeSet(rest))
    && (rest != [] ==> L.Only(rest[0].node.last) !! L.NodeSet(rest))
    && (cut && rest != [] ==> L.Only(rest[0].node.last) !! L.NodeSet(table))
  }

  /** A job that stays is passed. */
  lemma WalkPasses(list: L.Node?<Job>, table: JobCells, kept: JobCells, rest: JobCells, cut: bool)
    requires Walking(list, table, kept, rest, cut) && rest != []
    ensures Walking(list, table, kept + [rest[0]], rest[1..], cut)
    ensures L.NodeSet(rest[1..]) <= L.NodeSet(rest)
    ensures |rest| > 1 ==> L.Only(rest[1].node.last) <= L.NodeSet(rest)
  {
  }

  /** The cells after the payload of the first node of the rest was overwritten. */
  lemma JobChanged(kept: JobCells, rest: JobCells, rest': JobCells, job: Job)
    requires rest != [] && rest' == rest[0 := rest[0].(data := job)]
    ensures (kept + rest)[|kept|] == rest[0]
    ensures kept + rest' == (kept + rest)[|kept| := rest'[0]]
    ensures L.NodeSet(rest') == L.NodeSet(rest) && L.NodeSet(kept + rest') == L.NodeSet(kept + rest)
  {
    L.SameNodeSet(rest, rest');
    L.SameNodeSet(kept + rest, kept + rest');
  }

  lemma RestChanged(rest: JobCells, rest': JobCells)
    requires rest != [] && rest' == rest[0 := rest[0].(data := rest[0].node.data)] && Distinct(rest)
    requires forall i {:trigger rest[i].node.next} :: 0 <= i < |rest| ==> rest[i].node.next == L.At(rest, i + 1)
    requires forall i {:trigger rest[i].node.data} :: 0 < i < |rest| ==> rest[i].node.data == rest[i].data
    requires forall i {:trigger rest[i].node.last} :: 0 < i < |rest| ==>
               rest[i].node.last == if rest[i].linked then L.At(rest, i - 1) else null
    ensures RestLinks(rest')
  {
  }

  /** The payload of the visited node is overwritten. */
  method SetJob(item: JobNode, job: Job, ghost list: L.Node?<Job>, ghost table: JobCells, ghost kept: JobCells,
          ghost rest: JobCells, ghost cut: bool)
    returns (ghost table': JobCells, ghost rest': JobCells)
    requires Walking(list, table, kept, rest, cut) && rest != [] && item == rest[0].node
    modifies item`data
    ensures rest' == rest[0 := rest[0].(data := job)]
    ensures table' == if cut then table else kept + rest'
    ensures Walking(list, table', kept, rest', cut)
    ensures L.NodeSet(rest') == L.NodeSet(rest) && L.NodeSet(table') == L.NodeSet(table)
  {
    hide L.NodeSet;
    rest' := rest[0 := rest[0].(data := job)];
    JobChanged(kept, rest, rest', job);
    table' := if cut then table else kept + rest';
    item.data := job;
    RestChanged(rest, rest');
    if !cut {
      L.PayloadChanged(list, table, |kept|, table');
    }
  }

  /** The links of the rest after its first node was removed. */
  ghost predicate FirstRemoved(rest: JobCells)
    reads L.NodeSet(rest)
  {
    && Distinct(rest)
    && (forall i {:trigger rest[i].node.next} :: 0 < i < |rest| ==> rest[i].node.next == L.At(rest, i + 1))
    && (forall i {:trigger rest[i].node.data} :: 0 < i < |rest| ==> rest[i].node.data == rest[i].data)
    && (forall i {:trigger rest[i].node.last} :: 0 < i < |rest| ==>
          rest[i].node.last == if rest[i].linked && i > 1 then L.At(rest, i - 1) else null)
  }

  lemma LaterLinks(rest: JobCells)
    requires rest != [] && FirstRemoved(rest)
    ensures RestLinks(Sever(rest[1..]))
    ensures L.NodeSet(Sever(rest[1..])) <= L.NodeSet(rest) && rest[0].node !in L.NodeSet(Sever(rest[1..]))
    ensures |rest| > 1 ==> Sever(rest[1..])[0].node.last == null
  {
  }

  /** The table behind a removal: cut right behind the node, or without it. */
  lemma RemovalInTable(kept: JobCells, rest: JobCells)
    requires rest != [] && Distinct(kept + rest)
    ensures var later, table, cut := Sever(rest[1..]), RemoveAt(kept + rest, |kept|), kept != [] && !rest[0].linked;
            && table == (if cut then kept + [rest[0]] else kept + later)
            && L.NodeSet(table) <= L.NodeSet(kept + rest)
            && (cut ==> table != [] && L.NodeSet(table) !! L.NodeSet(later))
  {
    var all, later := kept + rest, Sever(rest[1..]);
    assert all[..|kept|] == kept;
    assert all[|kept| + 1..] == rest[1..];
    assert all[..|kept| + 1] == kept + [rest[0]];
    hide L.NodeSet, Sever;
    NodesOfParts(kept, rest);
    L.SameNodeSet(later, rest[1..]);
    NodesOfSum(kept, later);
    NodesOfSum(kept, [rest[0]]);
  }

  lemma NodesOfSum(a: JobCells, b: JobCells)
    ensures L.NodeSet(a + b) == L.NodeSet(a) + L.NodeSet(b)
  {
    forall i | 0 <= i < |a|
      ensures a[i].node in L.NodeSet(a + b)
    {
      assert (a + b)[i] == a[i];
    }
    forall i | 0 <= i < |b|
      ensures b[i].node in L.NodeSet(a + b)
    {
      assert (a + b)[|a| + i] == b[i];
    }
  }

  lemma NodesOfParts(kept: JobCells, rest: JobCells)
    requires rest != [] && Distinct(kept + rest)
    ensures L.NodeSet(kept + rest) == L.NodeSet(kept) + L.NodeSet([rest[0]]) + L.NodeSet(rest[1..])
    ensures L.NodeSet(kept) + L.NodeSet([rest[0]]) !! L.NodeSet(rest[1..])
  {
    var all, later := kept + rest, rest[1..];
    NodesOfSum(kept, rest);
    assert rest == [rest[0]] + later;
    NodesOfSum([rest[0]], later);
    forall i, j | 0 <= i <= |kept| && 0 <= j < |later|
      ensures all[i].node != later[j].node
    {
      assert all[|kept| + 1 + j] == later[j];
    }
    assert forall i :: 0 <= i < |kept| ==> all[i] == kept[i];
    assert all[|kept|] == rest[0];
  }

  /**
   * ll_remove on the visited node. Once the chain is cut the node no longer
   * hangs off it and the chain is not touched.
   */
  method RemoveVisited(list: L.Node?<Job>, item: JobNode, ghost table: JobCells, ghost at: int, ghost rest: JobCells)
    returns (ll: L.Node?<Job>)
    requires L.Represents(list, table) && RestLinks(rest) && rest != [] && item == rest[0].node
    requires L.Only(item.last) !! L.NodeSet(rest)
    requires 0 <= at < |table| ==> table[at] == rest[0]
    requires !(0 <= at < |table|) ==> table != [] && L.NodeSet(table) !! L.NodeSet(rest) + L.Only(item.last)
    modifies item`last, item`next, L.Only(item.last)`next, L.Only(item.next)`last
    ensures L.Represents(ll, if 0 <= at < |table| then RemoveAt(table, at) else table)
    ensures FirstRemoved(rest)
  {
    assert |rest| > 1 ==> item.next == rest[1].node;
    assert list == null || list in L.NodeSet(table);
    hide RemoveAt, Sever, Distinct;
    ll := L.Remove(list, item, table, at);
  }

  method Unlink(list: L.Node?<Job>, item: JobNode, ghost table: JobCells, ghost kept: JobCells, ghost rest: JobCells,
          ghost cut: bool)
    returns (ll: L.Node?<Job>, ghost table': JobCells, ghost cut': bool)
    requires Walking(list, table, kept, rest, cut) && rest != [] && item == rest[0].node
    modifies item`last, item`next, L.Only(item.last)`next, L.Only(item.next)`last
    ensures cut' == (cut || (kept != [] && !rest[0].linked))
    ensures table' == if cut then table else if cut' then kept + [rest[0]] else kept + Sever(rest[1..])
    ensures Walking(ll, table', kept, Sever(rest[1..]), cut')
    ensures L.NodeSet(table') <= L.NodeSet(table) && L.NodeSet(Sever(rest[1..])) <= L.NodeSet(rest)
    ensures |rest| > 1 ==> Sever(rest[1..])[0].node.last == null
  {
    if !cut {
      RemovalInTable(kept, rest);
    }
    cut' := cut || (kept != [] && !rest[0].linked);
    table' := if cut then table else RemoveAt(table, |kept|);
    ll := RemoveVisited(list, item, table, if cut then -1 else |kept|, rest);
    LaterLinks(rest);
  }

  // ----- What a walk has done so far

  ghost predicate Progress(all: JobCells, now: uint32, table: JobCells, kept: JobCells, rest: JobCells, cut: bool,
                           sent: seq<Message>, before: set<JobNode>, freed: set<JobNode>) {
    && Sweep([], all, ExpiresAt(now), FireAt(now)) ==
       (if cut then table else Sweep(kept, rest, ExpiresAt(now), FireAt(now)))
    && sent + Messages(rest, now) == Messages(all, now)
    && freed + DeadNodes(rest, ExpiresAt(now)) == before + DeadNodes(all, ExpiresAt(now))
  }

  lemma DeadNodesCons(rest: JobCells, dead: Job -> bool)
    requires rest != []
    ensures DeadNodes(rest, dead) == (if dead(rest[0].data) then {rest[0].node} else {}) + DeadNodes(rest[1..], dead)
    ensures DeadNodes(Sever(rest[1..]), dead) == DeadNodes(rest[1..], dead)
  {
  }

  lemma MessagesSever(s: JobCells, now: uint32)
    ensures Messages(Sever(s), now) == Messages(s, now)
  {
  }

  function MessageOf(job: Job, now: uint32): seq<Message> {
    if Due(job, now) then [Message(job.message, job.data)] else []
  }

  lemma SweepCons(kept: JobCells, rest: JobCells, now: uint32)
    requires rest != []
    ensures var visited := rest[0].(data := Fire(rest[0].data, now));
            Sweep(kept, rest, ExpiresAt(now), FireAt(now)) ==
            if !Expires(rest[0].data, now) then Sweep(kept + [visited], rest[1..], ExpiresAt(now), FireAt(now))
            else if kept == [] || rest[0].linked then Sweep(kept, Sever(rest[1..]), ExpiresAt(now), FireAt(now))
            else kept + [visited]
  {
  }

  lemma MessagesCons(rest: JobCells, now: uint32)
    requires rest != []
    ensures Messages(rest, now) == MessageOf(rest[0].data, now) + Messages(rest[1..], now)
  {
  }

  lemma KeepProgresses(all: JobCells, now: uint32, table: JobCells, kept: JobCells, rest: JobCells, cut: bool,
                       sent: seq<Message>, before: set<JobNode>, freed: set<JobNode>, table': JobCells)
    requires Progress(all, now, table, kept, rest, cut, sent, before, freed)
    requires rest != [] && !Expires(rest[0].data, now)
    requires cut ==> table' == table
    ensures Progress(all, now, table', kept + [rest[0].(data := Fire(rest[0].data, now))], rest[1..], cut,
                     sent + MessageOf(rest[0].data, now), before, freed)
  {
    hide DeadNodes, Sever, Sweep, Messages, Fire, Expires, MessageOf;
    DeadNodesCons(rest, ExpiresAt(now));
    SweepCons(kept, rest, now);
    MessagesCons(rest, now);
    assert sent + (MessageOf(rest[0].data, now) + Messages(rest[1..], now)) ==
           sent + MessageOf(rest[0].data, now) + Messages(rest[1..], now);
  }

  lemma RemoveProgresses(all: JobCells, now: uint32, table: JobCells, kept: JobCells, rest: JobCells, cut: bool,
                         sent: seq<Message>, before: set<JobNode>, freed: set<JobNode>, table': JobCells, cut': bool)
    requires Progress(all, now, table, kept, rest, cut, sent, before, freed) && rest != [] && Expires(rest[0].data, now)
    requires cut' == (cut || (kept != [] && !rest[0].linked))
    requires cut' ==> table' == if cut then table else kept + [rest[0].(data := Fire(rest[0].data, now))]
    ensures Progress(all, now, table', kept, Sever(rest[1..]), cut',
                     sent + MessageOf(rest[0].data, now), before, freed + {rest[0].node})
  {
    hide DeadNodes, Sever, Sweep, Messages, Fire, Expires, MessageOf;
    DeadNodesCons(rest, ExpiresAt(now));
    SweepCons(kept, rest, now);
    MessagesCons(rest, now);
    MessagesSever(rest[1..], now);
    assert sent + (MessageOf(rest[0].data, now) + Messages(rest[1..], now)) ==
           sent + MessageOf(rest[0].data, now) + Messages(rest[1..], now);
  }

  lemma StartWalk(list: L.Node?<Job>, table: JobCells)
    requires L.Represents(list, table)
    ensures Walking(list, table, [], table, false)
    ensures list == L.At(table, 0) && (table != [] ==> L.Only(table[0].node.last) == {})
  {
  }

  lemma StartProgress(all: JobCells, now: uint32, freed: set<JobNode>)
    ensures Progress(all, now, all, [], all, false, [], freed, freed)
  {
  }

  lemma EndOfWalk(all: JobCells, now: uint32, list: L.Node?<Job>, table: JobCells, kept: JobCells, cut: bool,
                  sent: seq<Message>, before: set<JobNode>, freed: set<JobNode>)
    requires Walking(list, table, kept, [], cut) && Distinct(all) && L.NodeSet(all) !! before
    requires Progress(all, now, table, kept, [], cut, sent, before, freed)
    ensures L.Represents(list, table) && table == Sweep([], all, ExpiresAt(now), FireAt(now))
    ensures sent == Messages(all, now) && freed == before + DeadNodes(all, ExpiresAt(now))
    ensures L.NodeSet(table) !! freed <==> Safe(all, ExpiresAt(now))
  {
    assert kept + [] == kept && sent + [] == sent;
    assert DeadNodes([], ExpiresAt(now)) == {};
    SafeMeansNotFreed(all, ExpiresAt(now), FireAt(now), before);
  }

  /** The chain behind a walk leads to a freed node exactly when the table was not safe. */
  lemma SafeMeansNotFreed(all: JobCells, dead: Job -> bool, update: Job -> Job, before: set<JobNode>)
    requires Distinct(all) && L.NodeSet(all) !! before
    ensures L.NodeSet(Sweep([], all, dead, update)) !! before + DeadNodes(all, dead) <==> Safe(all, dead)
  {
    var r := Sweep([], all, dead, update);
    SweepExactly(all, dead, update);
    SweepWithin([], all, dead, update);
    L.NodeSetIsNodes(r);
    L.NodeSetIsNodes(all);
    if !Safe(all, dead) {
      var i :| 0 <= i < |all| && dead(all[i].data) && all[i].node in Nodes(r);
      assert all[i].node in DeadNodes(all, dead);
    }
  }

  lemma NextOfRest(list: L.Node?<Job>, table: JobCells, kept: JobCells, rest: JobCells, cut: bool)
    requires Walking(list, table, kept, rest, cut) && rest != []
    ensures !cut ==> table == kept + rest
    ensures rest[0].node.next == L.At(rest, 1) && rest[0].node in L.NodeSet(rest)
    ensures L.Only(rest[0].node.next) <= L.NodeSet(rest)
    ensures |rest| > 1 ==> L.At(rest[1..], 0) == L.At(rest, 1) && L.At(Sever(rest[1..]), 0) == L.At(rest, 1)
  {
  }

  /** The first half of a round: a job that is due is sent, rescheduled and counted down. */
  method FireIfDue(item: JobNode, now: uint32, ghost list: L.Node?<Job>, ghost table: JobCells, ghost kept: JobCells,
          ghost rest: JobCells, ghost cut: bool)
    returns (message: seq<Message>, expired: bool, ghost table': JobCells, ghost rest': JobCells)
    requires Walking(list, table, kept, rest, cut) && rest != [] && item == rest[0].node
    modifies item`data
    ensures message == MessageOf(rest[0].data, now) && expired == Expires(rest[0].data, now)
    ensures rest' == rest[0 := rest[0].(data := Fire(rest[0].data, now))]
    ensures table' == if cut then table else kept + rest'
    ensures Walking(list, table', kept, rest', cut)
    ensures L.NodeSet(rest') == L.NodeSet(rest) && L.NodeSet(table') == L.NodeSet(table)
  {
    assert item.data == rest[0].data;
    hide Walking, L.NodeSet;
    message, expired := [], false;
    var job := item.data;
    if job.timestamp == now {
      message := [Message(job.message, job.data)];
      job := job.(timestamp := Plus(job.timestamp, job.period));
      if job.repetitions > 0 {
        job := job.(repetitions := job.repetitions - 1);
      }
      expired := job.repetitions == 0;
    }
    table', rest' := SetJob(item, job, list, table, kept, rest, cut);
  }

  /** One round of the loop of tick: the job is fired if it is due, and removed if that was its last time. */
  method Visit(list: L.Node?<Job>, item: JobNode, now: uint32, ghost table: JobCells, ghost kept: JobCells,
          ghost rest: JobCells, ghost cut: bool)
    returns (ll: L.Node?<Job>, message: seq<Message>, ghost table': JobCells, ghost kept': JobCells,
      ghost rest': JobCells, ghost cut': bool)
    requires Walking(list, table, kept, rest, cut) && rest != [] && item == rest[0].node
    modifies item`data, item`last, item`next, L.Only(item.last)`next, L.Only(item.next)`last
    ensures Walking(ll, table', kept', rest', cut')
    ensures message == MessageOf(rest[0].data, now)
    ensures var visited := rest[0].(data := Fire(rest[0].data, now));
            if Expires(rest[0].data, now) then
              && kept' == kept && rest' == Sever(rest[1..])
              && cut' == (cut || (kept != [] && !rest[0].linked))
              && table' == (if cut then table else if cut' then kept + [visited] else kept + rest')
            else
              && kept' == kept + [visited] && rest' == rest[1..] && cut' == cut
              && table' == (if cut then table else kept' + rest')
    ensures L.NodeSet(table') <= L.NodeSet(table) && L.NodeSet(rest') <= L.NodeSet(rest)
    ensures rest' != [] ==> L.Only(rest'[0].node.last) <= L.NodeSet(rest)
  {
    hide Walking, L.NodeSet, Fire, Expires;
    var expired;
    ghost var fired;
    message, expired, table', fired := FireIfDue(item, now, list, table, kept, rest, cut);
    if expired {
      ll, table', cut' := Unlink(list, item, table', kept, fired, cut);
      kept', rest' := kept, Sever(fired[1..]);
    } else {
      WalkPasses(list, table', kept, fired, cut);
      ll, kept', rest', cut' := list, kept + [fired[0]], fired[1..], cut;
    }
  }

  /** A round together with the record of what the walk has done so far. */
  method Round(list: L.Node?<Job>, item: JobNode, now: uint32, sent: seq<Message>,
               ghost all: JobCells, ghost before: set<JobNode>,
               ghost table: JobCells, ghost freed: set<JobNode>, ghost kept: JobCells, ghost rest: JobCells,
               ghost cut: bool)
    returns (ll: L.Node?<Job>, sent': seq<Message>, ghost table': JobCells, ghost freed': set<JobNode>,
             ghost kept': JobCells, ghost rest': JobCells, ghost cut': bool)
    requires Walking(list, table, kept, rest, cut) && rest != [] && item == rest[0].node
    requires Progress(all, now, table, kept, rest, cut, sent, before, freed)
    modifies item`data, item`last, item`next, L.Only(item.last)`next, L.Only(item.next)`last
    ensures Walking(ll, table', kept', rest', cut')
    ensures Progress(all, now, table', kept', rest', cut', sent', before, freed')
    ensures |rest'| == |rest| - 1 && L.At(rest', 0) == L.At(rest, 1)
    ensures L.NodeSet(table') <= L.NodeSet(table) && L.NodeSet(rest') <= L.NodeSet(rest)
    ensures rest' != [] ==> L.Only(rest'[0].node.last) <= L.NodeSet(rest)
  {
    hide Walking, Progress, L.NodeSet;
    var message;
    NextOfRest(list, table, kept, rest, cut);
    ll, message, table', kept', rest', cut' := Visit(list, item, now, table, kept, rest, cut);
    sent', freed' := sent + message, freed;
    if Expires(rest[0].data, now) {
      RemoveProgresses(all, now, table, kept, rest, cut, sent, before, freed, table', cut');
      freed' := freed + {item};
    } else {
      KeepProgresses(all, now, table, kept, rest, cut, sent, before, freed, table');
    }
  }

  /** The walk of one tick over the jobs of the table. */
  method Walk(cronlist: L.Node?<Job>, now: uint32, ghost all: JobCells, ghost before: set<JobNode>)
    returns (list: L.Node?<Job>, sent: seq<Message>, ghost table: JobCells, ghost freed: set<JobNode>)
    requires L.Represents(cronlist, all) && L.NodeSet(all) !! before
    modifies L.NodeSet(all)
    ensures L.Represents(list, table) && table == Sweep([], all, ExpiresAt(now), FireAt(now))
    ensures sent == Messages(all, now) && freed == before + DeadNodes(all, ExpiresAt(now))
    ensures L.NodeSet(table) !! freed <==> Safe(all, ExpiresAt(now))
  {
    assert Distinct(all);
    hide Walking, Progress, Sweep, Expires, L.Represents, L.NodeSet, Distinct;
    list, sent, table, freed := cronlist, [], all, before;
    ghost var kept, rest, cut := [], all, false;
    StartProgress(all, now, before);
    StartWalk(list, all);
    var item := list;
    while item != null
      invariant item == L.At(rest, 0)
      invariant Walking(list, table, kept, rest, cut)
      invariant Progress(all, now, table, kept, rest, cut, sent, before, freed)
      invariant L.NodeSet(table) <= L.NodeSet(all) && L.NodeSet(rest) <= L.NodeSet(all)
      invariant rest != [] ==> L.Only(rest[0].node.last) <= L.NodeSet(all)
      decreases |rest|
    {
      var next := item.next;
      NextOfRest(list, table, kept, rest, cut);
      list, sent, table, freed, kept, rest, cut := Round(list, item, now, sent, all, before, table, freed, kept,
        rest, cut);
      item := next;
    }
    EndOfWalk(all, now, list, table, kept, cut, sent, before, freed);
  }

  method FindMatch(list: L.Node?<Job>, item: JobNode, cmp: (Job, Job) -> int, ghost table: JobCells)
    returns (r: L.Node?<Job>)
    requires L.Represents(list, table)
    ensures L.Represents(list, table) && r == L.At(table, FirstDeadIndex(table, L.MatchesItem(cmp, item.data)))
  {
    r := L.Find(list, item, cmp, table);
  }

  /** One removal of a match; `cut` tells that the node is still in the chain, which now ends with it. */
  method RemoveMatch(list: L.Node?<Job>, remove: JobNode, ghost table: JobCells, ghost at: nat)
    returns (ll: L.Node?<Job>, cut: bool)
    requires L.Represents(list, table) && at < |table| && remove == table[at].node
    modifies L.NodeSet(table)
    ensures L.Represents(ll, RemoveAt(table, at)) && cut == Cuts(table, at)
    ensures L.NodeSet(RemoveAt(table, at)) <= L.NodeSet(table)
  {
    Neighbourhood(list, table, at);
    NodesStayWithin(table, at);
    hide L.NodeSet, RemoveAt;
    cut := remove != list && remove.last == null;
    ll := L.Remove(list, remove, table, at);
  }

  lemma ListFacts(list: L.Node?<Job>, table: JobCells)
    requires L.Represents(list, table)
    ensures Distinct(table)
  {
  }

  lemma NodesStayWithin(table: JobCells, at: nat)
    requires at < |table|
    ensures L.NodeSet(RemoveAt(table, at)) <= L.NodeSet(table)
  {
  }

  lemma Neighbourhood(list: L.Node?<Job>, table: JobCells, at: nat)
    requires L.Represents(list, table) && at < |table|
    ensures var node := table[at].node;
            {node} + L.Only(node.last) + L.Only(node.next) <= L.NodeSet(table)
  {
  }

  /** What the deletion loop has done so far, and what it still leads to. */
  ghost predicate Deleting(all: JobCells, dead: Job -> bool, table: JobCells, gone: set<JobNode>, stuck: bool) {
    if stuck then
      table == Deletions(all, dead) && gone == Freed(all, dead) && !NeverCuts(all, dead)
    else
      && Deletions(table, dead) == Deletions(all, dead)
      && gone + Freed(table, dead) == Freed(all, dead)
      && NeverCuts(table, dead) == NeverCuts(all, dead)
  }

  lemma DeletingStarts(all: JobCells, dead: Job -> bool)
    ensures Deleting(all, dead, all, {}, false)
  {
  }

  lemma DeletingGoesOn(all: JobCells, dead: Job -> bool, table: JobCells, gone: set<JobNode>)
    requires Deleting(all, dead, table, gone, false) && FirstDeadIndex(table, dead) >= 0
    ensures var at := FirstDeadIndex(table, dead);
            && Deleting(all, dead, RemoveAt(table, at), gone + {table[at].node}, Cuts(table, at))
            && (!Cuts(table, at) ==> |RemoveAt(table, at)| < |table|)
  {
    hide Deletions, Freed, NeverCuts;
    DeletionsUnfold(table, dead);
  }

  lemma {:induction false} DeletingEnds(all: JobCells, dead: Job -> bool, table: JobCells, gone: set<JobNode>,
          stuck: bool)
    requires Deleting(all, dead, table, gone, stuck) && Distinct(all)
    requires !stuck ==> FirstDeadIndex(table, dead) < 0
    ensures table == Deletions(all, dead) && gone == Freed(all, dead)
    ensures stuck <==> !Safe(all, dead)
  {
    hide Deletions, Freed, NeverCuts, Safe;
    DeletionsUnfold(table, dead);
    NeverCutsExactly(all, dead);
  }

  /**
   * The loop of del_cronjob for any comparator: as long as there is a match,
   * it is removed and freed. When a removal cuts the chain the loop is stuck:
   * the freed node is what the next search compares, to which C gives no
   * meaning, and the model ends there.
   */
  method RemoveMatches(cronlist: L.Node?<Job>, item: JobNode, cmp: (Job, Job) -> int, ghost all: JobCells)
    returns (list: L.Node?<Job>, stuck: bool, ghost gone: set<JobNode>)
    requires L.Represents(cronlist, all) && item !in L.NodeSet(all)
    modifies L.NodeSet(all)
    ensures L.Represents(list, Deletions(all, L.MatchesItem(cmp, item.data)))
    ensures gone == Freed(all, L.MatchesItem(cmp, item.data))
    ensures stuck <==> !Safe(all, L.MatchesItem(cmp, item.data))
  {
    ListFacts(cronlist, all);
    hide Deleting, Deletions, Freed, Safe, Distinct, L.Represents, L.NodeSet, FirstDeadIndex, RemoveAt;
    ghost var dead, table := L.MatchesItem(cmp, item.data), all;
    list, stuck, gone := cronlist, false, {};
    DeletingStarts(all, dead);
    var remove := FindMatch(list, item, cmp, table);
    while remove != null && !stuck
      invariant L.Represents(list, table) && Deleting(all, dead, table, gone, stuck)
      invariant L.NodeSet(table) <= L.NodeSet(all) && L.MatchesItem(cmp, item.data) == dead
      invariant !stuck ==> remove == L.At(table, FirstDeadIndex(table, dead))
      decreases if stuck then 0 else |table| + 1
    {
      ghost var at := FirstDeadIndex(table, dead);
      DeletingGoesOn(all, dead, table, gone);
      list, stuck := RemoveMatch(list, remove, table, at);
      gone := gone + {remove};
      table := RemoveAt(table, at);
      if !stuck {
        remove := FindMatch(list, item, cmp, table);
      }
    }
    DeletingEnds(all, dead, table, gone, stuck);
  }

  /** jobequal is zero, a match, exactly on the jobs of another name. */
  lemma JobEqualMatchesOthers(table: JobCells, job: Job)
    ensures Safe(table, L.MatchesItem(JobEqual, job)) <==> Safe(table, OtherName(job.message))
    ensures Survivors(table, false, L.MatchesItem(JobEqual, job), Unchanged()) ==
            Survivors(table, false, OtherName(job.message), Unchanged())
    ensures Deletions(table, L.MatchesItem(JobEqual, job)) == Deletions(table, OtherName(job.message))
    ensures Freed(table, L.MatchesItem(JobEqual, job)) == Freed(table, OtherName(job.message))
  {
    var equal := JobEqual;
    forall other: Job
      ensures L.MatchesItem(JobEqual, job)(other) == OtherName(job.message)(other)
    {
      assert equal(other, job) == JobEqual(other, job);
    }
    hide Safe, Survivors, Deletions, Freed;
    SafeAgrees(table, L.MatchesItem(JobEqual, job), OtherName(job.message));
    SurvivorsAgree(table, false, L.MatchesItem(JobEqual, job), OtherName(job.message), Unchanged());
    DeletionsAgree(table, L.MatchesItem(JobEqual, job), OtherName(job.message));
  }

  /** What a deletion leaves: no freed node exactly when the table was safe, and then the jobs to stay. */
  lemma DeletionFacts(table: JobCells, dead: Job -> bool)
    requires Distinct(table)
    ensures L.NodeSet(Deletions(table, dead)) <= L.NodeSet(table)
    ensures L.NodeSet(Deletions(table, dead)) !! Freed(table, dead) <==> Safe(table, dead)
    ensures Safe(table, dead) ==>
              && Deletions(table, dead) == Survivors(table, false, dead, Unchanged())
              && Freed(table, dead) == L.NodeSet(table) - L.NodeSet(Deletions(table, dead))
  {
    hide Safe, Survivors, Deletions, Freed, NeverCuts, Distinct, Members, L.NodeSet;
    DeletionsExactly(table, dead, Unchanged());
    L.NodeSetIsNodes(table);
    L.NodeSetIsNodes(Deletions(table, dead));
  }

  class CronTable {
    var cronlist: L.Node?<Job>
    var timestamp: uint32
    ghost var table: JobCells
    ghost var freed: set<JobNode>

    /** The list is in order; it may still lead to a freed node. */
    ghost predicate WellFormed()
      reads this, L.NodeSet(table)
    {
      L.Represents(cronlist, table)
    }

    ghost predicate Valid()
      reads this, L.NodeSet(table)
    {
      WellFormed() && L.NodeSet(table) !! freed
    }

    ghost function Abs(): Table<JobNode>
      reads this
    {
      Table(timestamp, table)
    }

    constructor ()
      ensures Valid() && Abs() == Table(1, []) && freed == {}
    {
      cronlist := null;
      timestamp := 1;
      table := [];
      freed := {};
    }

    method AddCronjob(job: Job) returns (item: JobNode)
      requires Valid()
      modifies this, L.NodeSet(table)
      ensures Valid() && freed == old(freed)
      ensures fresh(item) && Abs() == Step(old(Abs()), Add(item, job))
    {
      hide Sweep, L.Represents, Join, L.NodeSet;
      var added := job.(timestamp := Plus(job.timestamp, Plus(timestamp, 1)));
      cronlist, item := L.AddNew(cronlist, added, table);
      table := Join(table, [Cell(item, added, false)]);
    }

    /** tick: the clock advances, then every job of the table is visited once. */
    method Tick(add: uint32) returns (sent: seq<Message>)
      requires Valid()
      modifies this, L.NodeSet(table)
      ensures WellFormed() && Abs() == Step(old(Abs()), CronSpec.Tick(add))
      ensures sent == Messages(old(table), timestamp)
      ensures freed == old(freed) + DeadNodes(old(table), ExpiresAt(timestamp))
      ensures Valid() <==> Safe(old(table), ExpiresAt(timestamp))
    {
      hide Sweep, L.Represents, Safe, DeadNodes, Messages;
      timestamp := Plus(timestamp, add);
      cronlist, sent, table, freed := Walk(cronlist, timestamp, table, freed);
    }

    /**
     * del_cronjob, which keeps the jobs of the given name and removes the
     * others. It gets stuck exactly on a table that is not safe for this: a
     * removed and freed node stays in the list, where the next search reads it.
     */
    method DelCronjob(job: Job) returns (stuck: bool)
      requires Valid()
      modifies this, L.NodeSet(table)
      ensures WellFormed() && Abs() == Step(old(Abs()), Delete(job.message))
      ensures freed == old(freed) + Freed(old(table), OtherName(job.message))
      ensures stuck <==> !Safe(old(table), OtherName(job.message))
      ensures Valid() <==> !stuck
      ensures !stuck ==> table == Survivors(old(table), false, OtherName(job.message), Unchanged())
      ensures !stuck ==> freed == old(freed) + (L.NodeSet(old(table)) - L.NodeSet(table))
    {
      hide Safe, Survivors, Deletions, Freed;
      ListFacts(cronlist, table);
      hide Distinct;
      JobEqualMatchesOthers(table, job);
      DeletionFacts(table, OtherName(job.message));
      var item := new L.Node.Create(job);
      hide L.NodeSet, L.Represents;
      ghost var gone;
      cronlist, stuck, gone := RemoveMatches(cronlist, item, JobEqual, table);
      table := Deletions(table, OtherName(job.message));
      freed := freed + gone;
    }
  }
}
