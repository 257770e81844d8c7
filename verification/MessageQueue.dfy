/** The message queue of rocsmqthread.c on the heap; each method is one critical section. */
module MessageQueue {
  import opened Chains
  import L = LinkedList

  class ProcessData<M> {
    var running: bool
    var queue: L.Node?<M>
    ghost var cells: L.Cells<M>

    ghost predicate Valid()
      reads this, L.NodeSet(cells)
    {
      L.Represents(queue, cells) && FullyLinked(cells)
    }

    ghost function Contents(): seq<M>
      reads this
    {
      L.Payload(cells)
    }

    constructor ()
      ensures Valid() && Contents() == [] && running
    {
      running, queue, cells := true, null, [];
    }

    /** rocsmq_add */
    method Add(message: M)
      requires Valid()
      modifies this`queue, this`cells, L.NodeSet(cells)
      ensures Valid() && Contents() == old(Contents()) + [message]
      ensures exists item :: cells == Join(old(cells), [Cell(item, message, false)])
      ensures fresh(L.NodeSet(cells) - old(L.NodeSet(cells)))
    {
      hide L.Represents, FullyLinked, Join, L.NodeSet;
      var item;
      queue, item := L.AddNew(queue, message, cells);
      AppendFacts(cells, [Cell(item, message, false)]);
      cells := Join(cells, [Cell(item, message, false)]);
    }

    /** rocsmq_get_message, which the callers use only behind a positive answer of rocsmq_has_messages */
    method GetMessage() returns (message: M)
      requires Valid() && Contents() != []
      modifies this`queue, this`cells, L.NodeSet(cells)
      ensures Valid() && [message] + Contents() == old(Contents()) && cells == Sever(old(cells)[1..])
      ensures L.NodeSet(cells) <= old(L.NodeSet(cells))
    {
      hide L.Represents, FullyLinked, L.NodeSet;
      FirstFacts(queue, cells);
      PopFacts(cells);
      var item;
      queue, item := L.PopFront(queue, cells);
      cells := Sever(cells[1..]);
      message := item.data;
    }

    /** rocsmq_has_messages */
    method HasMessages() returns (x: bool)
      requires Valid()
      ensures x == (Contents() != [])
    {
      x := queue != null;
    }

    /** rocsmq_thread_set_running */
    method SetRunning(run: bool)
      modifies this`running
      ensures running == run
    {
      running := run;
    }
  }

  lemma FirstFacts<M>(queue: L.Node?<M>, cells: L.Cells<M>)
    requires L.Represents(queue, cells) && cells != []
    ensures queue == cells[0].node && queue.data == cells[0].data && L.Only(queue.next) <= L.NodeSet(cells)
  {
  }

  lemma AppendFacts<M>(cells: L.Cells<M>, single: L.Cells<M>)
    requires FullyLinked(cells) && |single| == 1 && !single[0].linked
    ensures FullyLinked(Join(cells, single)) && L.Payload(Join(cells, single)) == L.Payload(cells) + [single[0].data]
  {
  }

  lemma PopFacts<M>(cells: L.Cells<M>)
    requires FullyLinked(cells) && cells != []
    ensures FullyLinked(Sever(cells[1..])) && L.NodeSet(Sever(cells[1..])) <= L.NodeSet(cells)
    ensures [cells[0].data] + L.Payload(Sever(cells[1..])) == L.Payload(cells)
  {
  }
}
