/** The client array, its iterator and the server loop of rocsmq-server, on the heap. */
module ClientList {
  import opened Matcher
  import opened LoginFilters
  import opened Routing
  import opened ServerSpec
  import opened Chains
  import L = LinkedList

  type FilterCells = L.Cells<string>

  datatype Client = Client(sock: int, name: string, filters: L.Node?<string>)

  /** The address of a client: which allocation of the array, and the index in it. */
  datatype Pointer = Null | To(allocation: nat, index: nat)

  ghost function AllNodes(filters: seq<FilterCells>): set<object> {
    set i, j | 0 <= i < |filters| && 0 <= j < |filters[i]| :: filters[i][j].node as object
  }

  /** Every client's filter pointer heads its list of filters. */
  ghost predicate FilterLists(clients: seq<Client>, filters: seq<FilterCells>)
    reads AllNodes(filters)
  {
    && |clients| == |filters|
    && forall i :: 0 <= i < |clients| ==> ListOf(clients, filters, i)
  }

  ghost predicate ListOf(clients: seq<Client>, filters: seq<FilterCells>, i: nat)
    requires i < |clients| && i < |filters|
    reads AllNodes(filters)
  {
    NodesOf(filters, i);
    L.IsChain(clients[i].filters, filters[i])
  }

  lemma NodesOf(filters: seq<FilterCells>, i: nat)
    requires i < |filters|
    ensures L.NodeSet(filters[i]) <= AllNodes(filters)
  {
  }

  ghost function RoutesOf(clients: seq<Client>, filters: seq<FilterCells>): (r: seq<Route>)
    ensures |filters| == |clients| ==> |r| == |clients|
    ensures |filters| == |clients| ==> forall i :: 0 <= i < |r| ==>
              r[i] == Route(clients[i].sock, L.Payload(filters[i]))
  {
    if |filters| != |clients| then [] else
      seq(|clients|, i requires 0 <= i < |clients| => Route(clients[i].sock, L.Payload(filters[i])))
  }

  /** filter_match: the filters of a client one after the other. */
  method FilterMatch(client: Client, message: string, ghost cells: FilterCells) returns (matched: bool)
    requires L.IsChain(client.filters, cells)
    ensures matched == Wants(Route(client.sock, L.Payload(cells)), message)
  {
    var item := client.filters;
    ghost var i := 0;
    while item != null
      invariant 0 <= i <= |cells| && item == L.At(cells, i)
      invariant forall k :: 0 <= k < i ==> !Matches(message, L.Payload(cells)[k])
      decreases |cells| - i
    {
      assert item.data == cells[i].data && item.next == L.At(cells, i + 1);
      matched := MessageMatch(message, item.data);
      if matched {
        assert Matches(message, L.Payload(cells)[i]);
        return true;
      }
      item := item.next;
      i := i + 1;
    }
    return false;
  }

  method AddFilter(list: L.Node?<string>, token: string, ghost cells: FilterCells)
    returns (r: L.Node?<string>, ghost longer: FilterCells)
    requires L.Represents(list, cells)
    modifies L.NodeSet(cells)
    ensures L.Represents(r, longer) && L.Payload(longer) == L.Payload(cells) + [token]
    ensures fresh(L.NodeSet(longer) - L.NodeSet(cells))
  {
    hide L.Represents;
    var item;
    r, item := L.AddNew(list, token, cells);
    longer := Join(cells, [Cell(item, token, false)]);
    OneMorePayload(cells, Cell(item, token, false));
  }

  lemma OneMorePayload(cells: FilterCells, cell: Cell<L.Node<string>, string>)
    ensures L.Payload(Join(cells, [cell])) == L.Payload(cells) + [cell.data]
  {
  }

  /** The loop of add_client that turns a login filter into a list of filters. */
  method BuildFilters(text: string) returns (list: L.Node?<string>, ghost cells: FilterCells)
    ensures L.Represents(list, cells) && L.Payload(cells) == Tokens(text) && fresh(L.NodeSet(cells))
  {
    hide L.Represents, Tokens;
    EmptyIsList();
    list, cells := null, [];
    var found, token, rest := NextToken(text);
    while found
      invariant L.Represents(list, cells) && fresh(L.NodeSet(cells))
      invariant found ==> L.Payload(cells) + ([token] + Tokens(rest)) == Tokens(text)
      invariant !found ==> L.Payload(cells) == Tokens(text)
      decreases if found then |rest| + 1 else 0
    {
      ghost var done := L.Payload(cells);
      list, cells := AddFilter(list, token, cells);
      assert done + ([token] + Tokens(rest)) == L.Payload(cells) + Tokens(rest);
      found, token, rest := NextToken(rest);
    }
  }

  lemma EmptyIsList()
    ensures L.Represents<string>(null, []) && L.NodeSet<string>([]) == {}
  {
  }

  // ----- Addresses

  /** get_client_idx */
  function AddressOf(allocation: nat, count: nat, number: nat): Pointer {
    if number >= count then Null else To(allocation, number)
  }

  /** Where an address is found in the array: its index, or -1. */
  function PlaceOf(allocation: nat, count: nat, client: Pointer): (i: int)
    ensures -1 <= i < count
    ensures i >= 0 <==> client.To? && AddressOf(allocation, count, client.index) == client
    ensures i >= 0 ==> i == client.index
  {
    if client.To? && client.allocation == allocation && client.index < count then client.index else -1
  }

  /** Where the iterator starts looking, given the client it is handed and where it was. */
  function StartAfter(allocation: nat, count: nat, client: Pointer, oldclient: nat): nat {
    var at := if client == Null then 0 else oldclient;
    if client == AddressOf(allocation, count, at) then at + 1 else PlaceOf(allocation, count, client) + 1
  }

  lemma StartAfterNull(allocation: nat, count: nat, oldclient: nat)
    ensures StartAfter(allocation, count, Null, oldclient) == if count == 0 then 1 else 0
  {
  }

  /** After its client was removed the iterator goes on as ResumeAfterRemoval says. */
  lemma StartAfterRemoved(before: nat, allocation: nat, left: nat, i: nat)
    requires i <= left && (allocation == before || allocation > before)
    ensures StartAfter(allocation, left, To(before, i), i) == ResumeAfterRemoval(left, i, allocation != before)
  {
  }

  lemma StartAfterPresent(allocation: nat, count: nat, i: nat)
    requires i < count
    ensures StartAfter(allocation, count, To(allocation, i), i) == i + 1
  {
  }

  class ServerProcess {
    const listener: int
    var clients: seq<Client>
    var allocation: nat
    var oldclient: nat
    var monitored: set<int>
    var open: set<int>
    ghost var filters: seq<FilterCells>

    ghost predicate Valid()
      reads this, AllNodes(filters)
    {
      this !in AllNodes(filters) && FilterLists(clients, filters)
    }

    ghost function Routes(): seq<Route>
      reads this
    {
      RoutesOf(clients, filters)
    }

    ghost function Abs(): Server
      reads this
    {
      Server(listener, Routes(), monitored, open)
    }

    constructor (listener: int)
      ensures Valid() && Abs() == Server(listener, [], {listener}, {listener})
    {
      this.listener := listener;
      clients, allocation, oldclient, filters := [], 0, 0, [];
      monitored, open := {listener}, {listener};
    }

    /** realloc keeps the block or moves it to an address that was not used before. */
    method Reallocate(moves: bool)
      modifies this`allocation
      ensures allocation == if moves then old(allocation) + 1 else old(allocation)
    {
      if moves {
        allocation := allocation + 1;
      }
    }

    method AddClient(sock: int, name: string, text: string, moves: bool)
      requires Valid()
      modifies this`clients, this`filters, this`allocation
      ensures Valid() && Routes() == old(Routes()) + [Route(sock, Tokens(text))]
      ensures |clients| == |old(clients)| + 1 && clients[..|old(clients)|] == old(clients)
      ensures clients[|old(clients)|].name == name
    {
      Reallocate(moves);
      var list;
      ghost var cells;
      list, cells := BuildFilters(text);
      RoutesAppend(clients, filters, Client(sock, name, list), cells);
      hide FilterLists, RoutesOf, Tokens, L.Represents;
      clients := clients + [Client(sock, name, list)];
      filters := filters + [cells];
    }

    method FindClientIdx(client: Pointer) returns (i: int)
      ensures i == PlaceOf(allocation, |clients|, client)
    {
      i := 0;
      while i < |clients|
        invariant 0 <= i <= |clients|
        invariant forall k :: 0 <= k < i ==> AddressOf(allocation, |clients|, k) != client
      {
        if AddressOf(allocation, |clients|, i) == client {
          return i;
        }
        i := i + 1;
      }
      return -1;
    }

    method RemoveClientIdx(i: nat, moves: bool)
      requires Valid() && i < |clients| && Routes()[i].tokens != []
      modifies this`clients, this`filters, this`allocation, this`open
      ensures Valid() && Routes() == DropAt(old(Routes()), i) && clients == DropAt(old(clients), i)
      ensures allocation == if moves then old(allocation) + 1 else old(allocation)
      ensures open == old(open) - {old(clients)[i].sock}
    {
      RoutesRemove(clients, filters, i);
      assert clients[i].filters != null by {
        assert ListOf(clients, filters, i);
      }
      hide FilterLists, RoutesOf, AllNodes, DropAt;
      open := open - {clients[i].sock};
      clients := DropAt(clients, i);
      filters := DropAt(filters, i);
      Reallocate(moves);
    }

    method RemoveClient(client: Pointer, moves: bool)
      requires Valid()
      requires var i := PlaceOf(allocation, |clients|, client);
               0 <= i < |Routes()| ==> Routes()[i].tokens != []
      modifies this`clients, this`filters, this`allocation, this`open
      ensures Valid()
      ensures var i := PlaceOf(old(allocation), |old(clients)|, client);
              if i >= 0 then
                && Routes() == DropAt(old(Routes()), i) && open == old(open) - {old(clients)[i].sock}
                && allocation == if moves then old(allocation) + 1 else old(allocation)
              else
                Routes() == old(Routes()) && open == old(open) && allocation == old(allocation)
    {
      RoutesCount(clients, filters);
      var i := FindClientIdx(client);
      if i >= 0 {
        RemoveClientIdx(i, moves);
      }
    }

    method MatchClient(i: nat, message: string) returns (matched: bool)
      requires Valid() && i < |clients|
      ensures matched == Wants(Routes()[i], message)
    {
      assert ListOf(clients, filters, i);
      matched := FilterMatch(clients[i], message, filters[i]);
    }

    /** next_client_by_message */
    method NextClientByMessage(client: Pointer, message: string) returns (r: Pointer)
      requires Valid()
      modifies this`oldclient
      ensures Valid()
      ensures oldclient == NextWanting(Routes(), message, StartAfter(allocation, |clients|, client, old(oldclient)))
      ensures r == AddressOf(allocation, |clients|, oldclient)
      decreases |clients| - StartAfter(allocation, |clients|, client, oldclient)
    {
      hide Wants, FilterLists, NextWanting, RoutesOf;
      ghost var routes, start := Routes(), StartAfter(allocation, |clients|, client, oldclient);
      NextWantingStep(routes, message, start);
      RoutesCount(clients, filters);
      if client == Null {
        oldclient := 0;
      }
      var check := AddressOf(allocation, |clients|, oldclient);
      var at := oldclient as int;
      if client != check {
        at := FindClientIdx(client);
      }
      oldclient := at + 1;
      assert oldclient == start && Routes() == routes;
      if oldclient < |clients| {
        StartAfterPresent(allocation, |clients|, oldclient);
        check := AddressOf(allocation, |clients|, oldclient);
        var matched := MatchClient(oldclient, message);
        if matched {
          return check;
        }
        r := NextClientByMessage(check, message);
        return r;
      }
      return Null;
    }

    /** One round of send_all: write to the client, drop it when that fails, and look for the next one. */
    method SendToOne(client: Pointer, id: string, accepted: bool, moves: bool) returns (next: Pointer, sock: int)
      requires Valid() && oldclient < |clients| && client == To(allocation, oldclient)
      requires !accepted && oldclient < |Routes()| ==> Routes()[oldclient].tokens != []
      modifies this`clients, this`filters, this`allocation, this`open, this`oldclient
      ensures Valid() && next == AddressOf(allocation, |clients|, oldclient)
      ensures |old(Routes())| == |old(clients)| && |Routes()| == |clients| && sock == old(Routes())[old(oldclient)].sock
      ensures accepted ==>
                Routes() == old(Routes()) && open == old(open) &&
                oldclient == NextWanting(Routes(), id, old(oldclient) + 1)
      ensures !accepted ==>
                Routes() == DropAt(old(Routes()), old(oldclient)) && open == old(open) - {sock} &&
                oldclient == NextWanting(Routes(), id, ResumeAfterRemoval(|Routes()|, old(oldclient), moves))
    {
      hide FilterLists, Wants, NextWanting, RoutesOf;
      RoutesCount(clients, filters);
      sock := clients[oldclient].sock;
      ghost var at := oldclient;
      if accepted {
        StartAfterPresent(allocation, |clients|, at);
      } else {
        StartAfterRemoved(allocation, if moves then allocation + 1 else allocation, |clients| - 1, at);
        RemoveClient(client, moves);
        RoutesCount(clients, filters);
      }
      next := NextClientByMessage(client, id);
    }

    /** send_all */
    method SendAll(id: string, line: Line) returns (log: seq<Delivery>)
      requires Valid()
      modifies this`clients, this`filters, this`allocation, this`open, this`oldclient
      ensures Valid() && (AllFiltered(old(Routes())) ==> AllFiltered(Routes()))
      ensures Outcome(log, Routes()) == Routing.SendAll(old(Routes()), id, line)
      ensures open == old(open) - Refused(log)
    {
      hide FilterLists, Wants, NextWanting, RoutesOf, Routing.SendFrom, Refused, AllFiltered, DropAt;
      RoutesCount(clients, filters);
      StartAfterNull(allocation, |clients|, oldclient);
      SendStarts(Routes(), id, line);
      RefusedSnoc([], Delivery(0, true));
      ghost var routes := Routes();
      log := [];
      var k := 0;
      var client := NextClientByMessage(Null, id);
      while client != Null
        invariant Valid() && |Routes()| == |clients|
        invariant client == AddressOf(allocation, |clients|, oldclient)
        invariant Sending(routes, id, line, Routes(), oldclient, k, log)
        invariant open == old(open) - Refused(log)
        decreases |clients|, |clients| - oldclient
      {
        ghost var before, at := Routes(), oldclient;
        var sock;
        SendingToWanting(routes, id, line, before, at, k, log);
        client, sock := SendToOne(client, id, line.accepts(k), line.moves(k));
        SendGoesOn(routes, id, line, before, at, k, log);
        RefusedSnoc(log, Delivery(sock, line.accepts(k)));
        log := log + [Delivery(sock, line.accepts(k))];
        k := k + 1;
      }
      SendEnds(routes, id, line, Routes(), oldclient, k, log);
      if AllFiltered(routes) {
        SendKeepsFiltered(routes, id, 0, 0, line);
      }
    }

    /** The part of the main loop that takes a new connection. */
    method Accept(sock: int, login: Login, name: string, moves: bool)
      requires Valid() && sock !in open
      modifies this`clients, this`filters, this`allocation, this`open, this`monitored
      ensures Valid() && Abs() == Next(old(Abs()), ServerSpec.Accept(sock, login))
    {
      if sock != 0 {
        open := open + {sock};
        monitored := monitored + {sock};
        if login.Filter? {
          AddClient(sock, name, login.text, moves);
        } else {
          open := open - {sock};
        }
      }
    }

    /** One round of the loop over the clients: a ready client is read, and its message sent on, or it is dropped. */
    method ServeClient(i: nat, event: Event, moves: bool)
      returns (log: seq<Delivery>, ghost cleared: set<int>, ghost refused: set<int>)
      requires Valid() && i < |clients|
      requires event.Gone? && i < |Routes()| ==> Routes()[i].tokens != []
      modifies this`clients, this`filters, this`allocation, this`open, this`oldclient, this`monitored
      ensures Valid() && |Routes()| == |clients| <= |old(clients)| == |old(Routes())|
      ensures event.Gone? ==>
                Routes() == DropAt(old(Routes()), i) && cleared == {old(Routes())[i].sock} && refused == {} && log == []
      ensures event.Arrived? ==>
                var out := Routing.SendAll(old(Routes()), event.id, event.line);
                Routes() == out.routes && cleared == {} && refused == Refused(out.log) && log == out.log
      ensures open == old(open) - cleared - refused && monitored == old(monitored) - cleared
    {
      hide FilterLists, RoutesOf, Routing.SendAll, Refused;
      RoutesCount(clients, filters);
      log, cleared, refused := [], {}, {};
      match event
      case Arrived(id, line) =>
        log := SendAll(id, line);
        refused := Refused(log);
        RoutesCount(clients, filters);
      case Gone =>
        var sock := clients[i].sock;
        cleared := {sock};
        monitored := monitored - {sock};
        RemoveClient(To(allocation, i), moves);
        RoutesCount(clients, filters);
    }

    /** The loop of main over the client indices, for every pass in which each client that goes has a filter. */
    method ServePass(ready: set<int>, events: nat -> Event, moves: nat -> bool) returns (sends: seq<Sends>)
      requires Valid() && DropsFiltered(Routes(), 0, ready, events)
      modifies this`clients, this`filters, this`allocation, this`open, this`oldclient, this`monitored
      ensures Valid() && (AllFiltered(old(Routes())) ==> AllFiltered(Routes()))
      ensures Abs() == Next(old(Abs()), Pass(ready, events))
      ensures sends == PassFrom(old(Routes()), 0, ready, events).sends
    {
      hide FilterLists, RoutesOf, PassFrom, AllFiltered, DropsFiltered, DropAt, Routing.SendAll, Refused;
      RoutesCount(clients, filters);
      ghost var routes := Routes();
      ghost var cleared: set<int>, refused: set<int> := {}, {};
      sends := [];
      PassStarts(routes, ready, events);
      var i := 0;
      while i < |clients|
        invariant Valid() && |Routes()| == |clients| && DropsFiltered(Routes(), i, ready, events)
        invariant Passing(routes, ready, events, Routes(), i, cleared, refused, sends)
        invariant open == old(open) - cleared - refused && monitored == old(monitored) - cleared
        decreases |clients| - i
      {
        ghost var before := Routes();
        RoutesCount(clients, filters);
        DropsFilteredUnfolds(before, i, ready, events);
        if clients[i].sock in ready {
          var log;
          ghost var dropped, unreachable;
          log, dropped, unreachable := ServeClient(i, events(i), moves(i));
          PassGoesOn(routes, ready, events, before, i, cleared, refused, sends);
          cleared, refused := cleared + dropped, refused + unreachable;
          if events(i).Arrived? {
            sends := sends + [Sends(i, log)];
          }
        } else {
          PassSkips(routes, ready, events, before, i, cleared, refused, sends);
        }
        i := i + 1;
      }
      PassEnds(routes, ready, events, Routes(), i, cleared, refused, sends);
      if AllFiltered(routes) {
        FilteredPass(routes, 0, ready, events);
      }
    }
  }

  /** What was dropped and sent so far, and the rest of the pass, make up the result of the pass. */
  ghost predicate Passing(routes: seq<Route>, ready: set<int>, events: nat -> Event, now: seq<Route>, i: nat,
          cleared: set<int>, refused: set<int>, sends: seq<Sends>) {
    var rest := PassFrom(now, i, ready, events);
    PassFrom(routes, 0, ready, events) ==
    PassResult(rest.routes, cleared + rest.cleared, refused + rest.refused, sends + rest.sends)
  }

  lemma PassStarts(routes: seq<Route>, ready: set<int>, events: nat -> Event)
    ensures Passing(routes, ready, events, routes, 0, {}, {}, [])
  {
    hide PassFrom;
    var rest := PassFrom(routes, 0, ready, events);
    assert {} + rest.cleared == rest.cleared && {} + rest.refused == rest.refused && [] + rest.sends == rest.sends;
  }

  lemma PassSkips(routes: seq<Route>, ready: set<int>, events: nat -> Event, now: seq<Route>, i: nat,
          cleared: set<int>, refused: set<int>, sends: seq<Sends>)
    requires Passing(routes, ready, events, now, i, cleared, refused, sends)
    requires i < |now| && now[i].sock !in ready
    ensures Passing(routes, ready, events, now, i + 1, cleared, refused, sends)
  {
  }

  lemma PassGoesOn(routes: seq<Route>, ready: set<int>, events: nat -> Event, now: seq<Route>, i: nat,
          cleared: set<int>, refused: set<int>, sends: seq<Sends>)
    requires Passing(routes, ready, events, now, i, cleared, refused, sends)
    requires i < |now| && now[i].sock in ready
    ensures events(i).Gone? ==>
              Passing(routes, ready, events, DropAt(now, i), i + 1, cleared + {now[i].sock}, refused + {}, sends)
    ensures events(i).Arrived? ==>
              var out := Routing.SendAll(now, events(i).id, events(i).line);
              Passing(routes, ready, events, out.routes, i + 1, cleared + {}, refused + Refused(out.log),
                      sends + [Sends(i, out.log)])
  {
    hide Routing.SendAll, Refused, DropAt;
    match events(i)
    case Gone =>
      var rest := PassFrom(DropAt(now, i), i + 1, ready, events);
      assert cleared + (rest.cleared + {now[i].sock}) == cleared + {now[i].sock} + rest.cleared;
      assert refused + {} == refused;
    case Arrived(id, line) =>
      var out := Routing.SendAll(now, id, line);
      var rest := PassFrom(out.routes, i + 1, ready, events);
      assert refused + (rest.refused + Refused(out.log)) == refused + Refused(out.log) + rest.refused;
      assert sends + ([Sends(i, out.log)] + rest.sends) == sends + [Sends(i, out.log)] + rest.sends;
      assert cleared + {} == cleared;
  }

  lemma PassEnds(routes: seq<Route>, ready: set<int>, events: nat -> Event, now: seq<Route>, i: nat,
          cleared: set<int>, refused: set<int>, sends: seq<Sends>)
    requires Passing(routes, ready, events, now, i, cleared, refused, sends) && i >= |now|
    ensures PassFrom(routes, 0, ready, events) == PassResult(now, cleared, refused, sends)
  {
    assert cleared + {} == cleared && refused + {} == refused && sends + [] == sends;
  }

  lemma DropsFilteredUnfolds(routes: seq<Route>, i: nat, ready: set<int>, events: nat -> Event)
    requires DropsFiltered(routes, i, ready, events) && i < |routes|
    ensures routes[i].sock !in ready ==> DropsFiltered(routes, i + 1, ready, events)
    ensures routes[i].sock in ready ==>
              match events(i)
              case Gone => routes[i].tokens != [] && DropsFiltered(DropAt(routes, i), i + 1, ready, events)
              case Arrived(id, line) => DropsFiltered(Routing.SendAll(routes, id, line).routes, i + 1, ready, events)
  {
  }

  /** What was sent so far and what the iterator position at a wanting client still leads to make up the outcome. */
  ghost predicate Sending(routes: seq<Route>, id: string, line: Line, now: seq<Route>, at: nat, k: nat,
          log: seq<Delivery>) {
    var rest := SendFrom(now, id, at, k, line);
    && NextWanting(now, id, at) == at
    && Routing.SendAll(routes, id, line) == Outcome(log + rest.log, rest.routes)
  }

  /** A client that a message is written to wants it, so it has a filter. */
  lemma SendingToWanting(routes: seq<Route>, id: string, line: Line, now: seq<Route>, at: nat, k: nat,
          log: seq<Delivery>)
    requires Sending(routes, id, line, now, at, k, log) && at < |now|
    ensures now[at].tokens != []
  {
    assert Wants(now[at], id);
  }

  lemma {:induction false} SendSkips(routes: seq<Route>, id: string, from: nat, k: nat, line: Line)
    ensures var j := NextWanting(routes, id, from);
            NextWanting(routes, id, j) == j && SendFrom(routes, id, from, k, line) == SendFrom(routes, id, j, k, line)
    decreases |routes| - from
  {
    hide Wants, NextWanting, Routing.SendFrom;
    var j := NextWanting(routes, id, from);
    NextWantingStep(routes, id, j);
    SendUnfolds(routes, id, from, k, line);
    SendUnfolds(routes, id, j, k, line);
  }

  lemma SendStarts(routes: seq<Route>, id: string, line: Line)
    ensures Sending(routes, id, line, routes, NextWanting(routes, id, if routes == [] then 1 else 0), 0, [])
  {
  }

  lemma SendGoesOn(routes: seq<Route>, id: string, line: Line, now: seq<Route>, at: nat, k: nat, log: seq<Delivery>)
    requires Sending(routes, id, line, now, at, k, log) && at < |now|
    ensures var sent := log + [Delivery(now[at].sock, line.accepts(k))];
            if line.accepts(k) then
              Sending(routes, id, line, now, NextWanting(now, id, at + 1), k + 1, sent)
            else
              var left := DropAt(now, at);
              var resume := ResumeAfterRemoval(|left|, at, line.moves(k));
              Sending(routes, id, line, left, NextWanting(left, id, resume), k + 1, sent)
  {
    hide Wants, NextWanting, Routing.SendFrom, ResumeAfterRemoval, DropAt;
    SendUnfolds(now, id, at, k, line);
    if line.accepts(k) {
      SendSkips(now, id, at + 1, k + 1, line);
    } else {
      var left := DropAt(now, at);
      SendSkips(left, id, ResumeAfterRemoval(|left|, at, line.moves(k)), k + 1, line);
    }
  }

  lemma SendEnds(routes: seq<Route>, id: string, line: Line, now: seq<Route>, at: nat, k: nat, log: seq<Delivery>)
    requires Sending(routes, id, line, now, at, k, log) && at >= |now|
    ensures Routing.SendAll(routes, id, line) == Outcome(log, now)
  {
  }

  lemma RefusedSnoc(log: seq<Delivery>, delivery: Delivery)
    ensures Refused(log + [delivery]) == if delivery.accepted then Refused(log) else Refused(log) + {delivery.sock}
    ensures Refused([]) == {}
  {
    var all := log + [delivery];
    forall x | x in Refused(log)
      ensures x in Refused(all)
    {
      var i :| 0 <= i < |log| && !log[i].accepted && log[i].sock == x;
      assert all[i] == log[i];
    }
    assert all[|log|] == delivery;
  }

  lemma RoutesCount(clients: seq<Client>, filters: seq<FilterCells>)
    requires FilterLists(clients, filters)
    ensures |RoutesOf(clients, filters)| == |clients|
    ensures forall i :: 0 <= i < |clients| ==> RoutesOf(clients, filters)[i].sock == clients[i].sock
  {
  }

  lemma NextWantingStep(routes: seq<Route>, id: string, from: nat)
    ensures from >= |routes| || Wants(routes[from], id) ==> NextWanting(routes, id, from) == from
    ensures from < |routes| && !Wants(routes[from], id) ==>
              NextWanting(routes, id, from) == NextWanting(routes, id, from + 1)
  {
  }

  lemma RoutesRemove(clients: seq<Client>, filters: seq<FilterCells>, i: nat)
    requires FilterLists(clients, filters) && i < |clients|
    ensures FilterLists(DropAt(clients, i), DropAt(filters, i))
    ensures AllNodes(DropAt(filters, i)) <= AllNodes(filters)
    ensures RoutesOf(DropAt(clients, i), DropAt(filters, i)) == DropAt(RoutesOf(clients, filters), i)
  {
    var left, lists := DropAt(clients, i), DropAt(filters, i);
    forall k | 0 <= k < |left|
      ensures ListOf(left, lists, k)
      ensures L.NodeSet(lists[k]) <= AllNodes(filters)
    {
      var j := if k < i then k else k + 1;
      assert left[k] == clients[j] && lists[k] == filters[j];
      assert ListOf(clients, filters, j);
    }
  }

  lemma RoutesAppend(clients: seq<Client>, filters: seq<FilterCells>, client: Client, cells: FilterCells)
    requires FilterLists(clients, filters) && L.IsChain(client.filters, cells)
    ensures FilterLists(clients + [client], filters + [cells])
    ensures RoutesOf(clients + [client], filters + [cells]) ==
            RoutesOf(clients, filters) + [Route(client.sock, L.Payload(cells))]
  {
    var all, lists := clients + [client], filters + [cells];
    forall i | 0 <= i < |all|
      ensures ListOf(all, lists, i)
    {
      assert i < |clients| ==> ListOf(clients, filters, i);
    }
  }
}
