/** The accept/read/remove loop of the server as a state machine over clients, monitored and open descriptors. */
module ServerSpec {
  import opened Routing
  import opened LoginFilters
  import opened Matcher

  /** What reading from a ready client gives: nothing, so it is gone, or a message. */
  datatype Event = Gone | Arrived(id: string, line: Line)

  /** The writes that a message read at an index of the client array led to. */
  datatype Sends = Sends(at: nat, log: seq<Delivery>)

  /**
   * The clients left, descriptors removed from the monitored set by the main
   * loop, clients dropped because a write to them was refused, and the writes.
   */
  datatype PassResult = PassResult(routes: seq<Route>, cleared: set<int>, refused: set<int>, sends: seq<Sends>)

  /** The loop over the client indices; behind a removed client the next one is not looked at in this pass. */
  ghost function PassFrom(routes: seq<Route>, i: nat, ready: set<int>, events: nat -> Event): PassResult
    decreases |routes| - i
  {
    if i >= |routes| then PassResult(routes, {}, {}, [])
    else if routes[i].sock !in ready then PassFrom(routes, i + 1, ready, events)
    else
      match events(i)
      case Gone =>
        var rest := PassFrom(DropAt(routes, i), i + 1, ready, events);
        rest.(cleared := rest.cleared + {routes[i].sock})
      case Arrived(id, line) =>
        var out := SendAll(routes, id, line);
        var rest := PassFrom(out.routes, i + 1, ready, events);
        rest.(refused := rest.refused + Refused(out.log), sends := [Sends(i, out.log)] + rest.sends)
  }

  ghost predicate PassDrops(routes: seq<Route>, r: PassResult) {
    && DistinctSocks(routes) && DistinctSocks(r.routes)
    && r.cleared !! r.refused && r.cleared + r.refused <= Socks(routes)
    && r.routes == Without(routes, r.cleared + r.refused)
  }

  lemma PassNothing(routes: seq<Route>)
    requires DistinctSocks(routes)
    ensures PassDrops(routes, PassResult(routes, {}, {}, []))
  {
    WithoutNone(routes, {});
    var none: set<int> := {};
    assert none + none == none;
  }

  lemma PassClears(routes: seq<Route>, i: nat, rest: PassResult)
    requires i < |routes| && DistinctSocks(routes) && PassDrops(DropAt(routes, i), rest)
    ensures PassDrops(routes, rest.(cleared := rest.cleared + {routes[i].sock}))
  {
    var left, sock := DropAt(routes, i), routes[i].sock;
    forall k | 0 <= k < |left|
      ensures left[k].sock != sock && left[k].sock in Socks(routes)
    {
      assert left[k] == if k < i then routes[k] else routes[k + 1];
    }
    assert rest.cleared + {sock} + rest.refused == rest.cleared + rest.refused + {sock};
    WithoutOneMore(routes, i, rest.cleared + rest.refused);
  }

  lemma {:induction false} WithoutSocks(routes: seq<Route>, gone: set<int>)
    ensures Socks(Without(routes, gone)) == Socks(routes) - gone
  {
    if routes == [] {
      assert Socks(routes) == {};
    } else {
      WithoutSocks(routes[1..], gone);
      var rest := Without(routes[1..], gone);
      SocksCons(routes[0], routes[1..]);
      SocksCons(routes[0], rest);
      assert routes == [routes[0]] + routes[1..];
    }
  }

  lemma SocksCons(route: Route, routes: seq<Route>)
    ensures Socks([route] + routes) == {route.sock} + Socks(routes)
  {
    var all := [route] + routes;
    forall x | x in Socks(routes)
      ensures x in Socks(all)
    {
      var i :| 0 <= i < |routes| && routes[i].sock == x;
      assert all[i + 1].sock == x;
    }
    assert all[0] == route;
  }

  lemma {:induction false} WithoutTwice(routes: seq<Route>, a: set<int>, b: set<int>)
    ensures Without(Without(routes, a), b) == Without(routes, a + b)
  {
    if routes == [] {
    } else {
      WithoutTwice(routes[1..], a, b);
    }
  }

  lemma PassRefuses(routes: seq<Route>, gone: set<int>, rest: PassResult, sends: seq<Sends>)
    requires DistinctSocks(routes) && gone <= Socks(routes) && PassDrops(Without(routes, gone), rest)
    ensures PassDrops(routes, rest.(refused := rest.refused + gone, sends := sends))
  {
    WithoutSocks(routes, gone);
    WithoutTwice(routes, gone, rest.cleared + rest.refused);
    assert gone + (rest.cleared + rest.refused) == rest.cleared + (rest.refused + gone);
  }

  lemma {:induction false} PassDropsThese(routes: seq<Route>, i: nat, ready: set<int>, events: nat -> Event)
    requires DistinctSocks(routes)
    ensures PassDrops(routes, PassFrom(routes, i, ready, events))
    decreases |routes| - i
  {
    hide PassDrops, DistinctSocks, SendAll, Refused, DropAt;
    if i >= |routes| {
      PassNothing(routes);
    } else if routes[i].sock !in ready {
      PassDropsThese(routes, i + 1, ready, events);
    } else {
      match events(i)
      case Gone =>
        RemoveKeepsDistinct(routes, i);
        PassDropsThese(DropAt(routes, i), i + 1, ready, events);
        PassClears(routes, i, PassFrom(DropAt(routes, i), i + 1, ready, events));
      case Arrived(id, line) =>
        var out := SendAll(routes, id, line);
        SendRemovesExactlyRefused(routes, id, line);
        RefusedAreClients(routes, id, line);
        PassDropsThese(out.routes, i + 1, ready, events);
        var rest := PassFrom(out.routes, i + 1, ready, events);
        PassRefuses(routes, Refused(out.log), rest, [Sends(i, out.log)] + rest.sends);
    }
  }

  /** The clients behind index i's turn. */
  ghost function AfterTurn(routes: seq<Route>, i: nat, ready: set<int>, events: nat -> Event): seq<Route>
    requires i < |routes|
  {
    if routes[i].sock !in ready then routes
    else
      match events(i)
      case Gone => DropAt(routes, i)
      case Arrived(id, line) => SendAll(routes, id, line).routes
  }

  /** The clients when a pass that is at index i comes to index k. */
  ghost function RoutesAt(routes: seq<Route>, i: nat, ready: set<int>, events: nat -> Event, k: nat): seq<Route>
    decreases k - i
  {
    if k <= i || i >= |routes| then routes else RoutesAt(AfterTurn(routes, i, ready, events), i + 1, ready, events, k)
  }

  /** At index k the pass reads from the ready client x, and nothing comes. */
  ghost predicate GoneAt(routes: seq<Route>, i: nat, ready: set<int>, events: nat -> Event, k: nat, x: int) {
    var now := RoutesAt(routes, i, ready, events, k);
    i <= k < |now| && now[k].sock == x && x in ready && events(k).Gone?
  }

  /** At index k a ready client sends a message, and a write of it to x is refused. */
  ghost predicate RefusedAt(routes: seq<Route>, i: nat, ready: set<int>, events: nat -> Event, k: nat, x: int) {
    var now := RoutesAt(routes, i, ready, events, k);
    && i <= k < |now| && now[k].sock in ready && events(k).Arrived?
    && x in Refused(SendAll(now, events(k).id, events(k).line).log)
  }

  /** The pass comes to the ready client x and finds it gone. */
  ghost predicate FoundGone(routes: seq<Route>, i: nat, ready: set<int>, events: nat -> Event, x: int) {
    exists k: nat :: GoneAt(routes, i, ready, events, k, x)
  }

  /** Some message of the pass has a write to x that is refused. */
  ghost predicate FoundRefusing(routes: seq<Route>, i: nat, ready: set<int>, events: nat -> Event, x: int) {
    exists k: nat :: RefusedAt(routes, i, ready, events, k, x)
  }

  lemma FoundLater(routes: seq<Route>, i: nat, ready: set<int>, events: nat -> Event, k: nat, x: int)
    requires i < |routes| && k > i
    ensures var next := AfterTurn(routes, i, ready, events);
            && (GoneAt(routes, i, ready, events, k, x) <==> GoneAt(next, i + 1, ready, events, k, x))
            && (RefusedAt(routes, i, ready, events, k, x) <==> RefusedAt(next, i + 1, ready, events, k, x))
  {
    hide AfterTurn, SendAll, Refused;
  }

  /** What there is to find is found at this index or later. */
  lemma FoundHereOrLater(routes: seq<Route>, i: nat, ready: set<int>, events: nat -> Event, x: int)
    requires i < |routes|
    ensures var next := AfterTurn(routes, i, ready, events);
            && (FoundGone(routes, i, ready, events, x) <==>
                GoneAt(routes, i, ready, events, i, x) || FoundGone(next, i + 1, ready, events, x))
            && (FoundRefusing(routes, i, ready, events, x) <==>
                RefusedAt(routes, i, ready, events, i, x) || FoundRefusing(next, i + 1, ready, events, x))
  {
    var next := AfterTurn(routes, i, ready, events);
    forall k: nat | k > i
      ensures GoneAt(routes, i, ready, events, k, x) <==> GoneAt(next, i + 1, ready, events, k, x)
      ensures RefusedAt(routes, i, ready, events, k, x) <==> RefusedAt(next, i + 1, ready, events, k, x)
    {
      FoundLater(routes, i, ready, events, k, x);
    }
    forall k: nat | k <= i
      ensures GoneAt(routes, i, ready, events, k, x) ==> k == i
      ensures RefusedAt(routes, i, ready, events, k, x) ==> k == i
      ensures !GoneAt(next, i + 1, ready, events, k, x) && !RefusedAt(next, i + 1, ready, events, k, x)
    {
    }
    hide GoneAt, RefusedAt, AfterTurn;
    if FoundGone(next, i + 1, ready, events, x) {
      var k: nat :| GoneAt(next, i + 1, ready, events, k, x);
      assert GoneAt(routes, i, ready, events, k, x);
    }
    if FoundRefusing(next, i + 1, ready, events, x) {
      var k: nat :| RefusedAt(next, i + 1, ready, events, k, x);
      assert RefusedAt(routes, i, ready, events, k, x);
    }
  }

  /** What a pass removes is exactly what it found gone and what refused a write. */
  lemma {:induction false} PassTellsWhy(routes: seq<Route>, i: nat, ready: set<int>, events: nat -> Event, x: int)
    ensures x in PassFrom(routes, i, ready, events).cleared <==> FoundGone(routes, i, ready, events, x)
    ensures x in PassFrom(routes, i, ready, events).refused <==> FoundRefusing(routes, i, ready, events, x)
    decreases |routes| - i
  {
    hide SendAll, Refused, DropAt;
    if i < |routes| {
      FoundHereOrLater(routes, i, ready, events, x);
      PassTellsWhy(AfterTurn(routes, i, ready, events), i + 1, ready, events, x);
      hide FoundGone, FoundRefusing;
    }
  }

  /**
   * A pass drops exactly the clients that were ready and gone when it came to
   * them, and those that refused a write, and keeps the order of the rest.
   */
  lemma PassFromDrops(routes: seq<Route>, ready: set<int>, events: nat -> Event)
    requires DistinctSocks(routes)
    ensures var r := PassFrom(routes, 0, ready, events);
            && PassDrops(routes, r)
            && (forall x :: x in r.cleared <==> FoundGone(routes, 0, ready, events, x))
            && (forall x :: x in r.refused <==> FoundRefusing(routes, 0, ready, events, x))
  {
    hide PassFrom, PassDrops, FoundGone, FoundRefusing, DistinctSocks;
    PassDropsThese(routes, 0, ready, events);
    forall x
      ensures x in PassFrom(routes, 0, ready, events).cleared <==> FoundGone(routes, 0, ready, events, x)
      ensures x in PassFrom(routes, 0, ready, events).refused <==> FoundRefusing(routes, 0, ready, events, x)
    {
      PassTellsWhy(routes, 0, ready, events, x);
    }
  }

  // ----- What a pass sends

  /** At index k a message arrives from a ready client. */
  ghost predicate ArrivedAt(routes: seq<Route>, i: nat, ready: set<int>, events: nat -> Event, k: nat) {
    var now := RoutesAt(routes, i, ready, events, k);
    i <= k < |now| && now[k].sock in ready && events(k).Arrived?
  }

  /** The message that arrives at index k is sent to the clients of the array at that point. */
  ghost function SentAt(routes: seq<Route>, i: nat, ready: set<int>, events: nat -> Event, k: nat): Sends
    requires ArrivedAt(routes, i, ready, events, k)
  {
    Sends(k, SendAll(RoutesAt(routes, i, ready, events, k), events(k).id, events(k).line).log)
  }

  ghost predicate RightSends(routes: seq<Route>, i: nat, ready: set<int>, events: nat -> Event, sends: Sends) {
    ArrivedAt(routes, i, ready, events, sends.at) && sends == SentAt(routes, i, ready, events, sends.at)
  }

  predicate HasIndex(sends: seq<Sends>, k: nat) {
    exists p :: 0 <= p < |sends| && sends[p].at == k
  }

  predicate Ordered(sends: seq<Sends>) {
    forall p, q :: 0 <= p < q < |sends| ==> sends[p].at < sends[q].at
  }

  /** One entry for each index at which a message arrives, in the order of the indices, and no other. */
  ghost predicate SendsArrivals(routes: seq<Route>, i: nat, ready: set<int>, events: nat -> Event, sends: seq<Sends>) {
    && Ordered(sends)
    && (forall p :: 0 <= p < |sends| ==> RightSends(routes, i, ready, events, sends[p]))
    && (forall k: nat :: ArrivedAt(routes, i, ready, events, k) ==> HasIndex(sends, k))
  }

  lemma ArrivedLater(routes: seq<Route>, i: nat, ready: set<int>, events: nat -> Event, k: nat, log: seq<Delivery>)
    requires i < |routes| && k > i
    ensures var next := AfterTurn(routes, i, ready, events);
            && (ArrivedAt(routes, i, ready, events, k) <==> ArrivedAt(next, i + 1, ready, events, k))
            && (RightSends(routes, i, ready, events, Sends(k, log)) <==>
                RightSends(next, i + 1, ready, events, Sends(k, log)))
  {
    hide AfterTurn, SendAll;
  }

  lemma ArrivedHere(routes: seq<Route>, i: nat, ready: set<int>, events: nat -> Event)
    requires i < |routes|
    ensures ArrivedAt(routes, i, ready, events, i) <==> routes[i].sock in ready && events(i).Arrived?
    ensures ArrivedAt(routes, i, ready, events, i) ==>
              SentAt(routes, i, ready, events, i) == Sends(i, SendAll(routes, events(i).id, events(i).line).log)
  {
  }

  lemma NotBefore(routes: seq<Route>, i: nat, ready: set<int>, events: nat -> Event, k: nat)
    requires ArrivedAt(routes, i, ready, events, k)
    ensures k >= i
  {
  }

  /** What was sent later in the pass, with what this index adds. */
  lemma SendsMore(routes: seq<Route>, i: nat, ready: set<int>, events: nat -> Event, rest: seq<Sends>)
    requires i < |routes| && SendsArrivals(AfterTurn(routes, i, ready, events), i + 1, ready, events, rest)
    ensures var here := if ArrivedAt(routes, i, ready, events, i) then [SentAt(routes, i, ready, events, i)] else [];
            SendsArrivals(routes, i, ready, events, here + rest)
  {
    var next := AfterTurn(routes, i, ready, events);
    var here := if ArrivedAt(routes, i, ready, events, i) then [SentAt(routes, i, ready, events, i)] else [];
    var all := here + rest;
    hide AfterTurn, ArrivedAt, SentAt;
    forall p | 0 <= p < |rest|
      ensures rest[p].at > i && RightSends(routes, i, ready, events, rest[p])
    {
      assert RightSends(next, i + 1, ready, events, rest[p]);
      NotBefore(next, i + 1, ready, events, rest[p].at);
      ArrivedLater(routes, i, ready, events, rest[p].at, rest[p].log);
    }
    hide RightSends;
    assert here != [] ==> here[0].at == i && RightSends(routes, i, ready, events, here[0]);
    forall p | 0 <= p < |all|
      ensures RightSends(routes, i, ready, events, all[p])
    {
      assert all[p] == if p < |here| then here[p] else rest[p - |here|];
    }
    forall k: nat | ArrivedAt(routes, i, ready, events, k)
      ensures HasIndex(all, k)
    {
      NotBefore(routes, i, ready, events, k);
      if k > i {
        ArrivedLater(routes, i, ready, events, k, []);
        var p :| 0 <= p < |rest| && rest[p].at == k;
        assert all[|here| + p].at == k;
      } else {
        assert all[0].at == k;
      }
    }
  }

  lemma PassSendsUnfolds(routes: seq<Route>, i: nat, ready: set<int>, events: nat -> Event)
    requires i < |routes|
    ensures var here := if ArrivedAt(routes, i, ready, events, i) then [SentAt(routes, i, ready, events, i)] else [];
            PassFrom(routes, i, ready, events).sends ==
            here + PassFrom(AfterTurn(routes, i, ready, events), i + 1, ready, events).sends
  {
    ArrivedHere(routes, i, ready, events);
    hide SendAll, DropAt, SentAt, RoutesAt, ArrivedAt;
  }

  /** A pass sends what arrives, index by index, and nothing else. */
  lemma {:induction false} PassSends(routes: seq<Route>, i: nat, ready: set<int>, events: nat -> Event)
    ensures SendsArrivals(routes, i, ready, events, PassFrom(routes, i, ready, events).sends)
    decreases |routes| - i
  {
    hide SendsArrivals, ArrivedAt, SentAt, AfterTurn, PassFrom;
    if i < |routes| {
      AfterTurnShrinks(routes, i, ready, events);
      PassSends(AfterTurn(routes, i, ready, events), i + 1, ready, events);
      SendsMore(routes, i, ready, events, PassFrom(AfterTurn(routes, i, ready, events), i + 1, ready, events).sends);
      PassSendsUnfolds(routes, i, ready, events);
    } else {
      SendsNothing(routes, i, ready, events);
    }
  }

  lemma AfterTurnShrinks(routes: seq<Route>, i: nat, ready: set<int>, events: nat -> Event)
    requires i < |routes|
    ensures |AfterTurn(routes, i, ready, events)| <= |routes|
  {
  }

  lemma SendsNothing(routes: seq<Route>, i: nat, ready: set<int>, events: nat -> Event)
    requires i >= |routes|
    ensures SendsArrivals(routes, i, ready, events, PassFrom(routes, i, ready, events).sends)
  {
  }

  /**
   * The ordinary case of a pass: at each index at which a message arrives, and
   * as many writes are accepted as there are clients that want it, there is one
   * accepted write to each such client of the array at that point, in order,
   * and no other.
   */
  lemma PassDelivers(routes: seq<Route>, ready: set<int>, events: nat -> Event, k: nat)
    requires ArrivedAt(routes, 0, ready, events, k)
    requires AllAccepted(RoutesAt(routes, 0, ready, events, k), events(k).id, 0, events(k).line)
    ensures exists p ::
              var sends := PassFrom(routes, 0, ready, events).sends;
              && 0 <= p < |sends| && sends[p].at == k
              && DeliveredToWanting(RoutesAt(routes, 0, ready, events, k), events(k).id, sends[p].log)
  {
    hide PassFrom, RoutesAt, AllAccepted, DeliveredToWanting, SendAll;
    var now := RoutesAt(routes, 0, ready, events, k);
    PassSends(routes, 0, ready, events);
    SendsExactlyOnce(now, events(k).id, events(k).line);
    DeliverToDelivers(now, events(k).id);
  }

  // ----- The server

  /** `open` holds the descriptors the server has on record as open. */
  datatype Server = Server(listener: int, routes: seq<Route>, monitored: set<int>, open: set<int>)

  datatype Login = Failed | Filter(text: string)

  datatype Step = Accept(sock: int, login: Login) | Pass(ready: set<int>, events: nat -> Event)

  /** A descriptor that accept returns is not one that is open. */
  predicate Possible(s: Server, step: Step) {
    step.Accept? ==> step.sock !in s.open
  }

  ghost function Next(s: Server, step: Step): Server {
    match step
    case Accept(sock, login) =>
      if sock == 0 then s
      else if login.Failed? then s.(monitored := s.monitored + {sock})
      else
        s.(routes := s.routes + [Route(sock, Tokens(login.text))], monitored := s.monitored + {sock},
          open := s.open + {sock})
    case Pass(ready, events) =>
      var r := PassFrom(s.routes, 0, ready, events);
      Server(s.listener, r.routes, s.monitored - r.cleared, s.open - r.cleared - r.refused)
  }

  /** A client that logged in with a filter wants exactly the messages that one of its comma-separated runs matches. */
  lemma WantsByFilter(sock: int, text: string, id: string)
    ensures Wants(Route(sock, Tokens(text)), id) <==>
              exists i: nat, j: nat :: IsRun(text, i, j) && Matches(id, text[i..j])
  {
    hide Matches, Tokens;
    var tokens := Tokens(text);
    if Wants(Route(sock, tokens), id) {
      var k :| 0 <= k < |tokens| && Matches(id, tokens[k]);
      TokensAreRuns(text, tokens[k]);
    }
    if exists i: nat, j: nat :: IsRun(text, i, j) && Matches(id, text[i..j]) {
      var i: nat, j: nat :| IsRun(text, i, j) && Matches(id, text[i..j]);
      TokensAreRuns(text, text[i..j]);
      assert HasRun(text, text[i..j]);
      var k :| 0 <= k < |tokens| && tokens[k] == text[i..j];
    }
  }

  /**
   * What a new connection adds: one client behind the others, which wants
   * exactly the messages that a comma-separated run of its login filter
   * matches. Descriptor zero is ignored, and a failed login adds nobody.
   */
  lemma AcceptAdds(s: Server, sock: int, text: string, id: string)
    ensures Next(s, Accept(0, Filter(text))) == s && Next(s, Accept(0, Failed)) == s
    ensures var t := Next(s, Accept(sock, Failed));
            t.routes == s.routes && t.open == s.open && (sock != 0 ==> sock in t.monitored)
    ensures sock != 0 ==>
              var t := Next(s, Accept(sock, Filter(text)));
              && |t.routes| == |s.routes| + 1 && t.routes[..|s.routes|] == s.routes
              && t.routes[|s.routes|].sock == sock
              && (Wants(t.routes[|s.routes|], id) <==>
                  exists i: nat, j: nat :: IsRun(text, i, j) && Matches(id, text[i..j]))
              && t.open == s.open + {sock} && t.monitored == s.monitored + {sock}
  {
    WantsByFilter(sock, text, id);
    hide Wants, Matches, Tokens;
  }

  /** Every client has at least one filter; remove_client_idx frees the first one unconditionally. */
  predicate AllFiltered(routes: seq<Route>) {
    forall i :: 0 <= i < |routes| ==> routes[i].tokens != []
  }

  /** A new connection keeps this so exactly when its login filter, if it gets that far, has more than commas. */
  lemma AcceptKeepsFiltered(s: Server, sock: int, login: Login)
    requires AllFiltered(s.routes)
    ensures AllFiltered(Next(s, Accept(sock, login)).routes) <==>
            sock == 0 || login.Failed? || exists k :: 0 <= k < |login.text| && login.text[k] != SEPARATOR
  {
    if sock != 0 && login.Filter? {
      var after := Next(s, Accept(sock, login)).routes;
      HasTokens(login.text);
      assert after[|s.routes|] == Route(sock, Tokens(login.text));
      assert forall i :: 0 <= i < |s.routes| ==> after[i] == s.routes[i];
      hide Tokens;
    }
  }

  /** Each ready client that a pass finds gone has a filter to free. */
  ghost predicate DropsFiltered(routes: seq<Route>, i: nat, ready: set<int>, events: nat -> Event)
    decreases |routes| - i
  {
    i >= |routes| ||
    (FreesFilter(routes, i, ready, events) && DropsFiltered(AfterTurn(routes, i, ready, events), i + 1, ready, events))
  }

  ghost predicate FreesFilter(routes: seq<Route>, i: nat, ready: set<int>, events: nat -> Event)
    requires i < |routes|
  {
    routes[i].sock in ready && events(i).Gone? ==> routes[i].tokens != []
  }

  lemma {:induction false} SendKeepsFiltered(routes: seq<Route>, id: string, from: nat, k: nat, line: Line)
    requires AllFiltered(routes)
    ensures AllFiltered(SendFrom(routes, id, from, k, line).routes)
    decreases |routes|, |routes| - from
  {
    hide Wants, NextWanting, SendFrom, ResumeAfterRemoval;
    SendUnfolds(routes, id, from, k, line);
    var j := NextWanting(routes, id, from);
    if j < |routes| {
      if line.accepts(k) {
        SendKeepsFiltered(routes, id, j + 1, k + 1, line);
      } else {
        var left := DropAt(routes, j);
        SendKeepsFiltered(left, id, ResumeAfterRemoval(|left|, j, line.moves(k)), k + 1, line);
      }
    }
  }

  /** With a filter for every client a pass frees no null list, and the clients that are left have filters. */
  lemma {:induction false} FilteredPass(routes: seq<Route>, i: nat, ready: set<int>, events: nat -> Event)
    requires AllFiltered(routes)
    ensures DropsFiltered(routes, i, ready, events)
    ensures AllFiltered(PassFrom(routes, i, ready, events).routes)
    decreases |routes| - i
  {
    hide SendFrom, Refused, AllFiltered;
    if i < |routes| {
      AfterTurnFiltered(routes, i, ready, events);
      FilteredPass(AfterTurn(routes, i, ready, events), i + 1, ready, events);
    }
  }

  lemma AfterTurnFiltered(routes: seq<Route>, i: nat, ready: set<int>, events: nat -> Event)
    requires AllFiltered(routes) && i < |routes|
    ensures AllFiltered(AfterTurn(routes, i, ready, events)) && FreesFilter(routes, i, ready, events)
  {
    if routes[i].sock in ready && events(i).Arrived? {
      SendKeepsFiltered(routes, events(i).id, 0, 0, events(i).line);
    }
  }

  /** The pass in which the client at index i is the only ready one, and gone. */
  lemma {:induction false} OneGone(routes: seq<Route>, k: nat, i: nat)
    requires k <= i < |routes| && DistinctSocks(routes) && routes[i].tokens == []
    ensures !DropsFiltered(routes, k, {routes[i].sock}, _ => Gone)
    decreases i - k
  {
    if k < i {
      OneGone(routes, k + 1, i);
    }
  }

  /** Some pass frees a null list if and only if some client has no filter. */
  lemma CrashExactly(routes: seq<Route>)
    requires DistinctSocks(routes)
    ensures (forall ready, events :: DropsFiltered(routes, 0, ready, events)) <==> AllFiltered(routes)
  {
    hide DropsFiltered;
    if AllFiltered(routes) {
      forall ready, events
        ensures DropsFiltered(routes, 0, ready, events)
      {
        FilteredPass(routes, 0, ready, events);
      }
    } else {
      var i :| 0 <= i < |routes| && routes[i].tokens == [];
      OneGone(routes, 0, i);
    }
  }

  /** Client sockets are distinct, open and monitored, and so is the listening socket. */
  ghost predicate Sound(s: Server) {
    && DistinctSocks(s.routes)
    && s.listener !in Socks(s.routes)
    && s.open == Socks(s.routes) + {s.listener}
    && s.open <= s.monitored
  }

  lemma SocksAppend(routes: seq<Route>, route: Route)
    ensures Socks(routes + [route]) == Socks(routes) + {route.sock}
  {
    var all := routes + [route];
    forall x | x in Socks(routes)
      ensures x in Socks(all)
    {
      var i :| 0 <= i < |routes| && routes[i].sock == x;
      assert all[i].sock == x;
    }
    assert all[|routes|] == route;
  }

  lemma NextIsSound(s: Server, step: Step)
    requires Sound(s) && Possible(s, step)
    ensures Sound(Next(s, step))
  {
    match step
    case Accept(sock, login) =>
      if sock != 0 && login.Filter? {
        SocksAppend(s.routes, Route(sock, Tokens(login.text)));
        assert forall i :: 0 <= i < |s.routes| ==> s.routes[i].sock in Socks(s.routes);
      }
    case Pass(ready, events) =>
      var r := PassFrom(s.routes, 0, ready, events);
      PassDropsThese(s.routes, 0, ready, events);
      WithoutSocks(s.routes, r.cleared + r.refused);
  }

  ghost function Run(s: Server, steps: seq<Step>): Server
    decreases |steps|
  {
    if steps == [] then s else Run(Next(s, steps[0]), steps[1..])
  }

  ghost predicate RunPossible(s: Server, steps: seq<Step>)
    decreases |steps|
  {
    steps == [] || (Possible(s, steps[0]) && RunPossible(Next(s, steps[0]), steps[1..]))
  }

  /** Every reachable state of the server is sound. */
  lemma {:induction false} RunIsSound(s: Server, steps: seq<Step>)
    requires Sound(s) && RunPossible(s, steps)
    ensures Sound(Run(s, steps))
    decreases |steps|
  {
    hide Sound, Next;
    if steps != [] {
      NextIsSound(s, steps[0]);
      RunIsSound(Next(s, steps[0]), steps[1..]);
    }
  }

  /**
   * Every write of a pass is accepted: of each message that arrives, as many
   * writes as there are clients that want it at that point.
   */
  ghost predicate PassAccepted(routes: seq<Route>, i: nat, ready: set<int>, events: nat -> Event)
    decreases |routes| - i
  {
    i >= |routes| ||
    if routes[i].sock !in ready then PassAccepted(routes, i + 1, ready, events)
    else
      match events(i)
      case Gone => PassAccepted(DropAt(routes, i), i + 1, ready, events)
      case Arrived(id, line) => AllAccepted(routes, id, 0, line) && PassAccepted(routes, i + 1, ready, events)
  }

  /** A pass refuses nobody exactly when every write is accepted that its messages call for. */
  lemma {:induction false} NobodyRefusedExactly(routes: seq<Route>, i: nat, ready: set<int>, events: nat -> Event)
    ensures PassFrom(routes, i, ready, events).refused == {} <==> PassAccepted(routes, i, ready, events)
    decreases |routes| - i
  {
    hide SendAll, AllAccepted, Refused, DropAt;
    if i < |routes| && routes[i].sock !in ready {
      NobodyRefusedExactly(routes, i + 1, ready, events);
    } else if i < |routes| {
      match events(i)
      case Gone => NobodyRefusedExactly(DropAt(routes, i), i + 1, ready, events);
      case Arrived(id, line) =>
        SendsExactlyOnce(routes, id, line);
        NobodyRefusedExactly(routes, i + 1, ready, events);
    }
  }

  /** A login fails, or a write is not accepted that a message of the pass calls for. */
  ghost predicate LeavesStale(s: Server, step: Step) {
    match step
    case Accept(sock, login) => sock != 0 && login.Failed?
    case Pass(ready, events) => !PassAccepted(s.routes, 0, ready, events)
  }

  /** No closed descriptor is monitored, so the next select can go on. */
  predicate Clean(s: Server) {
    s.monitored == s.open
  }

  /** These are the only steps after which a closed descriptor is still monitored. */
  lemma StaleExactly(s: Server, step: Step)
    requires Sound(s) && Possible(s, step) && Clean(s)
    ensures Clean(Next(s, step)) <==> !LeavesStale(s, step)
  {
    if step.Pass? {
      var r := PassFrom(s.routes, 0, step.ready, step.events);
      PassDropsThese(s.routes, 0, step.ready, step.events);
      NobodyRefusedExactly(s.routes, 0, step.ready, step.events);
      hide PassAccepted, PassFrom;
      assert r.refused <= s.monitored - r.cleared;
      assert r.refused == {} ==> s.open - r.cleared - r.refused == s.open - r.cleared;
      assert r.refused != {} ==> exists x :: x in r.refused;
    }
  }

  lemma InitiallySound(listener: int)
    ensures Sound(Server(listener, [], {listener}, {listener})) && Clean(Server(listener, [], {listener}, {listener}))
  {
    assert Socks([]) == {};
  }

  /** Every state that a new server reaches is sound. */
  lemma EveryReachableState(listener: int, steps: seq<Step>)
    requires RunPossible(Server(listener, [], {listener}, {listener}), steps)
    ensures Sound(Run(Server(listener, [], {listener}, {listener}), steps))
  {
    InitiallySound(listener);
    RunIsSound(Server(listener, [], {listener}, {listener}), steps);
  }

  /** After every number of steps no closed descriptor is monitored, so no select fails. */
  ghost predicate StaysClean(s: Server, steps: seq<Step>) {
    forall k :: 0 <= k <= |steps| ==> Clean(Run(s, steps[..k]))
  }

  /** No step, taken where the run has come to, leaves a closed descriptor behind. */
  ghost predicate NeverLeavesStale(s: Server, steps: seq<Step>)
    decreases |steps|
  {
    steps == [] || (!LeavesStale(s, steps[0]) && NeverLeavesStale(Next(s, steps[0]), steps[1..]))
  }

  lemma StaysCleanUnfolds(s: Server, steps: seq<Step>)
    requires steps != []
    ensures StaysClean(s, steps) <==> Clean(s) && StaysClean(Next(s, steps[0]), steps[1..])
  {
    hide Next, Clean;
    var next, rest := Next(s, steps[0]), steps[1..];
    forall k | 0 < k <= |steps|
      ensures Run(s, steps[..k]) == Run(next, rest[..k - 1])
    {
      assert steps[..k][0] == steps[0] && steps[..k][1..] == rest[..k - 1];
    }
    assert Run(s, steps[..0]) == s;
    if StaysClean(s, steps) {
      forall k | 0 <= k <= |rest|
        ensures Clean(Run(next, rest[..k]))
      {
        assert Clean(Run(s, steps[..k + 1]));
      }
    }
    if Clean(s) && StaysClean(next, rest) {
      forall k | 0 <= k <= |steps|
        ensures Clean(Run(s, steps[..k]))
      {
        assert k > 0 ==> Clean(Run(next, rest[..k - 1]));
      }
    }
  }

  /**
   * No select meets a closed descriptor if and only if no login fails and no
   * write is refused that a message calls for.
   */
  lemma {:induction false} StaysCleanExactly(s: Server, steps: seq<Step>)
    requires Sound(s) && Clean(s) && RunPossible(s, steps)
    ensures StaysClean(s, steps) <==> NeverLeavesStale(s, steps)
    decreases |steps|
  {
    if steps == [] {
      assert steps[..0] == [];
    } else {
      StaleExactly(s, steps[0]);
      NextIsSound(s, steps[0]);
      StaysCleanUnfolds(s, steps);
      hide Sound, Clean, Next, LeavesStale, StaysClean;
      if !LeavesStale(s, steps[0]) {
        StaysCleanExactly(Next(s, steps[0]), steps[1..]);
      } else if StaysClean(Next(s, steps[0]), steps[1..]) {
        StaysCleanStarts(Next(s, steps[0]), steps[1..]);
      }
    }
  }

  lemma StaysCleanStarts(s: Server, steps: seq<Step>)
    requires StaysClean(s, steps)
    ensures Clean(s)
  {
    assert steps[..0] == [];
    assert Clean(Run(s, steps[..0]));
  }

  /** A pass reads through the null filter pointer of a client that is gone. */
  ghost predicate Crashes(s: Server, step: Step) {
    step.Pass? && !DropsFiltered(s.routes, 0, step.ready, step.events)
  }

  /** After every number of steps no closed descriptor is monitored, and the next step does not crash. */
  ghost predicate Survives(s: Server, steps: seq<Step>) {
    StaysClean(s, steps) && forall k :: 0 <= k < |steps| ==> !Crashes(Run(s, steps[..k]), steps[k])
  }

  /** A login fails, a write is refused that a message calls for, or a client without filters goes. */
  ghost predicate Ends(s: Server, step: Step) {
    LeavesStale(s, step) || Crashes(s, step)
  }

  ghost predicate NeverEnds(s: Server, steps: seq<Step>)
    decreases |steps|
  {
    steps == [] || (!Ends(s, steps[0]) && NeverEnds(Next(s, steps[0]), steps[1..]))
  }

  lemma SurvivesUnfolds(s: Server, steps: seq<Step>)
    requires steps != []
    ensures Survives(s, steps) <==> Clean(s) && !Crashes(s, steps[0]) && Survives(Next(s, steps[0]), steps[1..])
  {
    StaysCleanUnfolds(s, steps);
    hide Next, Clean, Crashes, StaysClean;
    var next, rest := Next(s, steps[0]), steps[1..];
    assert Run(s, steps[..0]) == s;
    forall k | 0 < k < |steps|
      ensures Run(s, steps[..k]) == Run(next, rest[..k - 1]) && steps[k] == rest[k - 1]
    {
      assert steps[..k][0] == steps[0] && steps[..k][1..] == rest[..k - 1];
    }
    if Survives(s, steps) {
      forall k | 0 <= k < |rest|
        ensures !Crashes(Run(next, rest[..k]), rest[k])
      {
        assert !Crashes(Run(s, steps[..k + 1]), steps[k + 1]);
      }
    }
  }

  /**
   * The exact condition for a server to survive a run: no login fails, no write
   * is refused that a message calls for, and no client goes that logged in
   * without a filter.
   */
  lemma {:induction false} SurvivesExactly(s: Server, steps: seq<Step>)
    requires Sound(s) && Clean(s) && RunPossible(s, steps)
    ensures Survives(s, steps) <==> NeverEnds(s, steps)
    decreases |steps|
  {
    if steps == [] {
      assert steps[..0] == [];
    } else {
      StaleExactly(s, steps[0]);
      NextIsSound(s, steps[0]);
      SurvivesUnfolds(s, steps);
      hide Sound, Clean, Next, LeavesStale, Crashes, Survives;
      if !Ends(s, steps[0]) {
        SurvivesExactly(Next(s, steps[0]), steps[1..]);
      } else if Survives(Next(s, steps[0]), steps[1..]) {
        SurvivesStarts(Next(s, steps[0]), steps[1..]);
      }
    }
  }

  lemma SurvivesStarts(s: Server, steps: seq<Step>)
    requires Survives(s, steps)
    ensures Clean(s)
  {
    StaysCleanStarts(s, steps);
  }

  /** Each connection that is accepted brings a filter with more than commas, or fails. */
  predicate LoginsFiltered(steps: seq<Step>) {
    forall i :: 0 <= i < |steps| && steps[i].Accept? && steps[i].sock != 0 && steps[i].login.Filter? ==>
                  Tokens(steps[i].login.text) != []
  }

  /** Under such logins no run crashes, whoever goes and whenever. */
  lemma {:induction false} FilteredRunsNeverCrash(s: Server, steps: seq<Step>, k: nat)
    requires AllFiltered(s.routes) && LoginsFiltered(steps) && k < |steps|
    ensures AllFiltered(Run(s, steps[..k]).routes) && !Crashes(Run(s, steps[..k]), steps[k])
    decreases k
  {
    if k == 0 {
      assert steps[..0] == [];
      if steps[0].Pass? {
        FilteredPass(s.routes, 0, steps[0].ready, steps[0].events);
      }
    } else {
      match steps[0] {
        case Accept(sock, login) =>
          AcceptKeepsFiltered(s, sock, login);
          if login.Filter? {
            HasTokens(login.text);
          }
        case Pass(ready, events) => FilteredPass(s.routes, 0, ready, events);
      }
      hide Next, AllFiltered, Crashes;
      FilteredRunsNeverCrash(Next(s, steps[0]), steps[1..], k - 1);
      assert steps[..k][0] == steps[0] && steps[..k][1..] == steps[1..][..k - 1];
    }
  }
}
