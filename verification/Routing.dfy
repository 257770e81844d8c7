/** Message routing on values: which clients a message goes to, and what becomes of the client array. */
module Routing {
  import opened Matcher

  datatype Route = Route(sock: int, tokens: seq<string>)

  datatype Delivery = Delivery(sock: int, accepted: bool)

  /**
   * What the environment decides while one message is sent: whether write
   * number k returns something other than zero, and, when it does not,
   * whether shrinking the client array moves it.
   */
  datatype Line = Line(accepts: nat -> bool, moves: nat -> bool)

  /** Some filter of the client matches the message id. */
  ghost predicate Wants(route: Route, id: string) {
    exists i :: 0 <= i < |route.tokens| && Matches(id, route.tokens[i])
  }

  /** First client at or behind a position that wants the message. */
  ghost function NextWanting(routes: seq<Route>, id: string, from: nat): (j: nat)
    ensures from <= j && (from <= |routes| ==> j <= |routes|)
    ensures j < |routes| ==> Wants(routes[j], id)
    ensures forall i :: from <= i < j && i < |routes| ==> !Wants(routes[i], id)
    decreases |routes| - from
  {
    if from >= |routes| || Wants(routes[from], id) then from else NextWanting(routes, id, from + 1)
  }

  function DropAt<T>(s: seq<T>, i: nat): (r: seq<T>)
    requires i < |s|
    ensures |r| == |s| - 1
  {
    s[..i] + s[i + 1..]
  }

  /**
   * Where the iterator goes on after the client at position i was removed. It
   * recognises its client by address: the client that has moved up to that
   * address is taken for it and skipped; when there is none, or the array has
   * moved, the search starts over.
   */
  function ResumeAfterRemoval(left: nat, i: nat, moved: bool): nat {
    if moved || i >= left then 0 else i + 1
  }

  datatype Outcome = Outcome(log: seq<Delivery>, routes: seq<Route>)

  /** What send_all does from an iterator position on, with k writes done before. */
  ghost function SendFrom(routes: seq<Route>, id: string, from: nat, k: nat, line: Line): (out: Outcome)
    ensures |out.routes| <= |routes|
    decreases |routes|, |routes| - from
  {
    var j := NextWanting(routes, id, from);
    if j >= |routes| then Outcome([], routes)
    else
      var delivery := Delivery(routes[j].sock, line.accepts(k));
      var left := if line.accepts(k) then routes else DropAt(routes, j);
      var resume := if line.accepts(k) then j + 1 else ResumeAfterRemoval(|left|, j, line.moves(k));
      var rest := SendFrom(left, id, resume, k + 1, line);
      Outcome([delivery] + rest.log, rest.routes)
  }

  ghost function SendAll(routes: seq<Route>, id: string, line: Line): (out: Outcome)
    ensures |out.routes| <= |routes|
  {
    SendFrom(routes, id, 0, 0, line)
  }

  lemma SendUnfolds(routes: seq<Route>, id: string, from: nat, k: nat, line: Line)
    ensures var j, out := NextWanting(routes, id, from), SendFrom(routes, id, from, k, line);
            if j >= |routes| then
              out == Outcome([], routes)
            else if line.accepts(k) then
              var rest := SendFrom(routes, id, j + 1, k + 1, line);
              out == Outcome([Delivery(routes[j].sock, true)] + rest.log, rest.routes)
            else
              var left := DropAt(routes, j);
              var rest := SendFrom(left, id, ResumeAfterRemoval(|left|, j, line.moves(k)), k + 1, line);
              out == Outcome([Delivery(routes[j].sock, false)] + rest.log, rest.routes)
  {
  }

  // ----- Delivery when every write is accepted

  /** One delivery to every client that wants the message, in client order. */
  ghost function DeliverTo(routes: seq<Route>, id: string): seq<Delivery> {
    if routes == [] then []
    else (if Wants(routes[0], id) then [Delivery(routes[0].sock, true)] else []) + DeliverTo(routes[1..], id)
  }

  lemma {:induction false} SkipToNext(routes: seq<Route>, id: string, from: nat)
    requires from <= |routes|
    ensures var j := NextWanting(routes, id, from);
            DeliverTo(routes[from..], id) ==
            if j < |routes| then [Delivery(routes[j].sock, true)] + DeliverTo(routes[j + 1..], id) else []
    decreases |routes| - from
  {
    hide Wants;
    if from < |routes| && !Wants(routes[from], id) {
      SkipToNext(routes, id, from + 1);
    }
  }

  /** Every write that the delivery calls for is accepted, counted from write number k on. */
  ghost predicate AllAccepted(routes: seq<Route>, id: string, k: nat, line: Line) {
    forall n :: k <= n < k + |DeliverTo(routes, id)| ==> line.accepts(n)
  }

  lemma AcceptedSplits(routes: seq<Route>, id: string, from: nat, k: nat, line: Line)
    requires from <= |routes|
    ensures var j := NextWanting(routes, id, from);
            AllAccepted(routes[from..], id, k, line) <==>
            j >= |routes| || (line.accepts(k) && AllAccepted(routes[j + 1..], id, k + 1, line))
  {
    hide Wants, NextWanting, DeliverTo;
    SkipToNext(routes, id, from);
    var j := NextWanting(routes, id, from);
    if j < |routes| && line.accepts(k) && AllAccepted(routes[j + 1..], id, k + 1, line) {
      forall n | k <= n < k + |DeliverTo(routes[from..], id)|
        ensures line.accepts(n)
      {
        assert n > k ==> k + 1 <= n < k + 1 + |DeliverTo(routes[j + 1..], id)|;
      }
    }
  }

  lemma {:induction false} AllAcceptedFrom(routes: seq<Route>, id: string, from: nat, k: nat, line: Line)
    requires from <= |routes| && AllAccepted(routes[from..], id, k, line)
    ensures SendFrom(routes, id, from, k, line) == Outcome(DeliverTo(routes[from..], id), routes)
    decreases |routes| - from
  {
    hide Wants, NextWanting, SendFrom, DeliverTo, AllAccepted;
    var j := NextWanting(routes, id, from);
    SkipToNext(routes, id, from);
    AcceptedSplits(routes, id, from, k, line);
    SendUnfolds(routes, id, from, k, line);
    if j < |routes| {
      AllAcceptedFrom(routes, id, j + 1, k + 1, line);
    }
  }

  /** The sockets whose write was not accepted. */
  function Refused(log: seq<Delivery>): set<int> {
    set i | 0 <= i < |log| && !log[i].accepted :: log[i].sock
  }

  lemma RefusedCons(delivery: Delivery, log: seq<Delivery>)
    ensures Refused([delivery] + log) == if delivery.accepted then Refused(log) else Refused(log) + {delivery.sock}
  {
    var all := [delivery] + log;
    forall x | x in Refused(log)
      ensures x in Refused(all)
    {
      var i :| 0 <= i < |log| && !log[i].accepted && log[i].sock == x;
      assert all[i + 1] == log[i];
    }
    assert all[0] == delivery;
  }

  lemma {:induction false} DeliverToRefusesNone(routes: seq<Route>, id: string)
    ensures Refused(DeliverTo(routes, id)) == {}
  {
    hide Wants, Refused;
    RefusedNothing();
    if routes != [] {
      DeliverToRefusesNone(routes[1..], id);
      var rest := DeliverTo(routes[1..], id);
      RefusedCons(Delivery(routes[0].sock, true), rest);
      assert [] + rest == rest;
    }
  }

  lemma RefusedNothing()
    ensures Refused([]) == {}
  {
  }

  lemma {:induction false} SomeRefusedFrom(routes: seq<Route>, id: string, from: nat, k: nat, line: Line)
    requires from <= |routes| && !AllAccepted(routes[from..], id, k, line)
    ensures Refused(SendFrom(routes, id, from, k, line).log) != {}
    decreases |routes| - from
  {
    hide Wants, NextWanting, SendFrom, DeliverTo, AllAccepted, Refused, ResumeAfterRemoval;
    var j := NextWanting(routes, id, from);
    AcceptedSplits(routes, id, from, k, line);
    SendUnfolds(routes, id, from, k, line);
    if line.accepts(k) {
      SomeRefusedFrom(routes, id, j + 1, k + 1, line);
      RefusedCons(Delivery(routes[j].sock, true), SendFrom(routes, id, j + 1, k + 1, line).log);
    } else {
      var left := DropAt(routes, j);
      var resume := ResumeAfterRemoval(|left|, j, line.moves(k));
      RefusedCons(Delivery(routes[j].sock, false), SendFrom(left, id, resume, k + 1, line).log);
    }
  }

  /**
   * A message goes exactly once, in client order, to exactly those that want
   * it, and nobody is dropped, if and only if as many writes as there are such
   * clients are accepted; and otherwise some write is refused.
   */
  lemma SendsExactlyOnce(routes: seq<Route>, id: string, line: Line)
    ensures AllAccepted(routes, id, 0, line) <==> SendAll(routes, id, line) == Outcome(DeliverTo(routes, id), routes)
    ensures AllAccepted(routes, id, 0, line) <==> Refused(SendAll(routes, id, line).log) == {}
  {
    hide SendFrom, AllAccepted, DeliverTo, Refused;
    assert routes[0..] == routes;
    DeliverToRefusesNone(routes, id);
    if AllAccepted(routes, id, 0, line) {
      AllAcceptedFrom(routes, id, 0, 0, line);
    } else {
      SomeRefusedFrom(routes, id, 0, 0, line);
    }
  }

  /** The indices of the clients that want the message, in order. */
  ghost predicate Takers(routes: seq<Route>, id: string, upTo: nat, takers: seq<nat>)
    requires upTo <= |routes|
  {
    && (forall p, q :: 0 <= p < q < |takers| ==> takers[p] < takers[q])
    && (forall p :: 0 <= p < |takers| ==> takers[p] < upTo)
    && (forall k: nat :: k in takers <==> k < upTo && Wants(routes[k], id))
  }

  /** One accepted write to each client that wants the message, in order, and none to anybody else. */
  ghost predicate DeliveredToWanting(routes: seq<Route>, id: string, log: seq<Delivery>) {
    exists takers: seq<nat> ::
      && Takers(routes, id, |routes|, takers)
      && |log| == |takers| && forall p :: 0 <= p < |log| ==> log[p] == Delivery(routes[takers[p]].sock, true)
  }

  lemma {:induction false} TakersUpTo(routes: seq<Route>, id: string, upTo: nat) returns (takers: seq<nat>)
    requires upTo <= |routes|
    ensures Takers(routes, id, upTo, takers)
    ensures |DeliverTo(routes[..upTo], id)| == |takers|
    ensures forall p :: 0 <= p < |takers| ==> DeliverTo(routes[..upTo], id)[p] == Delivery(routes[takers[p]].sock, true)
    decreases upTo
  {
    hide Wants, DeliverTo;
    if upTo == 0 {
      takers := [];
      DeliverToNobody(id);
    } else {
      takers := TakersUpTo(routes, id, upTo - 1);
      DeliverToOneMore(routes, id, upTo - 1);
      if Wants(routes[upTo - 1], id) {
        takers := takers + [upTo - 1];
      }
    }
  }

  lemma DeliverToNobody(id: string)
    ensures DeliverTo([], id) == []
  {
  }

  lemma DeliverToDelivers(routes: seq<Route>, id: string)
    ensures DeliveredToWanting(routes, id, DeliverTo(routes, id))
  {
    hide Wants, DeliverTo;
    var takers := TakersUpTo(routes, id, |routes|);
    assert routes[..|routes|] == routes;
  }

  // ----- Delivery when writes fail

  predicate DistinctSocks(routes: seq<Route>) {
    forall i, j :: 0 <= i < j < |routes| ==> routes[i].sock != routes[j].sock
  }

  function Socks(routes: seq<Route>): set<int> {
    set i | 0 <= i < |routes| :: routes[i].sock
  }

  function Without(routes: seq<Route>, socks: set<int>): seq<Route> {
    if routes == [] then []
    else if routes[0].sock in socks then Without(routes[1..], socks)
    else [routes[0]] + Without(routes[1..], socks)
  }

  lemma {:induction false} WithoutNone(routes: seq<Route>, socks: set<int>)
    requires Socks(routes) !! socks
    ensures Without(routes, socks) == routes
  {
    if routes != [] {
      assert routes[0].sock in Socks(routes);
      assert forall i :: 0 <= i < |routes[1..]| ==> routes[1..][i] == routes[i + 1];
      WithoutNone(routes[1..], socks);
    }
  }

  lemma {:induction false} WithoutOneMore(routes: seq<Route>, j: nat, socks: set<int>)
    requires j < |routes| && DistinctSocks(routes)
    ensures Without(DropAt(routes, j), socks) == Without(routes, socks + {routes[j].sock})
    decreases j
  {
    var tail := routes[1..];
    if j == 0 {
      assert DropAt(routes, 0) == tail;
      SameWithout(tail, socks, socks + {routes[0].sock});
    } else {
      assert DropAt(routes, j) == [routes[0]] + DropAt(tail, j - 1);
      WithoutOneMore(tail, j - 1, socks);
    }
  }

  lemma {:induction false} SameWithout(routes: seq<Route>, a: set<int>, b: set<int>)
    requires forall i :: 0 <= i < |routes| ==> (routes[i].sock in a <==> routes[i].sock in b)
    ensures Without(routes, a) == Without(routes, b)
  {
    if routes != [] {
      SameWithout(routes[1..], a, b);
    }
  }

  ghost predicate DropsRefused(routes: seq<Route>, out: Outcome) {
    out.routes == Without(routes, Refused(out.log)) && DistinctSocks(out.routes)
  }

  lemma AcceptedStep(routes: seq<Route>, sock: int, rest: Outcome)
    requires DropsRefused(routes, rest)
    ensures DropsRefused(routes, Outcome([Delivery(sock, true)] + rest.log, rest.routes))
  {
    RefusedCons(Delivery(sock, true), rest.log);
  }

  lemma RefusedStep(routes: seq<Route>, j: nat, rest: Outcome)
    requires j < |routes| && DistinctSocks(routes) && DropsRefused(DropAt(routes, j), rest)
    ensures DropsRefused(routes, Outcome([Delivery(routes[j].sock, false)] + rest.log, rest.routes))
  {
    RefusedCons(Delivery(routes[j].sock, false), rest.log);
    WithoutOneMore(routes, j, Refused(rest.log));
  }

  lemma {:induction false} SendFromRemoves(routes: seq<Route>, id: string, from: nat, k: nat, line: Line)
    requires DistinctSocks(routes)
    ensures DropsRefused(routes, SendFrom(routes, id, from, k, line))
    decreases |routes|, |routes| - from
  {
    hide Wants, NextWanting, DropsRefused, DropAt, ResumeAfterRemoval, SendFrom;
    var j := NextWanting(routes, id, from);
    SendUnfolds(routes, id, from, k, line);
    if j >= |routes| {
      NothingRefused(routes);
    } else if line.accepts(k) {
      SendFromRemoves(routes, id, j + 1, k + 1, line);
      AcceptedStep(routes, routes[j].sock, SendFrom(routes, id, j + 1, k + 1, line));
    } else {
      var left := DropAt(routes, j);
      var resume := ResumeAfterRemoval(|left|, j, line.moves(k));
      RemoveKeepsDistinct(routes, j);
      SendFromRemoves(left, id, resume, k + 1, line);
      RefusedStep(routes, j, SendFrom(left, id, resume, k + 1, line));
    }
  }

  lemma RemoveKeepsDistinct(routes: seq<Route>, j: nat)
    requires j < |routes| && DistinctSocks(routes)
    ensures DistinctSocks(DropAt(routes, j))
  {
  }

  lemma NothingRefused(routes: seq<Route>)
    requires DistinctSocks(routes)
    ensures DropsRefused(routes, Outcome([], routes))
  {
    WithoutNone(routes, {});
    assert Refused([]) == {};
  }

  /**
   * Whatever the environment does, exactly the clients that refused a write are
   * dropped, and the order of the rest is kept.
   */
  lemma SendRemovesExactlyRefused(routes: seq<Route>, id: string, line: Line)
    requires DistinctSocks(routes)
    ensures var out := SendAll(routes, id, line);
            out.routes == Without(routes, Refused(out.log)) && DistinctSocks(out.routes)
  {
    SendFromRemoves(routes, id, 0, 0, line);
  }

  /** Only clients of the array are written to, and only those that want the message. */
  lemma {:induction false} WritesToWanting(routes: seq<Route>, id: string, from: nat, k: nat, line: Line, n: nat)
    requires n < |SendFrom(routes, id, from, k, line).log|
    ensures exists i :: 0 <= i < |routes| && Wants(routes[i], id) &&
              routes[i].sock == SendFrom(routes, id, from, k, line).log[n].sock
    decreases |routes|, |routes| - from
  {
    hide Wants, NextWanting, SendFrom, ResumeAfterRemoval;
    var j := NextWanting(routes, id, from);
    SendUnfolds(routes, id, from, k, line);
    if n > 0 {
      if line.accepts(k) {
        WritesToWanting(routes, id, j + 1, k + 1, line, n - 1);
      } else {
        var left := DropAt(routes, j);
        WritesToWanting(left, id, ResumeAfterRemoval(|left|, j, line.moves(k)), k + 1, line, n - 1);
        var i :| 0 <= i < |left| && Wants(left[i], id) &&
          left[i].sock == SendFrom(routes, id, from, k, line).log[n].sock;
        assert left[i] == routes[if i < j then i else i + 1];
      }
    }
  }

  lemma RefusedAreClients(routes: seq<Route>, id: string, line: Line)
    ensures Refused(SendAll(routes, id, line).log) <= Socks(routes)
  {
    hide SendFrom;
    var log := SendAll(routes, id, line).log;
    forall n | 0 <= n < |log|
      ensures log[n].sock in Socks(routes)
    {
      WritesToWanting(routes, id, 0, 0, line, n);
    }
  }

  // ----- Exactly one refused write

  lemma {:induction false} DeliverToAppend(a: seq<Route>, b: seq<Route>, id: string)
    ensures DeliverTo(a + b, id) == DeliverTo(a, id) + DeliverTo(b, id)
  {
    hide Wants;
    if a == [] {
      assert a + b == b;
    } else {
      DeliverToAppend(a[1..], b, id);
      assert (a + b)[1..] == a[1..] + b;
    }
  }

  /** The write to client j is refused and it is the only one. */
  ghost predicate OnlyRefuses(line: Line, f: nat) {
    forall n :: line.accepts(n) <==> n != f
  }

  lemma {:induction false} OneRefusalFrom(routes: seq<Route>, id: string, from: nat, k: nat, line: Line, j: nat, f: nat)
    requires from <= j < |routes| && Wants(routes[j], id)
    requires f == k + |DeliverTo(routes[from..j], id)| && OnlyRefuses(line, f)
    ensures var left := DropAt(routes, j);
            SendFrom(routes, id, from, k, line).log ==
            DeliverTo(routes[from..j], id) + ([Delivery(routes[j].sock, false)] +
                                              DeliverTo(left[ResumeAfterRemoval(|left|, j, line.moves(f))..], id))
    ensures SendFrom(routes, id, from, k, line).routes == DropAt(routes, j)
    decreases j - from
  {
    hide Wants, DropAt, NextWanting, ResumeAfterRemoval, DeliverTo, SendFrom;
    var next := NextWanting(routes, id, from);
    UpToNext(routes, id, from, j);
    SendUnfolds(routes, id, from, k, line);
    if next < j {
      OneRefusalFrom(routes, id, next + 1, k + 1, line, j, f);
    } else {
      var left := DropAt(routes, j);
      ResumeInside(|left|, j, line.moves(k));
      AllAcceptedFrom(left, id, ResumeAfterRemoval(|left|, j, line.moves(k)), k + 1, line);
      assert DeliverTo(routes[from..j], id) == [];
    }
  }

  lemma ResumeInside(left: nat, j: nat, moved: bool)
    ensures ResumeAfterRemoval(left, j, moved) <= left
    ensures ResumeAfterRemoval(left, j, moved) == 0 || (ResumeAfterRemoval(left, j, moved) == j + 1 && j < left)
  {
  }

  lemma {:induction false} UpToNext(routes: seq<Route>, id: string, from: nat, j: nat)
    requires from <= j < |routes| && Wants(routes[j], id)
    ensures var next := NextWanting(routes, id, from);
            && next <= j
            && DeliverTo(routes[from..j], id) ==
               if next < j then [Delivery(routes[next].sock, true)] + DeliverTo(routes[next + 1..j], id) else []
    decreases j - from
  {
    hide Wants;
    if from < j {
      assert routes[from..j][1..] == routes[from + 1..j];
      if !Wants(routes[from], id) {
        UpToNext(routes, id, from + 1, j);
      }
    }
  }

  /** The deliveries that went through. */
  function Served(log: seq<Delivery>): seq<Delivery> {
    if log == [] then [] else (if log[0].accepted then [log[0]] else []) + Served(log[1..])
  }

  lemma {:induction false} ServedAppend(a: seq<Delivery>, b: seq<Delivery>)
    ensures Served(a + b) == Served(a) + Served(b)
  {
    if a == [] {
      assert a + b == b;
    } else {
      assert (a + b)[1..] == a[1..] + b && (a + b)[0] == a[0];
      ServedAppend(a[1..], b);
    }
  }

  lemma {:induction false} DeliverToServed(routes: seq<Route>, id: string)
    ensures Served(DeliverTo(routes, id)) == DeliverTo(routes, id)
  {
    hide Wants;
    if routes != [] {
      DeliverToServed(routes[1..], id);
      var first := if Wants(routes[0], id) then [Delivery(routes[0].sock, true)] else [];
      ServedAppend(first, DeliverTo(routes[1..], id));
    }
  }

  /**
   * When exactly the write to client j is refused, the other clients are each
   * served exactly once if and only if: the search does not start over, or no
   * client before j wants the message; and it starts over, or the client that
   * moves up to position j does not want it.
   */
  lemma OneRefusal(routes: seq<Route>, id: string, line: Line, j: nat)
    requires j < |routes| && Wants(routes[j], id) && OnlyRefuses(line, |DeliverTo(routes[..j], id)|)
    ensures var out, left := SendAll(routes, id, line), DropAt(routes, j);
            var startsOver := line.moves(|DeliverTo(routes[..j], id)|) || j == |left|;
            Served(out.log) == DeliverTo(left, id) <==>
            if startsOver then DeliverTo(routes[..j], id) == [] else !Wants(left[j], id)
    ensures SendAll(routes, id, line).routes == DropAt(routes, j)
  {
    var left := DropAt(routes, j);
    var resume := ResumeAfterRemoval(|left|, j, line.moves(|DeliverTo(routes[..j], id)|));
    assert routes[0..j] == routes[..j];
    ServedOfLog(routes[..j], routes[j].sock, left[resume..], id);
    Shortfall(routes, j, id);
    assert left[0..] == left;
    hide Wants, DeliverTo, DropAt;
    OneRefusalFrom(routes, id, 0, 0, line, j, |DeliverTo(routes[..j], id)|);
  }

  /** What going on from the beginning, or behind the client that moved up, delivers compared to what is due. */
  lemma Shortfall(routes: seq<Route>, j: nat, id: string)
    requires j < |routes|
    ensures var before, left := DeliverTo(routes[..j], id), DropAt(routes, j);
            && (before + DeliverTo(left, id) == DeliverTo(left, id) <==> before == [])
            && (j < |left| ==> (before + DeliverTo(left[j + 1..], id) == DeliverTo(left, id) <==> !Wants(left[j], id)))
  {
    hide Wants;
    var before, left := DeliverTo(routes[..j], id), DropAt(routes, j);
    assert before + DeliverTo(left, id) == DeliverTo(left, id) ==> |before| == 0;
    DeliverToAppend(routes[..j], routes[j + 1..], id);
    if j < |left| {
      assert left[j] == routes[j + 1] && left[j + 1..] == routes[j + 1..][1..];
      var later := DeliverTo(left[j + 1..], id);
      var next := if Wants(left[j], id) then [Delivery(left[j].sock, true)] else [];
      assert DeliverTo(left, id) == before + (next + later);
      assert Wants(left[j], id) ==> |before + later| < |DeliverTo(left, id)|;
    }
  }

  lemma ServedOfLog(a: seq<Route>, sock: int, b: seq<Route>, id: string)
    ensures Served(DeliverTo(a, id) + ([Delivery(sock, false)] + DeliverTo(b, id))) ==
            DeliverTo(a, id) + DeliverTo(b, id)
  {
    hide DeliverTo;
    ServedAppend([Delivery(sock, false)], DeliverTo(b, id));
    ServedAppend(DeliverTo(a, id), [Delivery(sock, false)] + DeliverTo(b, id));
    assert Served([Delivery(sock, false)]) == [];
    DeliverToServed(a, id);
    DeliverToServed(b, id);
  }

  // ----- Any number of refused writes

  /**
   * At each refused write the search either goes on behind a client that does
   * not want the message, or starts over with nobody to be served again.
   */
  ghost predicate Harmless(routes: seq<Route>, id: string, from: nat, k: nat, line: Line)
    decreases |routes|, |routes| - from
  {
    var j := NextWanting(routes, id, from);
    j >= |routes| ||
    if line.accepts(k) then Harmless(routes, id, j + 1, k + 1, line)
    else
      var left := DropAt(routes, j);
      var resume := ResumeAfterRemoval(|left|, j, line.moves(k));
      HarmlessAt(left, id, j, resume) && Harmless(left, id, resume, k + 1, line)
  }

  ghost predicate HarmlessAt(left: seq<Route>, id: string, j: nat, resume: nat)
    requires j <= |left| && (resume > 0 ==> j < |left|)
  {
    if resume == 0 then DeliverTo(left[..j], id) == [] else !Wants(left[j], id)
  }

  lemma HarmlessUnfolds(routes: seq<Route>, id: string, from: nat, k: nat, line: Line)
    ensures var j := NextWanting(routes, id, from);
            Harmless(routes, id, from, k, line) <==>
            j >= |routes| ||
            if line.accepts(k) then Harmless(routes, id, j + 1, k + 1, line)
            else
              var left := DropAt(routes, j);
              var resume := ResumeAfterRemoval(|left|, j, line.moves(k));
              HarmlessAt(left, id, j, resume) && Harmless(left, id, resume, k + 1, line)
  {
  }

  /** Up to the next client that wants the message nobody does. */
  lemma {:induction false} NobodyBetween(routes: seq<Route>, id: string, from: nat)
    requires from <= |routes|
    ensures DeliverTo(routes[..NextWanting(routes, id, from)], id) == DeliverTo(routes[..from], id)
    decreases |routes| - from
  {
    hide Wants;
    if from < |routes| && !Wants(routes[from], id) {
      NobodyBetween(routes, id, from + 1);
      DeliverToOneMore(routes, id, from);
    }
  }

  lemma DeliverToOneMore(routes: seq<Route>, id: string, j: nat)
    requires j < |routes|
    ensures DeliverTo(routes[..j + 1], id) ==
            DeliverTo(routes[..j], id) + if Wants(routes[j], id) then [Delivery(routes[j].sock, true)] else []
  {
    hide Wants;
    assert routes[..j + 1] == routes[..j] + [routes[j]];
    DeliverToAppend(routes[..j], [routes[j]], id);
  }

  /**
   * Whatever number of writes is refused: when each of them is harmless, the
   * clients that are left and want the message are each served exactly once,
   * in order, and nobody else is.
   */
  lemma {:induction false} HarmlessServes(routes: seq<Route>, id: string, from: nat, k: nat, line: Line)
    requires from <= |routes| && Harmless(routes, id, from, k, line)
    ensures var out := SendFrom(routes, id, from, k, line);
            DeliverTo(routes[..from], id) + Served(out.log) == DeliverTo(out.routes, id)
    decreases |routes|, |routes| - from
  {
    hide Wants, NextWanting, Harmless, HarmlessAt, SendFrom, DeliverTo, Served, DropAt, ResumeAfterRemoval;
    var j := NextWanting(routes, id, from);
    SendUnfolds(routes, id, from, k, line);
    HarmlessUnfolds(routes, id, from, k, line);
    NobodyBetween(routes, id, from);
    if j >= |routes| {
      ServedNothing();
      assert routes[..j] == routes;
    } else if line.accepts(k) {
      HarmlessServes(routes, id, j + 1, k + 1, line);
      DeliverToOneMore(routes, id, j);
      ServedCons(Delivery(routes[j].sock, true), SendFrom(routes, id, j + 1, k + 1, line).log);
    } else {
      var left := DropAt(routes, j);
      var resume := ResumeAfterRemoval(|left|, j, line.moves(k));
      ResumeInside(|left|, j, line.moves(k));
      HarmlessServes(left, id, resume, k + 1, line);
      ServedCons(Delivery(routes[j].sock, false), SendFrom(left, id, resume, k + 1, line).log);
      HarmlessPrefix(routes, id, j, resume);
    }
  }

  lemma ServedNothing()
    ensures Served([]) == []
  {
  }

  lemma ServedCons(delivery: Delivery, log: seq<Delivery>)
    ensures Served([delivery] + log) == (if delivery.accepted then [delivery] else []) + Served(log)
  {
  }

  lemma HarmlessPrefix(routes: seq<Route>, id: string, j: nat, resume: nat)
    requires j < |routes| && (resume == 0 || (resume == j + 1 && j < |DropAt(routes, j)|))
    requires HarmlessAt(DropAt(routes, j), id, j, resume)
    ensures DeliverTo(DropAt(routes, j)[..resume], id) == DeliverTo(routes[..j], id)
  {
    var left := DropAt(routes, j);
    assert left[..j] == routes[..j];
    if resume > 0 {
      DeliverToOneMore(left, id, j);
    }
  }

  // ----- Conditions on the clients alone

  /** The clients that are left and want the message are each served exactly once, in order, and nobody else is. */
  ghost predicate ServesTheRest(routes: seq<Route>, id: string, line: Line) {
    var out := SendAll(routes, id, line);
    Served(out.log) == DeliverTo(out.routes, id)
  }

  ghost predicate NeverMoves(line: Line) {
    forall n :: !line.moves(n)
  }

  lemma HarmlessServesTheRest(routes: seq<Route>, id: string, line: Line)
    requires Harmless(routes, id, 0, 0, line)
    ensures ServesTheRest(routes, id, line)
  {
    hide Harmless, SendFrom, Served;
    HarmlessServes(routes, id, 0, 0, line);
  }

  /** One refused write, with the array moved or not. */
  function RefuseOnly(f: nat, moved: bool): Line {
    Line((n: nat) => n != f, (n: nat) => moved)
  }

  /** What a refused write to client j alone does. */
  lemma RefuseOne(routes: seq<Route>, id: string, j: nat, moved: bool) returns (line: Line)
    requires j < |routes| && Wants(routes[j], id)
    ensures forall n :: line.moves(n) == moved
    ensures ServesTheRest(routes, id, line) <==>
            if moved || j == |routes| - 1 then DeliverTo(routes[..j], id) == [] else !Wants(routes[j + 1], id)
  {
    line := RefuseOnly(|DeliverTo(routes[..j], id)|, moved);
    assert j < |routes| - 1 ==> DropAt(routes, j)[j] == routes[j + 1];
    hide Wants, DeliverTo, SendFrom, Served;
    OneRefusal(routes, id, line, j);
  }

  lemma {:induction false} NobodyWants(routes: seq<Route>, id: string)
    ensures DeliverTo(routes, id) == [] <==> forall i :: 0 <= i < |routes| ==> !Wants(routes[i], id)
  {
    hide Wants;
    if routes != [] {
      NobodyWants(routes[1..], id);
      assert forall i :: 0 < i < |routes| ==> routes[i] == routes[1..][i - 1];
    }
  }

  lemma NobodyWantsBefore(routes: seq<Route>, id: string, j: nat)
    requires j <= |routes|
    ensures DeliverTo(routes[..j], id) == [] <==> forall i :: 0 <= i < j ==> !Wants(routes[i], id)
  {
    hide Wants, DeliverTo;
    NobodyWants(routes[..j], id);
    assert forall i :: 0 <= i < j ==> routes[..j][i] == routes[i];
  }

  ghost predicate BothWant(routes: seq<Route>, id: string, i: nat, j: nat)
    requires i < |routes| && j < |routes|
  {
    Wants(routes[i], id) && Wants(routes[j], id)
  }

  /** No two neighbours want the message, and the last client wants it only if nobody else does. */
  ghost predicate SpreadOut(routes: seq<Route>, id: string) {
    && (forall i: nat, j: nat :: j == i + 1 < |routes| ==> !BothWant(routes, id, i, j))
    && (forall i: nat, j: nat :: i < j == |routes| - 1 ==> !BothWant(routes, id, i, j))
  }

  ghost predicate AtMostOneWants(routes: seq<Route>, id: string) {
    forall i: nat, j: nat :: i < j < |routes| ==> !BothWant(routes, id, i, j)
  }

  lemma SpreadOutWithout(routes: seq<Route>, id: string, j: nat)
    requires SpreadOut(routes, id) && j < |routes| && Wants(routes[j], id)
    ensures SpreadOut(DropAt(routes, j), id)
    ensures HarmlessAt(DropAt(routes, j), id, j, ResumeAfterRemoval(|routes| - 1, j, false))
  {
    var left := DropAt(routes, j);
    NobodyWantsBefore(left, id, j);
    hide Wants, DeliverTo;
    forall i: nat, k: nat | i < k < |left| && (k == i + 1 || k == |left| - 1)
      ensures !BothWant(left, id, i, k)
    {
      var was, next := if i < j then i else i + 1, if k < j then k else k + 1;
      assert left[i] == routes[was] && left[k] == routes[next];
      if k == |left| - 1 && j < |routes| - 1 {
        assert !BothWant(routes, id, was, next);
      } else if j == |routes| - 1 {
        assert !BothWant(routes, id, i, j);
      } else if k == j {
        assert !BothWant(routes, id, j, next);
      } else {
        assert !BothWant(routes, id, was, next);
      }
    }
    if j < |left| {
      assert !BothWant(routes, id, j, j + 1);
    } else {
      assert forall i: nat :: i < j ==> left[i] == routes[i] && !BothWant(routes, id, i, j);
    }
  }

  lemma {:induction false} SpreadOutIsHarmless(routes: seq<Route>, id: string, from: nat, k: nat, line: Line)
    requires SpreadOut(routes, id) && from <= |routes| && NeverMoves(line)
    ensures Harmless(routes, id, from, k, line)
    decreases |routes|, |routes| - from
  {
    hide Wants, NextWanting, Harmless, HarmlessAt, SpreadOut, DropAt;
    HarmlessUnfolds(routes, id, from, k, line);
    var j := NextWanting(routes, id, from);
    if j < |routes| {
      if line.accepts(k) {
        SpreadOutIsHarmless(routes, id, j + 1, k + 1, line);
      } else {
        SpreadOutWithout(routes, id, j);
        SpreadOutIsHarmless(DropAt(routes, j), id, ResumeAfterRemoval(|routes| - 1, j, false), k + 1, line);
      }
    }
  }

  lemma NotSpreadOut(routes: seq<Route>, id: string) returns (i: nat, j: nat)
    requires !SpreadOut(routes, id)
    ensures i < j < |routes| && (j == i + 1 || j == |routes| - 1)
    ensures Wants(routes[i], id) && Wants(routes[j], id)
  {
    hide Wants;
    if a: nat, b: nat :| b == a + 1 < |routes| && BothWant(routes, id, a, b) {
      i, j := a, b;
    } else {
      i, j :| i < j == |routes| - 1 && BothWant(routes, id, i, j);
    }
  }

  /**
   * As long as the array stays in place, every pattern of refused writes
   * leaves the other clients rightly served if and only if no two neighbours
   * want the message and the last client wants it only if nobody else does.
   */
  lemma ServedInPlaceExactly(routes: seq<Route>, id: string)
    ensures (forall line :: NeverMoves(line) ==> ServesTheRest(routes, id, line)) <==> SpreadOut(routes, id)
  {
    hide Wants, Harmless, DeliverTo, ServesTheRest;
    if SpreadOut(routes, id) {
      forall line | NeverMoves(line)
        ensures ServesTheRest(routes, id, line)
      {
        SpreadOutIsHarmless(routes, id, 0, 0, line);
        HarmlessServesTheRest(routes, id, line);
      }
    } else {
      var i, j := NotSpreadOut(routes, id);
      NobodyWantsBefore(routes, id, j);
      var line := RefuseOne(routes, id, if j == |routes| - 1 then j else i, false);
      assert NeverMoves(line);
    }
  }

  lemma {:induction false} AtMostOneIsHarmless(routes: seq<Route>, id: string, from: nat, k: nat, line: Line)
    requires AtMostOneWants(routes, id) && from <= |routes|
    ensures Harmless(routes, id, from, k, line)
    decreases |routes|, |routes| - from
  {
    hide Wants, NextWanting, Harmless, HarmlessAt, AtMostOneWants, DropAt;
    HarmlessUnfolds(routes, id, from, k, line);
    var j := NextWanting(routes, id, from);
    if j < |routes| {
      if line.accepts(k) {
        AtMostOneIsHarmless(routes, id, j + 1, k + 1, line);
      } else {
        var resume := ResumeAfterRemoval(|routes| - 1, j, line.moves(k));
        AtMostOneWithout(routes, id, j, resume);
        AtMostOneIsHarmless(DropAt(routes, j), id, resume, k + 1, line);
      }
    }
  }

  lemma AtMostOneWithout(routes: seq<Route>, id: string, j: nat, resume: nat)
    requires AtMostOneWants(routes, id) && j < |routes| && Wants(routes[j], id)
    requires resume > 0 ==> j < |routes| - 1
    ensures AtMostOneWants(DropAt(routes, j), id) && HarmlessAt(DropAt(routes, j), id, j, resume)
  {
    var left := DropAt(routes, j);
    NobodyWantsBefore(left, id, j);
    hide Wants, DeliverTo;
    forall i: nat | i < |left|
      ensures !Wants(left[i], id)
    {
      assert left[i] == routes[if i < j then i else i + 1];
      assert if i < j then !BothWant(routes, id, i, j) else !BothWant(routes, id, j, i + 1);
    }
  }

  /**
   * Wherever the array may move, every pattern of refused writes leaves the
   * other clients rightly served if and only if at most one client wants the
   * message.
   */
  lemma ServedExactly(routes: seq<Route>, id: string)
    ensures (forall line :: ServesTheRest(routes, id, line)) <==> AtMostOneWants(routes, id)
  {
    hide Wants, Harmless, DeliverTo, ServesTheRest;
    if AtMostOneWants(routes, id) {
      forall line
        ensures ServesTheRest(routes, id, line)
      {
        AtMostOneIsHarmless(routes, id, 0, 0, line);
        HarmlessServesTheRest(routes, id, line);
      }
    } else {
      var i: nat, j: nat :| i < j < |routes| && BothWant(routes, id, i, j);
      NobodyWantsBefore(routes, id, j);
      var line := RefuseOne(routes, id, j, true);
    }
  }
}
