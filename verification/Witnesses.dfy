/** For each promise that holds only under a condition, the smallest input on which it fails. */
module Witnesses {
  import opened Matcher
  import G = GlobAgreement
  import opened Chains
  import CronSpec
  import ExchangeSort
  import LoginFilters
  import Routing
  import ServerSpec

  /** Two segments share a character of the subject. */
  lemma SegmentsOverlap()
    ensures Matches("abc", "ab*bc") && !G.Glob("abc", "ab*bc")
  {
    G.StarIsAt("ab", "bc");
    G.TwoSegments("abc", "ab", "bc");
    assert "ab" + [STAR] + "bc" == "ab*bc";
    G.NoStarIn("bc");
    assert "abc"[1..] == "bc";
    assert MatchesFrom("abc", "bc", 0);
  }

  /** The empty subject against two stars. */
  lemma TwoStarsOnNothing()
    ensures G.Glob("", "**") && !Matches("", "**")
  {
  }

  function Four<T>(a: T, b: T, c: T, d: T): seq<Cell<nat, T>> {
    [Cell(0, a, false), Cell(1, b, true), Cell(2, c, true), Cell(3, d, true)]
  }

  /** Removing node 1 severs node 2; removing node 2 then keeps it and loses node 3. */
  lemma SecondRemovalCuts()
    ensures var s := Four((), (), (), ());
            && FullyLinked(s)
            && Nodes(RemoveAt(s, 1)) == [0, 2, 3] && !FullyLinked(RemoveAt(s, 1))
            && Nodes(RemoveAt(RemoveAt(s, 1), 1)) == [0, 2]
  {
  }

  function Once(timestamp: CronSpec.uint32): CronSpec.Job {
    CronSpec.Job(timestamp, 0, 0, "m", "")
  }

  lemma DeadNeighboursStay<N, T>(s: seq<Cell<N, T>>, dead: T -> bool, update: T -> T)
    requires FullyLinked(s) && |s| == 4
    requires !dead(s[0].data) && dead(s[1].data) && dead(s[2].data)
    ensures Nodes(Sweep([], s, dead, update)) == [s[0].node, s[2].node]
    ensures !Safe(s, dead)
  {
    var first := s[0].(data := update(s[0].data));
    var rest := Sever(s[1..][1..]);
    assert [] + [first] == [first];
    assert Sweep([], s, dead, update) == Sweep([first], s[1..], dead, update);
    assert rest[0] == s[2].(linked := false);
    assert Sweep([first], s[1..], dead, update) == Sweep([first], rest, dead, update);
    assert Sweep([first], rest, dead, update) == [first, rest[0].(data := update(rest[0].data))];
    assert !SafeAt(s, 2, dead);
  }

  /** Two neighbouring jobs that expire on the same tick: one stays, and the job behind them is lost. */
  lemma ExpiredNeighbours()
    ensures var t := CronSpec.Table(0, Four(Once(9), Once(1), Once(1), Once(9)));
            && FullyLinked(t.jobs)
            && !CronSpec.Allowed(t, CronSpec.Tick(1))
            && Nodes(CronSpec.Step(t, CronSpec.Tick(1)).jobs) == [0, 2]
  {
    var s := Four(Once(9), Once(1), Once(1), Once(9));
    hide Sweep, Safe;
    DeadNeighboursStay(s, CronSpec.ExpiresAt(1), CronSpec.FireAt(1));
  }

  function Named(name: string): CronSpec.Job {
    CronSpec.Job(9, 0, 0, name, "")
  }

  /** Two neighbouring jobs that a deletion removes: the second stays, freed, and the job behind them is lost. */
  lemma DeletedNeighbours()
    ensures var t := CronSpec.Table(0, Four(Named("a"), Named("b"), Named("b"), Named("a")));
            && FullyLinked(t.jobs)
            && !CronSpec.Allowed(t, CronSpec.Delete("a"))
            && Nodes(CronSpec.Step(t, CronSpec.Delete("a")).jobs) == [0, 2]
            && 2 in Freed(t.jobs, CronSpec.OtherName("a"))
  {
    var s := Four(Named("a"), Named("b"), Named("b"), Named("a"));
    var dead := CronSpec.OtherName("a");
    assert "b"[0] != "a"[0];
    assert !dead(s[0].data) && dead(s[1].data) && dead(s[2].data);
    hide Deletions, Freed, Safe, RemoveAt, CronSpec.OtherName, Nodes;
    NeighboursCut(s, dead);
  }

  lemma NeighboursCut<N, T>(s: seq<Cell<N, T>>, dead: T -> bool)
    requires FullyLinked(s) && |s| == 4
    requires !dead(s[0].data) && dead(s[1].data) && dead(s[2].data)
    ensures Nodes(Deletions(s, dead)) == [s[0].node, s[2].node] && s[2].node in Freed(s, dead)
    ensures !Safe(s, dead)
  {
    hide Deletions, Freed, NeverCuts, Safe;
    RemoveAtCells(s, 1);
    var r := RemoveAt(s, 1);
    assert r[0] == s[0] && r[1] == s[2].(linked := false);
    FirstDeadIsFirst(s, 1, dead);
    FirstDeadIsFirst(r, 1, dead);
    DeletionsUnfold(s, dead);
    DeletionsUnfold(r, dead);
    assert r[..2] == [r[0], r[1]];
    NeverCutsExactly(s, dead);
  }

  /** One job with the given name: it is the one that should go, and it stays. */
  lemma NamedJobStays()
    ensures var t := CronSpec.Table(0, [Cell(0, Named("a"), false)]);
            && CronSpec.Allowed(t, CronSpec.Delete("a"))
            && CronSpec.Step(t, CronSpec.Delete("a")).jobs == t.jobs
            && !CronSpec.DeletesNamed(t.jobs, t.jobs, "a")
  {
    var t := CronSpec.Table(0, [Cell(0, Named("a"), false)]);
    assert Contains(t.jobs, t.jobs[0].node, t.jobs[0].data);
  }

  /** Three times a third of the clock apart: each job is due before the next, all the way round. */
  lemma NoFirstJob()
    ensures var a, b, c := Once(0), Once(0x5000_0000), Once(0xA000_0000);
            && CronSpec.JobSort(a, b) > 0 && CronSpec.JobSort(b, c) > 0 && CronSpec.JobSort(c, a) > 0
            && !ExchangeSort.TransitiveOn(CronSpec.JobSort, multiset{a, b, c})
  {
    var a, b, c := Once(0), Once(0x5000_0000), Once(0xA000_0000);
    var cmp := CronSpec.JobSort;
    assert ExchangeSort.Before(cmp, a, b) && ExchangeSort.Before(cmp, b, c) && !ExchangeSort.Before(cmp, a, c);
  }

  /** The first of two clients refuses its write and the second, which wants the message too, is never written to. */
  lemma SkippedClient(line: Routing.Line)
    requires Routing.OnlyRefuses(line, 0) && !line.moves(0)
    ensures var routes := [Routing.Route(4, ["m"]), Routing.Route(5, ["m"])];
            && Routing.Wants(routes[1], "m")
            && Routing.Served(Routing.SendAll(routes, "m", line).log) != Routing.DeliverTo([routes[1]], "m")
  {
    var routes := [Routing.Route(4, ["m"]), Routing.Route(5, ["m"])];
    G.NoStarIn("m");
    assert Matches("m", routes[0].tokens[0]) && Matches("m", routes[1].tokens[0]);
    assert Routing.DropAt(routes, 0) == [routes[1]];
    assert Routing.DeliverTo(routes[..0], "m") == [];
    Routing.OneRefusal(routes, "m", line, 0);
  }

  /**
   * Two refused writes that each do harm, and together do none: the first
   * makes the search skip the second client, the other makes it start over.
   */
  lemma HarmUndone(line: Routing.Line)
    requires forall n :: !line.moves(n)
    requires forall n :: line.accepts(n) <==> n >= 2
    ensures var routes := [Routing.Route(4, ["m"]), Routing.Route(5, ["m"]), Routing.Route(6, ["m"])];
            var out := Routing.SendAll(routes, "m", line);
            && !Routing.Harmless(routes, "m", 0, 0, line)
            && out.routes == [routes[1]] && Routing.Served(out.log) == Routing.DeliverTo(out.routes, "m")
  {
    var a, b, c := Routing.Route(4, ["m"]), Routing.Route(5, ["m"]), Routing.Route(6, ["m"]);
    G.NoStarIn("m");
    assert Matches("m", a.tokens[0]) && Matches("m", b.tokens[0]) && Matches("m", c.tokens[0]);
    hide Matches, Routing.SendAll;
    ThirdWrite(a, b, c, line);
    hide Routing.Wants, Routing.Harmless;
    var served := Routing.Delivery(5, true);
    assert Routing.DeliverTo([b], "m") == [served];
    var last := [served];
    var behind := [Routing.Delivery(6, false)] + last;
    assert Routing.Served(last) == [served];
    Routing.ServedCons(Routing.Delivery(6, false), last);
    Routing.ServedCons(Routing.Delivery(4, false), behind);
  }

  lemma ThirdWrite(a: Routing.Route, b: Routing.Route, c: Routing.Route, line: Routing.Line)
    requires Routing.Wants(a, "m") && Routing.Wants(b, "m") && Routing.Wants(c, "m")
    requires forall n :: !line.moves(n)
    requires forall n :: line.accepts(n) <==> n >= 2
    ensures !Routing.Harmless([a, b, c], "m", 0, 0, line)
    ensures var later := [Routing.Delivery(c.sock, false)] + [Routing.Delivery(b.sock, true)];
            var log := [Routing.Delivery(a.sock, false)] + later;
            Routing.SendAll([a, b, c], "m", line) == Routing.Outcome(log, [b])
  {
    hide Matches, Routing.Wants, Routing.SendFrom, Routing.Harmless;
    assert Routing.DropAt([a, b, c], 0) == [b, c] && Routing.DropAt([b, c], 1) == [b];
    Routing.HarmlessUnfolds([a, b, c], "m", 0, 0, line);
    Routing.SendUnfolds([a, b, c], "m", 0, 0, line);
    Routing.SendUnfolds([b, c], "m", 1, 1, line);
    Routing.SendUnfolds([b], "m", 0, 2, line);
    Routing.SendUnfolds([b], "m", 1, 3, line);
    hide Routing.DropAt, Routing.HarmlessAt;
    var last := [Routing.Delivery(b.sock, true)];
    assert last + [] == last;
  }

  /** A write that is refused leaves the closed socket of a client in the monitored set. */
  lemma RefusedWrite(line: Routing.Line, ready: set<int>, events: nat -> ServerSpec.Event)
    requires Routing.OnlyRefuses(line, 0) && 4 in ready && events(0) == ServerSpec.Arrived("m", line)
    ensures var s := ServerSpec.Server(3, [Routing.Route(4, ["m"])], {3, 4}, {3, 4});
            && ServerSpec.Sound(s) && ServerSpec.Clean(s)
            && !ServerSpec.Clean(ServerSpec.Next(s, ServerSpec.Pass(ready, events)))
  {
    var routes := [Routing.Route(4, ["m"])];
    var s := ServerSpec.Server(3, routes, {3, 4}, {3, 4});
    G.NoStarIn("m");
    assert Matches("m", routes[0].tokens[0]);
    hide Matches, Routing.Wants;
    assert Routing.Socks(routes) == {4} by {
      assert routes[0].sock in Routing.Socks(routes);
    }
    assert !Routing.AllAccepted(routes, "m", 0, line) by {
      assert |Routing.DeliverTo(routes, "m")| == 1;
      assert !line.accepts(0);
    }
    ServerSpec.StaleExactly(s, ServerSpec.Pass(ready, events));
  }

  /** A login that fails leaves a closed socket in the monitored set. */
  lemma FailedLogin()
    ensures var s := ServerSpec.Next(ServerSpec.Server(3, [], {3}, {3}), ServerSpec.Accept(4, ServerSpec.Failed));
            4 in s.monitored && 4 !in s.open
  {
  }

  /** A client logs in with a filter of commas alone and goes again: the server reads through a null pointer. */
  lemma EmptyFilter()
    ensures var s := ServerSpec.Server(3, [], {3}, {3});
            var steps := [ServerSpec.Accept(4, ServerSpec.Filter(",")), ServerSpec.Pass({4}, _ => ServerSpec.Gone)];
            && ServerSpec.RunPossible(s, steps) && ServerSpec.NeverLeavesStale(s, steps)
            && ServerSpec.Crashes(ServerSpec.Next(s, steps[0]), steps[1])
            && !ServerSpec.NeverEnds(s, steps)
  {
    var s := ServerSpec.Server(3, [], {3}, {3});
    var gone: nat -> ServerSpec.Event := _ => ServerSpec.Gone;
    var steps := [ServerSpec.Accept(4, ServerSpec.Filter(",")), ServerSpec.Pass({4}, gone)];
    LoginFilters.HasTokens(",");
    var next := ServerSpec.Next(s, steps[0]);
    assert next.routes == [Routing.Route(4, [])];
    ServerSpec.OneGone(next.routes, 0, 0);
    assert Routing.DropAt(next.routes, 0) == [];
    assert ServerSpec.PassAccepted([], 1, {4}, gone);
    assert ServerSpec.PassAccepted(next.routes, 0, {4}, gone);
    assert steps[1..] == [steps[1]] && steps[1..][1..] == [];
    hide ServerSpec.PassAccepted, ServerSpec.DropsFiltered, ServerSpec.PassFrom;
  }
}
