/** The sampling divider of the GPIO client: how often a pin is really read. */
module Gpio {
  import opened Matcher

  type int8 = x: int | -128 <= x < 128

  /** The value of an 8-bit signed variable after an assignment of x. */
  function Wrap(x: int): (r: int8)
    ensures (r - x) % 256 == 0
  {
    (x + 128) % 256 - 128
  }

  datatype Pin = Pin(mapname: string, inhibition: int8, countdown: int8)

  /** A pin as the configuration sets it up, with any integer for its inhibition. */
  function Configured(mapname: string, inhibit: int): Pin {
    Pin(mapname, Wrap(inhibit), 0)
  }

  /** One matching request: the counter is compared before it is decremented. */
  function Requested(pin: Pin): (bool, Pin) {
    if pin.countdown == 0 then (true, pin.(countdown := pin.inhibition))
    else (false, pin.(countdown := Wrap(pin.countdown - 1)))
  }

  function AfterRequests(pin: Pin, n: nat): Pin
    decreases n
  {
    if n == 0 then pin else Requested(AfterRequests(pin, n - 1)).1
  }

  /** Whether request number n, counted from zero, reads the pin. */
  predicate Sampled(pin: Pin, n: nat) {
    Requested(AfterRequests(pin, n)).0
  }

  function Divider(inhibit: int): nat {
    inhibit % 256 + 1
  }

  /** Requests that still pass before the pin is read again. */
  function Wait(countdown: int8): nat {
    countdown % 256
  }

  /** At every point some multiple of the divider lies ahead, at the end of the wait. */
  lemma {:induction false} CountsDown(mapname: string, inhibit: int, n: nat) returns (j: nat)
    ensures var pin := AfterRequests(Configured(mapname, inhibit), n);
            pin.inhibition == Wrap(inhibit) && n + Wait(pin.countdown) == j * Divider(inhibit)
    ensures Wait(AfterRequests(Configured(mapname, inhibit), n).countdown) < Divider(inhibit)
    decreases n
  {
    if n == 0 {
      j := 0;
    } else {
      j := CountsDown(mapname, inhibit, n - 1);
      var before := AfterRequests(Configured(mapname, inhibit), n - 1);
      if before.countdown == 0 {
        WaitOfInhibition(inhibit);
        assert (j + 1) * Divider(inhibit) == j * Divider(inhibit) + Divider(inhibit);
        j := j + 1;
      } else {
        WaitCounts(before.countdown);
      }
    }
  }

  lemma WaitOfInhibition(inhibit: int)
    ensures Wait(Wrap(inhibit)) == Divider(inhibit) - 1
  {
  }

  lemma WaitCounts(countdown: int8)
    requires countdown != 0
    ensures Wait(countdown) > 0 && Wait(Wrap(countdown - 1)) == Wait(countdown) - 1
  {
  }

  lemma MultipleAtLeast(d: int, p: int)
    requires p >= 0
    ensures d >= 1 ==> d * p >= p
    ensures d <= -1 ==> d * p <= -p
  {
  }

  lemma BetweenMultiples(i: nat, j: nat, p: nat, wait: nat)
    requires i * p + wait == j * p && wait < p
    ensures wait == 0
  {
    var d := j - i;
    assert d * p == j * p - i * p;
    MultipleAtLeast(d, p);
  }

  /**
   * A pin is read on requests 0, P, 2P, ... for it and on no others, where P is
   * its inhibition modulo 256, plus one; negative inhibitions included.
   */
  lemma SampledEveryPth(mapname: string, inhibit: int, n: nat)
    ensures Sampled(Configured(mapname, inhibit), n) <==> exists i: nat :: n == i * Divider(inhibit)
  {
    var wait := Wait(AfterRequests(Configured(mapname, inhibit), n).countdown);
    var j := CountsDown(mapname, inhibit, n);
    if i: nat :| n == i * Divider(inhibit) {
      BetweenMultiples(i, j, Divider(inhibit), wait);
    }
  }

  // ----- Many pins and many requests

  /** How many of the requested names match a pin. */
  ghost function Requests(mapname: string, names: seq<string>): nat {
    if names == [] then 0
    else Requests(mapname, names[..|names| - 1]) + if Matches(mapname, names[|names| - 1]) then 1 else 0
  }

  lemma {:induction false} NameStays(pin: Pin, n: nat)
    ensures AfterRequests(pin, n).mapname == pin.mapname
    decreases n
  {
    if n > 0 {
      NameStays(pin, n - 1);
    }
  }

  ghost function PinAfter(pin: Pin, names: seq<string>): Pin {
    AfterRequests(pin, Requests(pin.mapname, names))
  }

  /** Request i reads the pin: its name matches and the counter has come down. */
  ghost predicate ReadOn(pin: Pin, names: seq<string>, i: nat)
    requires i < |names|
  {
    Matches(pin.mapname, names[i]) && Sampled(pin, Requests(pin.mapname, names[..i]))
  }

  lemma PinStep(pin: Pin, names: seq<string>, i: nat)
    requires i < |names|
    ensures PinAfter(pin, names[..i]).mapname == pin.mapname
    ensures PinAfter(pin, names[..i + 1]) ==
            if Matches(pin.mapname, names[i]) then Requested(PinAfter(pin, names[..i])).1 else PinAfter(pin, names[..i])
    ensures ReadOn(pin, names, i) <==> Matches(pin.mapname, names[i]) && PinAfter(pin, names[..i]).countdown == 0
  {
    assert names[..i + 1][..i] == names[..i] && names[..i + 1][i] == names[i];
    NameStays(pin, Requests(pin.mapname, names[..i]));
  }

  /** Which of the first requests match a pin. */
  ghost function Matching(mapname: string, names: seq<string>, upTo: nat): set<nat>
    requires upTo <= |names|
  {
    set k: nat | k < upTo && Matches(mapname, names[k])
  }

  /** The requests that match a pin, counted one by one. */
  lemma {:induction false} RequestsCount(mapname: string, names: seq<string>, upTo: nat)
    requires upTo <= |names|
    ensures Requests(mapname, names[..upTo]) == |Matching(mapname, names, upTo)|
    decreases upTo
  {
    hide Matches;
    if upTo > 0 {
      var k := upTo - 1;
      RequestsCount(mapname, names, k);
      assert names[..upTo][..k] == names[..k] && names[..upTo][k] == names[k];
      assert Matching(mapname, names, upTo) ==
             Matching(mapname, names, k) + if Matches(mapname, names[k]) then {k} else {};
      assert k !in Matching(mapname, names, k);
    }
  }

  /**
   * A pin as the configuration leaves it is read on exactly those requests that
   * match it and come after a multiple of the divider of such requests,
   * whatever else is requested.
   */
  lemma ReadOnExactly(mapname: string, inhibit: int, names: seq<string>, i: nat)
    requires i < |names|
    ensures ReadOn(Configured(mapname, inhibit), names, i) <==>
            && Matches(mapname, names[i])
            && exists j: nat :: |Matching(mapname, names, i)| == j * Divider(inhibit)
  {
    hide Matches, Sampled, Requests, Matching, Divider;
    RequestsCount(mapname, names, i);
    SampledEveryPth(mapname, inhibit, Requests(mapname, names[..i]));
  }

  predicate Ascending(pins: seq<nat>) {
    forall p, q :: 0 <= p < q < |pins| ==> pins[p] < pins[q]
  }

  /** The inner loop for one requested name: every pin that matches it counts down, and is read when it is its turn. */
  method HandleName(pins: array<Pin>, numPins: int8, name: string) returns (sampled: seq<nat>)
    requires numPins <= pins.Length
    modifies pins
    ensures forall a :: 0 <= a < pins.Length ==>
              pins[a] ==
              if a < numPins && Matches(old(pins[a]).mapname, name) then Requested(old(pins[a])).1 else old(pins[a])
    ensures forall a: nat :: a in sampled <==>
              a < numPins && Matches(old(pins[a]).mapname, name) && old(pins[a]).countdown == 0
    ensures Ascending(sampled)
  {
    hide Matches;
    sampled := [];
    var a: nat := 0;
    while a < numPins
      invariant Ascending(sampled) && forall p :: 0 <= p < |sampled| ==> sampled[p] in sampled && sampled[p] < a
      invariant a <= numPins || (a == 0 && numPins < 0)
      invariant forall b :: 0 <= b < pins.Length ==>
                  pins[b] ==
                  if b < a && Matches(old(pins[b]).mapname, name) then Requested(old(pins[b])).1 else old(pins[b])
      invariant forall b: nat :: b in sampled <==>
                  b < a && b < numPins && Matches(old(pins[b]).mapname, name) && old(pins[b]).countdown == 0
    {
      var matched := MessageMatch(pins[a].mapname, name);
      if matched {
        var before: int := pins[a].countdown;
        pins[a] := pins[a].(countdown := Wrap(before - 1));
        if before == 0 {
          pins[a] := pins[a].(countdown := pins[a].inhibition);
          sampled := sampled + [a];
        }
      }
      a := a + 1;
    }
  }

  /** The pins read on request i are exactly those whose turn it is, each once and in order. */
  ghost predicate RightPins(sampled: seq<nat>, pins: seq<Pin>, numPins: int8, names: seq<string>, i: nat)
    requires numPins <= |pins| && i < |names|
  {
    Ascending(sampled) && forall a: nat :: a in sampled <==> a < numPins && ReadOn(pins[a], names, i)
  }

  /**
   * The read branch of handle_message, with the pins it reads for each name.
   * Each pin is read exactly on its own schedule, whatever is requested of the
   * others.
   */
  method HandleRead(pins: array<Pin>, numPins: int8, names: seq<string>) returns (readings: seq<seq<nat>>)
    requires numPins <= pins.Length
    modifies pins
    ensures forall a :: 0 <= a < pins.Length ==>
              pins[a] == if a < numPins then PinAfter(old(pins[a]), names) else old(pins[a])
    ensures |readings| == |names|
    ensures forall i :: 0 <= i < |names| ==> RightPins(readings[i], old(pins[..]), numPins, names, i)
  {
    hide Matches, PinAfter, ReadOn;
    readings := [];
    var i := 0;
    ghost var was := pins[..];
    Untouched(was);
    while i < |names|
      invariant 0 <= i <= |names| && |readings| == i
      invariant forall a :: 0 <= a < pins.Length ==>
                  pins[a] == if a < numPins then PinAfter(was[a], names[..i]) else was[a]
      invariant forall k :: 0 <= k < i ==> RightPins(readings[k], was, numPins, names, k)
    {
      forall a | 0 <= a < numPins
        ensures PinAfter(was[a], names[..i]).mapname == was[a].mapname
        ensures PinAfter(was[a], names[..i + 1]) ==
                if Matches(was[a].mapname, names[i]) then Requested(PinAfter(was[a], names[..i])).1
                else PinAfter(was[a], names[..i])
        ensures ReadOn(was[a], names, i) <==>
                  Matches(was[a].mapname, names[i]) && PinAfter(was[a], names[..i]).countdown == 0
      {
        PinStep(was[a], names, i);
      }
      ghost var now := pins[..];
      var sampled := HandleName(pins, numPins, names[i]);
      forall a: nat
        ensures a in sampled <==> a < numPins && ReadOn(was[a], names, i)
      {
        assert a < numPins ==> now[a] == PinAfter(was[a], names[..i]);
      }
      readings := readings + [sampled];
      i := i + 1;
    }
    assert names[..i] == names;
  }

  lemma Untouched(pins: seq<Pin>)
    ensures forall a :: 0 <= a < |pins| ==> PinAfter(pins[a], []) == pins[a]
  {
  }
}
