/** The wildcard matcher that routes messages, rocsmq_message_match. */
module Matcher {

  const STAR := '*'

  /** Position of the first star of a pattern, or its length. */
  function FirstStar(pattern: string): (n: nat)
    ensures n <= |pattern|
    ensures forall i :: 0 <= i < n ==> pattern[i] != STAR
    ensures n < |pattern| ==> pattern[n] == STAR
  {
    if pattern == [] || pattern[0] == STAR then 0 else
      1 + FirstStar(pattern[1..])
  }

  /** The literal text before the first star. */
  function Literal(pattern: string): string {
    pattern[..FirstStar(pattern)]
  }

  predicate HasStar(pattern: string) {
    FirstStar(pattern) < |pattern|
  }

  /** What follows the first star. */
  function AfterStar(pattern: string): string
    requires HasStar(pattern)
  {
    pattern[FirstStar(pattern) + 1..]
  }

  /**
   * The answer of rocsmq_message_match. Behind a star that is not the last
   * character the search restarts at the beginning of the subject, not at the
   * current position, and only non-empty suffixes are tried.
   */
  ghost predicate Matches(subject: string, pattern: string)
    decreases |pattern|, 0
  {
    if !HasStar(pattern) then subject == pattern
    else
      && Literal(pattern) <= subject
      && (AfterStar(pattern) == [] || MatchesFrom(subject, AfterStar(pattern), 0))
  }

  /** Some suffix that is not empty, at a given position or behind it, matches. */
  ghost predicate MatchesFrom(subject: string, pattern: string, from: nat)
    decreases |pattern|, 1
  {
    exists k :: from <= k < |subject| && Matches(subject[k..], pattern)
  }

  /** The program: two nested loops over the pattern and the subject. */
  method MessageMatch(subject: string, pattern: string) returns (matched: bool)
    ensures matched == Matches(subject, pattern)
    decreases |pattern|
  {
    var s, p := 0, 0;
    while p < |pattern|
      invariant 0 <= p <= |pattern|
      invariant s == p <= |subject|
      invariant p <= FirstStar(pattern)
      invariant pattern[..p] == subject[..s]
    {
      if pattern[p] == STAR {
        StarDecides(subject, pattern, p);
        if p + 1 == |pattern| {
          return true;
        }
        var rest := pattern[p + 1..];
        s := 0;
        while s < |subject|
          invariant 0 <= s <= |subject|
          invariant forall k :: 0 <= k < s ==> !Matches(subject[k..], rest)
        {
          var found := MessageMatch(subject[s..], rest);
          if found {
            return true;
          }
          s := s + 1;
        }
        return false;
      }
      MismatchFails(subject, pattern, p);
      if s == |subject| {
        return false;
      }
      if pattern[p] != subject[s] {
        return false;
      }
      s := s + 1;
      p := p + 1;
    }
    return s == |subject|;
  }

  /** Behind a matching literal the star decides: at the end of the pattern, or by some suffix. */
  lemma StarDecides(subject: string, pattern: string, p: nat)
    requires p < |pattern| && p <= |subject| && p <= FirstStar(pattern) && pattern[p] == STAR
    requires pattern[..p] == subject[..p]
    ensures Matches(subject, pattern) <==>
            p + 1 == |pattern| || MatchesFrom(subject, pattern[p + 1..], 0)
  {
  }

  /** A literal character that the subject does not have at its place decides the answer. */
  lemma MismatchFails(subject: string, pattern: string, p: nat)
    requires p < |pattern| && p <= FirstStar(pattern) && pattern[p] != STAR
    ensures p < FirstStar(pattern)
    ensures p >= |subject| || subject[p] != pattern[p] ==> !Matches(subject, pattern)
  {
  }

  // ----- Exact meaning by placement of the literal segments

  /** The literal segments of a pattern: the text between its stars. */
  function Segments(pattern: string): (segments: seq<string>)
    ensures segments != []
    decreases |pattern|
  {
    if !HasStar(pattern) then [pattern] else [Literal(pattern)] + Segments(AfterStar(pattern))
  }

  /** The pattern that has the given segments. */
  function JoinStars(segments: seq<string>): string
    requires segments != []
  {
    if |segments| == 1 then segments[0] else segments[0] + [STAR] + JoinStars(segments[1..])
  }

  lemma {:induction false} SegmentsPartition(pattern: string)
    ensures JoinStars(Segments(pattern)) == pattern
    ensures forall i :: 0 <= i < |Segments(pattern)| ==> STAR !in Segments(pattern)[i]
    decreases |pattern|
  {
    if HasStar(pattern) {
      SegmentsPartition(AfterStar(pattern));
      assert pattern == Literal(pattern) + [STAR] + AfterStar(pattern);
      assert Segments(pattern)[1..] == Segments(AfterStar(pattern));
    }
  }

  /** The segments that need a place: a pattern that ends in a star does not constrain its last, empty one. */
  function Placeable(segments: seq<string>): nat
    requires segments != []
  {
    if |segments| > 1 && segments[|segments| - 1] == [] then |segments| - 1 else |segments|
  }

  predicate Occurs(subject: string, segment: string, start: nat) {
    start <= |subject| && segment <= subject[start..]
  }

  predicate EndsAt(subject: string, segment: string, start: nat) {
    start <= |subject| && segment == subject[start..]
  }

  /** Start positions never go back, but the places they start may overlap. */
  predicate Ascending(starts: seq<nat>) {
    forall i, j :: 0 <= i < j < |starts| ==> starts[i] <= starts[j]
  }

  /**
   * The first segment is at the base and each segment occurs at its start
   * position; every segment behind a star starts inside the subject, and a
   * last segment without a star behind it ends where the subject ends.
   */
  ghost predicate Placed(subject: string, base: nat, segments: seq<string>, starts: seq<nat>)
    requires segments != []
  {
    && |starts| == Placeable(segments)
    && starts[0] == base
    && Ascending(starts)
    && (forall i :: 1 <= i < |starts| ==> starts[i] < |subject|)
    && (forall i :: 0 <= i < |starts| ==> Occurs(subject, segments[i], starts[i]))
    && (|starts| == |segments| ==> EndsAt(subject, segments[|starts| - 1], starts[|starts| - 1]))
  }

  lemma PlacedCons(subject: string, base: nat, segment: string, segments: seq<string>, starts: seq<nat>)
    requires segments != [] && segments != [[]] && starts != []
    requires Placed(subject, starts[0], segments, starts)
    requires base <= starts[0] < |subject| && Occurs(subject, segment, base)
    ensures Placed(subject, base, [segment] + segments, [base] + starts)
  {
  }

  lemma PlacedTail(subject: string, base: nat, segment: string, segments: seq<string>, starts: seq<nat>)
    requires segments != [] && segments != [[]]
    requires Placed(subject, base, [segment] + segments, starts)
    ensures Occurs(subject, segment, base)
    ensures |starts| > 1 && base <= starts[1] < |subject|
    ensures Placed(subject, starts[1], segments, starts[1..])
  {
  }

  /** A non-empty pattern has a single segment only when that segment is not empty. */
  lemma SegmentsNotBlank(pattern: string)
    requires pattern != []
    ensures Segments(pattern) != [[]]
  {
  }

  lemma SuffixThatMatches(subject: string, base: nat, rest: string) returns (k: nat)
    requires base <= |subject| && MatchesFrom(subject[base..], rest, 0)
    ensures base <= k < |subject| && Matches(subject[k..], rest)
  {
    var j: nat :| j < |subject[base..]| && Matches(subject[base..][j..], rest);
    k := base + j;
    assert subject[base..][j..] == subject[k..];
  }

  lemma {:induction false} MatchesGivesPlacement(subject: string, base: nat, pattern: string) returns (starts: seq<nat>)
    requires base <= |subject| && Matches(subject[base..], pattern)
    ensures Placed(subject, base, Segments(pattern), starts)
    decreases |pattern|
  {
    starts := [base];
    if HasStar(pattern) && AfterStar(pattern) != [] {
      var rest := AfterStar(pattern);
      var k := SuffixThatMatches(subject, base, rest);
      var inner := MatchesGivesPlacement(subject, k, rest);
      SegmentsNotBlank(rest);
      PlacedCons(subject, base, Literal(pattern), Segments(rest), inner);
      starts := [base] + inner;
    }
  }

  lemma {:induction false} PlacementGivesMatch(subject: string, base: nat, pattern: string, starts: seq<nat>)
    requires Placed(subject, base, Segments(pattern), starts)
    ensures base <= |subject| && Matches(subject[base..], pattern)
    decreases |pattern|
  {
    assert Occurs(subject, Segments(pattern)[0], starts[0]);
    if HasStar(pattern) && AfterStar(pattern) != [] {
      var rest := AfterStar(pattern);
      SegmentsNotBlank(rest);
      PlacedTail(subject, base, Literal(pattern), Segments(rest), starts);
      PlacementGivesMatch(subject, starts[1], rest, starts[1..]);
      assert subject[base..][starts[1] - base..] == subject[starts[1]..];
    }
  }

  /** The matcher answers yes exactly when the segments of the pattern can be placed. */
  lemma MatchesExactly(subject: string, pattern: string)
    ensures Matches(subject, pattern) <==> exists starts: seq<nat> :: Placed(subject, 0, Segments(pattern), starts)
  {
    assert subject[0..] == subject;
    if Matches(subject, pattern) {
      var starts := MatchesGivesPlacement(subject, 0, pattern);
      assert exists starts: seq<nat> :: Placed(subject, 0, Segments(pattern), starts);
    } else if exists starts: seq<nat> :: Placed(subject, 0, Segments(pattern), starts) {
      var starts: seq<nat> :| Placed(subject, 0, Segments(pattern), starts);
      PlacementGivesMatch(subject, 0, pattern, starts);
    }
  }
}
