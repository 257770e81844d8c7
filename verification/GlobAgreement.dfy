/** The ordinary wildcard relation, and exactly which patterns the matcher treats differently. */
module GlobAgreement {
  import opened Matcher

  /** The usual meaning: a star stands for any text, also none, and nothing overlaps. */
  predicate Glob(subject: string, pattern: string)
    decreases |pattern| + |subject|
  {
    if pattern == [] then subject == []
    else if pattern[0] == STAR then
      Glob(subject, pattern[1..]) || (subject != [] && Glob(subject[1..], pattern))
    else
      subject != [] && subject[0] == pattern[0] && Glob(subject[1..], pattern[1..])
  }

  /** A pattern without its leading stars. */
  function SkipStars(pattern: string): (r: string)
    ensures |r| <= |pattern|
    ensures r == [] || r[0] != STAR
  {
    if pattern == [] || pattern[0] != STAR then pattern else SkipStars(pattern[1..])
  }

  /** The pattern from the next literal segment that is not empty. */
  function Next(pattern: string): (r: string)
    requires HasStar(pattern)
    ensures |r| < |pattern|
    ensures r != [] ==> Literal(r) != []
  {
    SkipStars(AfterStar(pattern))
  }

  ghost predicate Somewhere(subject: string, pattern: string) {
    exists j :: 0 <= j <= |subject| && Glob(subject[j..], pattern)
  }

  lemma {:induction false} StarMeansSomewhere(subject: string, pattern: string)
    requires pattern != [] && pattern[0] == STAR
    ensures Glob(subject, pattern) <==> Somewhere(subject, pattern[1..])
    decreases |subject|
  {
    assert subject[0..] == subject;
    if subject != [] {
      StarMeansSomewhere(subject[1..], pattern);
      if Somewhere(subject[1..], pattern[1..]) {
        var j :| 0 <= j <= |subject[1..]| && Glob(subject[1..][j..], pattern[1..]);
        assert subject[1..][j..] == subject[j + 1..];
      }
      if Somewhere(subject, pattern[1..]) && !Glob(subject, pattern[1..]) {
        var j :| 0 <= j <= |subject| && Glob(subject[j..], pattern[1..]);
        assert subject[1..][j - 1..] == subject[j..];
      }
    }
  }

  lemma {:induction false} SomewhereSkips(subject: string, pattern: string)
    ensures Somewhere(subject, pattern) <==> Somewhere(subject, SkipStars(pattern))
    decreases |pattern|
  {
    if pattern != [] && pattern[0] == STAR {
      SomewhereSkips(subject, pattern[1..]);
      if Somewhere(subject, pattern) {
        var j :| 0 <= j <= |subject| && Glob(subject[j..], pattern);
        StarMeansSomewhere(subject[j..], pattern);
        var i :| 0 <= i <= |subject[j..]| && Glob(subject[j..][i..], pattern[1..]);
        assert subject[j..][i..] == subject[i + j..];
      }
      if Somewhere(subject, pattern[1..]) {
        StarMeansSomewhere(subject, pattern);
        assert subject[0..] == subject;
      }
    }
  }

  /** A literal at the front is simply consumed. */
  lemma {:induction false} GlobLiteral(subject: string, literal: string, rest: string)
    requires STAR !in literal
    ensures Glob(subject, literal + rest) <==> literal <= subject && Glob(subject[|literal|..], rest)
    decreases |literal|
  {
    if literal == [] {
      assert literal + rest == rest && subject[0..] == subject;
    } else {
      assert (literal + rest)[1..] == literal[1..] + rest;
      if subject != [] && subject[0] == literal[0] {
        GlobLiteral(subject[1..], literal[1..], rest);
        assert literal <= subject <==> literal[1..] <= subject[1..];
        if literal <= subject {
          assert subject[1..][|literal| - 1..] == subject[|literal|..];
        }
      }
    }
  }

  lemma PatternParts(pattern: string)
    requires HasStar(pattern)
    ensures pattern == Literal(pattern) + ([STAR] + AfterStar(pattern))
  {
  }

  ghost predicate GlobFrom(subject: string, pattern: string, from: nat) {
    exists j :: from <= j < |subject| && Glob(subject[j..], pattern)
  }

  /** One step of the wildcard relation: the next segment comes after the end of the first. */
  lemma GlobStep(subject: string, pattern: string)
    requires HasStar(pattern)
    ensures Glob(subject, pattern) <==>
            && Literal(pattern) <= subject
            && (Next(pattern) == [] || GlobFrom(subject, Next(pattern), |Literal(pattern)|))
  {
    var l, rest := Literal(pattern), AfterStar(pattern);
    PatternParts(pattern);
    GlobLiteral(subject, l, [STAR] + rest);
    if l <= subject {
      var tail := subject[|l|..];
      StarMeansSomewhere(tail, [STAR] + rest);
      assert ([STAR] + rest)[1..] == rest;
      SomewhereSkips(tail, rest);
      SomewhereBehind(subject, Next(pattern), |l|);
    }
  }

  lemma SomewhereBehind(subject: string, pattern: string, from: nat)
    requires from <= |subject| && (pattern == [] || pattern[0] != STAR)
    ensures Somewhere(subject[from..], pattern) <==> pattern == [] || GlobFrom(subject, pattern, from)
  {
    var tail := subject[from..];
    if pattern == [] {
      assert Glob(tail[|tail|..], []);
    } else {
      forall j | 0 <= j <= |tail|
        ensures tail[j..] == subject[from + j..]
      {
      }
      if GlobFrom(subject, pattern, from) {
        var j :| from <= j < |subject| && Glob(subject[j..], pattern);
        assert Glob(tail[j - from..], pattern);
      }
    }
  }

  /** One step of the matcher: the next segment may start anywhere, also inside the first. */
  lemma MatchStep(subject: string, pattern: string)
    requires HasStar(pattern) && subject != []
    ensures Matches(subject, pattern) <==>
            && Literal(pattern) <= subject
            && (Next(pattern) == [] || MatchesFrom(subject, Next(pattern), 0))
  {
    MatchSkips(subject, AfterStar(pattern));
  }

  lemma {:induction false} MatchSkips(subject: string, pattern: string)
    requires subject != []
    ensures pattern == [] || MatchesFrom(subject, pattern, 0)
            <==> SkipStars(pattern) == [] || MatchesFrom(subject, SkipStars(pattern), 0)
    decreases |pattern|
  {
    assert subject[0..] == subject;
    if pattern != [] && pattern[0] == STAR {
      var rest := pattern[1..];
      MatchSkips(subject, rest);
      assert forall s :: Matches(s, pattern) <==> rest == [] || MatchesFrom(s, rest, 0);
      if MatchesFrom(subject, pattern, 0) && rest != [] {
        var j :| 0 <= j < |subject| && Matches(subject[j..], pattern);
        var i :| 0 <= i < |subject[j..]| && Matches(subject[j..][i..], rest);
        assert subject[j..][i..] == subject[i + j..];
      }
      if rest == [] || MatchesFrom(subject, rest, 0) {
        assert Matches(subject[0..], pattern);
      }
    }
  }

  /** On a subject that is not empty the matcher accepts everything the wildcard relation accepts. */
  lemma {:induction false} GlobImpliesMatch(subject: string, pattern: string)
    requires subject != [] && Glob(subject, pattern)
    ensures Matches(subject, pattern)
    decreases |pattern|
  {
    if HasStar(pattern) {
      GlobStep(subject, pattern);
      MatchStep(subject, pattern);
      if Next(pattern) != [] {
        var j :| |Literal(pattern)| <= j < |subject| && Glob(subject[j..], Next(pattern));
        GlobImpliesMatch(subject[j..], Next(pattern));
      }
    } else {
      GlobWithoutStar(subject, pattern);
    }
  }

  lemma GlobWithoutStar(subject: string, pattern: string)
    requires !HasStar(pattern)
    ensures Glob(subject, pattern) <==> subject == pattern
  {
  }

  /** On the empty subject the matcher knows only the empty pattern and a single star. */
  lemma EmptySubject(pattern: string)
    ensures Matches([], pattern) <==> pattern == [] || pattern == [STAR]
    ensures Glob([], pattern) <==> SkipStars(pattern) == []
  {
  }

  // ----- When the two agree

  /**
   * Text b can start inside text a, before its end. When b has to end with the
   * subject, it may not end before a does.
   */
  predicate CanStartInside(a: string, b: string, last: bool) {
    exists d :: 0 <= d < |a| && (a[d..] <= b || (!last && b <= a[d..]))
  }

  /** No segment can start inside the one before it; empty segments do not count. */
  predicate NoOverlap(pattern: string)
    decreases |pattern|
  {
    HasStar(pattern) ==>
      var rest := Next(pattern);
      rest != [] ==> !CanStartInside(Literal(pattern), Literal(rest), !HasStar(rest)) && NoOverlap(rest)
  }

  lemma {:induction false} NoOverlapSuffices(subject: string, pattern: string)
    requires NoOverlap(pattern) && subject != [] && Matches(subject, pattern)
    ensures Glob(subject, pattern)
    decreases |pattern|
  {
    if !HasStar(pattern) {
      GlobWithoutStar(subject, pattern);
    } else {
      GlobStep(subject, pattern);
      MatchStep(subject, pattern);
      var l, rest := Literal(pattern), Next(pattern);
      if rest != [] {
        var j :| 0 <= j < |subject| && Matches(subject[j..], rest);
        NoOverlapSuffices(subject[j..], rest);
        StartsInside(subject, l, Literal(rest), j, !HasStar(rest));
      }
    }
  }

  lemma StartsInside(subject: string, a: string, b: string, j: nat, last: bool)
    requires j < |subject| && a <= subject && b <= subject[j..]
    requires last ==> b == subject[j..]
    ensures j < |a| ==> CanStartInside(a, b, last)
  {
    if j < |a| {
      assert a[j..] == subject[j..][..|a| - j] && b == subject[j..][..|b|];
      assert a[j..] <= b || (!last && b <= a[j..]);
    }
  }

  /** The literal text of a pattern, all stars dropped. */
  function Condensed(pattern: string): (r: string)
    decreases |pattern|
  {
    if !HasStar(pattern) then pattern
    else if Next(pattern) == [] then Literal(pattern)
    else Literal(pattern) + Condensed(Next(pattern))
  }

  lemma {:induction false} CondensedMatches(pattern: string)
    requires Condensed(pattern) != []
    ensures Matches(Condensed(pattern), pattern)
    decreases |pattern|
  {
    var c := Condensed(pattern);
    if HasStar(pattern) {
      MatchStep(c, pattern);
      if Next(pattern) != [] {
        var j := |Literal(pattern)|;
        assert c[j..] == Condensed(Next(pattern));
        CondensedStarts(Next(pattern));
        CondensedMatches(Next(pattern));
      }
    }
  }

  lemma CondensedStarts(pattern: string)
    ensures Literal(pattern) <= Condensed(pattern)
  {
  }

  lemma {:induction false} GlobNeedsRoom(subject: string, pattern: string)
    requires Glob(subject, pattern)
    ensures |Condensed(pattern)| <= |subject|
    decreases |pattern|
  {
    if !HasStar(pattern) {
      GlobWithoutStar(subject, pattern);
    } else {
      GlobStep(subject, pattern);
      if Next(pattern) != [] {
        var j :| |Literal(pattern)| <= j < |subject| && Glob(subject[j..], Next(pattern));
        GlobNeedsRoom(subject[j..], Next(pattern));
      }
    }
  }

  /** Every pattern whose segments can overlap matches a subject too short to hold them side by side. */
  lemma {:induction false} OverlapWitness(pattern: string) returns (subject: string)
    requires !NoOverlap(pattern)
    ensures subject != [] && Matches(subject, pattern) && |subject| < |Condensed(pattern)|
    decreases |pattern|
  {
    var l, rest := Literal(pattern), Next(pattern);
    CondensedStarts(rest);
    var tail, cut;
    if CanStartInside(l, Literal(rest), !HasStar(rest)) {
      var d :| 0 <= d < |l| && (l[d..] <= Literal(rest) || (HasStar(rest) && Literal(rest) <= l[d..]));
      tail := OverlapTail(l[d..], rest);
      cut := d;
      subject := l[..d] + tail;
      assert l == l[..d] + l[d..];
    } else {
      tail := OverlapWitness(rest);
      cut := |l|;
      subject := l + tail;
    }
    assert l <= subject && subject[cut..] == tail;
    MatchStep(subject, pattern);
  }

  /** A subject for the rest of a pattern that begins with a given text, shorter than the two together. */
  lemma OverlapTail(text: string, rest: string) returns (tail: string)
    requires text != [] && rest != [] && rest[0] != STAR
    requires text <= Literal(rest) || (HasStar(rest) && Literal(rest) <= text)
    ensures text <= tail && tail != [] && Matches(tail, rest) && |tail| < |text| + |Condensed(rest)|
  {
    CondensedStarts(rest);
    var m := Literal(rest);
    if text <= m {
      tail := Condensed(rest);
      CondensedMatches(rest);
    } else {
      var after := Next(rest);
      if after == [] {
        tail := text;
      } else {
        tail := text + Condensed(after);
        CondensedStarts(after);
        CondensedMatches(after);
        assert tail[|text|..] == Condensed(after);
      }
      MatchStep(tail, rest);
    }
  }

  /**
   * The exact condition: the matcher is the ordinary wildcard matcher on every
   * subject that is not empty if and only if no segment of the pattern can
   * start inside the one before it.
   */
  lemma AgreesExactly(pattern: string)
    ensures NoOverlap(pattern) <==>
            forall subject :: subject != [] ==> (Matches(subject, pattern) <==> Glob(subject, pattern))
  {
    if NoOverlap(pattern) {
      forall subject | subject != []
        ensures Matches(subject, pattern) <==> Glob(subject, pattern)
      {
        if Matches(subject, pattern) {
          NoOverlapSuffices(subject, pattern);
        }
        if Glob(subject, pattern) {
          GlobImpliesMatch(subject, pattern);
        }
      }
    } else {
      var subject := OverlapWitness(pattern);
      if Glob(subject, pattern) {
        GlobNeedsRoom(subject, pattern);
      }
      assert !(Matches(subject, pattern) <==> Glob(subject, pattern));
    }
  }

  ghost predicate AtMostOneSegment(pattern: string) {
    forall i, j :: 0 <= i < j < |Segments(pattern)| ==> Segments(pattern)[i] == [] || Segments(pattern)[j] == []
  }

  /** Leading stars stand between empty segments. */
  lemma {:induction false} SkippedSegments(pattern: string) returns (k: nat)
    ensures k < |Segments(pattern)| && Segments(SkipStars(pattern)) == Segments(pattern)[k..]
    decreases |pattern|
  {
    k := 0;
    if pattern != [] && pattern[0] == STAR {
      k := SkippedSegments(pattern[1..]);
      assert Segments(pattern) == [[]] + Segments(pattern[1..]);
      k := k + 1;
    }
  }

  /** A pattern with at most one segment that is not empty has no overlap, so the two agree on it. */
  lemma OneSegmentAgrees(pattern: string)
    requires AtMostOneSegment(pattern)
    ensures NoOverlap(pattern)
    ensures forall subject :: subject != [] ==> (Matches(subject, pattern) <==> Glob(subject, pattern))
  {
    OneSegmentNoOverlap(pattern);
    AgreesExactly(pattern);
  }

  lemma {:induction false} OneSegmentNoOverlap(pattern: string)
    requires AtMostOneSegment(pattern)
    ensures NoOverlap(pattern)
    decreases |pattern|
  {
    if HasStar(pattern) && Next(pattern) != [] {
      var rest, segments := Next(pattern), Segments(pattern);
      var k := SkippedSegments(AfterStar(pattern));
      assert segments == [Literal(pattern)] + Segments(AfterStar(pattern));
      assert Segments(rest) == segments[k + 1..];
      assert Segments(rest)[0] == Literal(rest);
      assert segments[k + 1] == Literal(rest) != [];
      assert segments[0] == [] == Literal(pattern);
      OneSegmentNoOverlap(rest);
    }
  }

  /** With two segments around one star, subject by subject: only room for both is missing. */
  lemma TwoSegments(subject: string, a: string, b: string)
    requires STAR !in a && STAR !in b && b != []
    ensures Glob(subject, a + [STAR] + b) <==> Matches(subject, a + [STAR] + b) && |a| + |b| <= |subject|
  {
    var pattern := a + [STAR] + b;
    StarIsAt(a, b);
    NoStarIn(b);
    GlobStep(subject, pattern);
    LiteralSuffix(subject, b, |a|);
    LiteralSuffix(subject, b, 0);
    if subject == [] {
      EmptySubject(pattern);
    } else {
      MatchStep(subject, pattern);
    }
  }

  lemma LiteralSuffix(subject: string, b: string, from: nat)
    requires STAR !in b && b != []
    ensures GlobFrom(subject, b, from) <==> from + |b| <= |subject| && subject[|subject| - |b|..] == b
    ensures MatchesFrom(subject, b, from) <==> from + |b| <= |subject| && subject[|subject| - |b|..] == b
  {
    NoStarIn(b);
    forall j | 0 <= j < |subject|
      ensures Glob(subject[j..], b) <==> j == |subject| - |b| && subject[j..] == b
    {
      GlobWithoutStar(subject[j..], b);
    }
    if from + |b| <= |subject| && subject[|subject| - |b|..] == b {
      assert Glob(subject[|subject| - |b|..], b) && Matches(subject[|subject| - |b|..], b);
    }
  }

  lemma NoStarIn(text: string)
    requires STAR !in text
    ensures !HasStar(text) && SkipStars(text) == text && Literal(text) == text
  {
  }

  lemma StarIsAt(a: string, b: string)
    requires STAR !in a
    ensures var pattern := a + [STAR] + b;
            HasStar(pattern) && Literal(pattern) == a && AfterStar(pattern) == b
  {
    var pattern := a + [STAR] + b;
    assert pattern[|a|] == STAR;
    assert forall i :: 0 <= i < |a| ==> pattern[i] == a[i];
  }
}
