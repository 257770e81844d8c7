/** How a login filter is taken apart: strtok with the separator "," (section 7.24.5.8 of ISO C11). */
module LoginFilters {

  const SEPARATOR := ','

  /** Length of the run of characters at the front that are, or are not, separators. */
  function RunLength(text: string, separators: bool): (n: nat)
    ensures n <= |text|
    ensures forall i :: 0 <= i < n ==> (text[i] == SEPARATOR) == separators
    ensures n < |text| ==> (text[n] == SEPARATOR) != separators
  {
    if text == [] || (text[0] == SEPARATOR) != separators then 0 else 1 + RunLength(text[1..], separators)
  }

  /** The text without its leading separators. */
  function Trimmed(text: string): string {
    text[RunLength(text, true)..]
  }

  /** The tokens that successive calls of strtok find. */
  function Tokens(text: string): seq<string>
    decreases |text|
  {
    var rest := Trimmed(text);
    if rest == [] then [] else
      var n := RunLength(rest, false);
      [rest[..n]] + Tokens(rest[n..])
  }

  lemma TokensUnfold(text: string)
    ensures var rest := Trimmed(text);
            Tokens(text) == if rest == [] then [] else
              var n := RunLength(rest, false);
              [rest[..n]] + Tokens(rest[n..])
  {
  }

  /** A login filter has a token exactly when it has a character other than the separator. */
  lemma HasTokens(text: string)
    ensures Tokens(text) != [] <==> exists k :: 0 <= k < |text| && text[k] != SEPARATOR
  {
    TokensUnfold(text);
    var n := RunLength(text, true);
    hide Tokens, RunLength;
    if n < |text| {
      assert text[n] != SEPARATOR;
    }
  }

  /** One call: the next token, if any, and where the following call goes on. */
  method NextToken(text: string) returns (found: bool, token: string, rest: string)
    ensures found == (Tokens(text) != [])
    ensures found ==> Tokens(text) == [token] + Tokens(rest) && |rest| < |text|
  {
    hide RunLength, Tokens;
    TokensUnfold(text);
    var start := 0;
    while start < |text| && text[start] == SEPARATOR
      invariant 0 <= start <= RunLength(text, true)
    {
      start := start + 1;
    }
    rest := text[start..];
    assert rest == Trimmed(text);
    if rest == [] {
      return false, [], [];
    }
    var n := 0;
    while n < |rest| && rest[n] != SEPARATOR
      invariant 0 <= n <= RunLength(rest, false)
    {
      n := n + 1;
    }
    return true, rest[..n], rest[n..];
  }

  /** A place in the text where a maximal run without separators begins and ends. */
  predicate IsRun(text: string, i: nat, j: nat) {
    && i < j <= |text|
    && (i == 0 || text[i - 1] == SEPARATOR)
    && (j == |text| || text[j] == SEPARATOR)
    && (forall k :: i <= k < j ==> text[k] != SEPARATOR)
  }

  ghost predicate HasRun(text: string, token: string) {
    exists i: nat, j: nat :: IsRun(text, i, j) && text[i..j] == token
  }

  /** A string is a token exactly when it is a maximal non-empty run between separators. */
  lemma {:induction false} TokensAreRuns(text: string, token: string)
    ensures token in Tokens(text) <==> HasRun(text, token)
    decreases |text|
  {
    hide RunLength, HasRun;
    RunsSplit(text, token);
    var rest := Trimmed(text);
    if rest != [] {
      TokensAreRuns(rest[RunLength(rest, false)..], token);
    }
  }

  /** The runs of a text are its first one and those behind it. */
  lemma RunsSplit(text: string, token: string)
    ensures Trimmed(text) == [] ==> !HasRun(text, token)
    ensures Trimmed(text) != [] ==>
              var n := RunLength(Trimmed(text), false);
              HasRun(text, token) <==> token == Trimmed(text)[..n] || HasRun(Trimmed(text)[n..], token)
  {
    if Trimmed(text) == [] {
      NoRuns(text);
    } else {
      var skip := RunLength(text, true);
      var cut := skip + RunLength(Trimmed(text), false);
      FirstRun(text);
      hide RunLength, IsRun, Trimmed;
      assert text[skip..][cut - skip..] == text[cut..] && text[skip..][..cut - skip] == text[skip..cut];
      SplitAt(text, token, skip, cut);
    }
  }

  lemma SplitAt(text: string, token: string, skip: nat, cut: nat)
    requires skip == RunLength(text, true) && IsRun(text, skip, cut)
    ensures HasRun(text, token) <==> token == text[skip..cut] || HasRun(text[cut..], token)
  {
    hide RunLength;
    if HasRun(text, token) {
      var i: nat, j: nat :| IsRun(text, i, j) && text[i..j] == token;
      WhichRun(text, skip, cut, i, j);
    }
    if HasRun(text[cut..], token) {
      var i: nat, j: nat :| IsRun(text[cut..], i, j) && text[cut..][i..j] == token;
      LaterRun(text, skip, cut, i, j);
    }
  }

  lemma NoRuns(text: string)
    requires Trimmed(text) == []
    ensures forall i: nat, j: nat :: !IsRun(text, i, j)
  {
    hide RunLength;
    assert forall k :: 0 <= k < |text| ==> text[k] == SEPARATOR;
    forall i: nat, j: nat
      ensures !IsRun(text, i, j)
    {
      assert i < |text| ==> text[i] == SEPARATOR;
    }
  }

  lemma FirstRun(text: string)
    requires Trimmed(text) != []
    ensures var skip := RunLength(text, true);
            Trimmed(text) == text[skip..] && IsRun(text, skip, skip + RunLength(Trimmed(text), false))
  {
  }

  lemma LaterRun(text: string, skip: nat, cut: nat, i: nat, j: nat)
    requires IsRun(text, skip, cut) && IsRun(text[cut..], i, j)
    ensures IsRun(text, i + cut, j + cut) && text[cut..][i..j] == text[i + cut..j + cut]
  {
  }

  lemma WhichRun(text: string, skip: nat, cut: nat, i: nat, j: nat)
    requires skip == RunLength(text, true) && IsRun(text, skip, cut) && IsRun(text, i, j)
    ensures (i == skip && j == cut) || i >= cut
    ensures i >= cut ==> IsRun(text[cut..], i - cut, j - cut) && text[cut..][i - cut..j - cut] == text[i..j]
  {
    hide RunLength;
    assert text[i] != SEPARATOR;
    if i >= cut {
      assert forall k :: i - cut <= k < j - cut ==> text[cut..][k] == text[k + cut];
    }
  }

  /** The tokens stand at these places of the text, in the order of the text. */
  predicate TokensAt(text: string, starts: seq<nat>) {
    && |starts| == |Tokens(text)|
    && (forall p, q :: 0 <= p < q < |starts| ==> starts[p] < starts[q])
    && (forall p :: 0 <= p < |starts| ==> RunAt(text, starts[p], Tokens(text)[p]))
  }

  predicate RunAt(text: string, i: nat, token: string) {
    i + |token| <= |text| && IsRun(text, i, i + |token|) && text[i..i + |token|] == token
  }

  lemma RunsLater(text: string, skip: nat, cut: nat, i: nat, token: string)
    requires IsRun(text, skip, cut) && RunAt(text[cut..], i, token)
    ensures RunAt(text, i + cut, token)
  {
    LaterRun(text, skip, cut, i, i + |token|);
    hide IsRun;
  }

  /** The tokens come in the order of the text, each run once and none left out. */
  lemma {:induction false} TokensInOrder(text: string) returns (starts: seq<nat>)
    ensures TokensAt(text, starts) && AllRuns(text, starts)
    decreases |text|
  {
    hide RunLength, IsRun, Tokens, TokensAt, AllRuns;
    TokensUnfold(text);
    var rest := Trimmed(text);
    starts := [];
    if rest == [] {
      NoTokens(text);
    } else {
      var skip, n := RunLength(text, true), RunLength(rest, false);
      FirstRun(text);
      TrimmedStarts(text);
      assert text[skip..][n..] == text[skip + n..] && text[skip..][..n] == text[skip..skip + n];
      var later := TokensInOrder(rest[n..]);
      starts := Shifted(skip, skip + n, later);
      MoreTokens(text, skip, skip + n, later);
    }
  }

  /** Every run begins at one of these places. */
  predicate AllRuns(text: string, starts: seq<nat>) {
    forall i, j :: 0 <= i < j <= |text| && IsRun(text, i, j) ==> i in starts
  }

  function Shifted(first: nat, shift: nat, later: seq<nat>): (r: seq<nat>)
    ensures |r| == |later| + 1 && r[0] == first
    ensures forall p :: 0 <= p < |later| ==> r[p + 1] == later[p] + shift
  {
    [first] + seq(|later|, p requires 0 <= p < |later| => later[p] + shift)
  }

  lemma NoTokens(text: string)
    requires Trimmed(text) == []
    ensures TokensAt(text, []) && AllRuns(text, [])
  {
    TokensUnfold(text);
    NoRuns(text);
  }

  lemma MoreTokens(text: string, skip: nat, cut: nat, later: seq<nat>)
    requires skip == RunLength(text, true) && IsRun(text, skip, cut)
    requires TokensAt(text[cut..], later) && AllRuns(text[cut..], later)
    requires Tokens(text) == [text[skip..cut]] + Tokens(text[cut..])
    ensures TokensAt(text, Shifted(skip, cut, later)) && AllRuns(text, Shifted(skip, cut, later))
  {
    hide RunLength, IsRun, Tokens, AllRuns, RunAt, Shifted;
    var starts := Shifted(skip, cut, later);
    RunBounds(text, skip, cut);
    assert RunAt(text, skip, text[skip..cut]) by {
      FirstRunAt(text, skip, cut);
    }
    forall p | 0 < p < |starts|
      ensures RunAt(text, starts[p], Tokens(text)[p]) && starts[p] == later[p - 1] + cut
    {
      assert Shifted(skip, cut, later)[p - 1 + 1] == later[p - 1] + cut;
      RunsLater(text, skip, cut, later[p - 1], Tokens(text[cut..])[p - 1]);
    }
    MoreRuns(text, skip, cut, later);
  }

  lemma FirstRunAt(text: string, i: nat, j: nat)
    requires IsRun(text, i, j)
    ensures RunAt(text, i, text[i..j])
  {
  }

  lemma MoreRuns(text: string, skip: nat, cut: nat, later: seq<nat>)
    requires skip == RunLength(text, true) && IsRun(text, skip, cut) && AllRuns(text[cut..], later)
    ensures AllRuns(text, Shifted(skip, cut, later))
  {
    hide RunLength, IsRun, Shifted;
    var starts := Shifted(skip, cut, later);
    forall i, j | 0 <= i < j <= |text| && IsRun(text, i, j)
      ensures i in starts
    {
      WhichRun(text, skip, cut, i, j);
      if i >= cut {
        var p :| 0 <= p < |later| && later[p] == i - cut;
        assert starts[p + 1] == i;
      } else {
        assert starts[0] == i;
      }
    }
  }

  lemma RunBounds(text: string, i: nat, j: nat)
    requires IsRun(text, i, j)
    ensures i < j <= |text|
  {
  }

  lemma TrimmedStarts(text: string)
    requires Trimmed(text) != []
    ensures RunLength(Trimmed(text), false) > 0
  {
  }
}
