/**
 * String primitives the JavaScript code takes from the language: scanning a
 * run of characters of one class, String.prototype.trim, and
 * String.prototype.split('\n') with its inverse.
 */
module Text {
  import opened Wrappers
  import opened Chars

  /** Every character of `s[i..j]` satisfies `p`. */
  predicate All(s: string, i: nat, j: nat, p: char -> bool)
    requires i <= j <= |s|
  {
    forall k :: i <= k < j ==> p(s[k])
  }

  /** The end of the longest run of `p`-characters that starts at `i`: what a greedy `p*` consumes. */
  function Span(s: string, i: nat, p: char -> bool): (j: nat)
    requires i <= |s|
    ensures i <= j <= |s|
    ensures All(s, i, j, p)
    ensures j == |s| || !p(s[j])
    decreases |s| - i
  {
    if i == |s| || !p(s[i]) then i else Span(s, i + 1, p)
  }

  /** A run of `p`-characters that cannot be extended is the one Span finds. */
  lemma SpanUnique(s: string, i: nat, j: nat, p: char -> bool)
    requires i <= j <= |s| && All(s, i, j, p)
    requires j == |s| || !p(s[j])
    ensures Span(s, i, p) == j
  {
  }

  /** A range of a string satisfies `p` exactly when the corresponding slice does. */
  lemma AllSlice(s: string, i: nat, j: nat, p: char -> bool)
    requires i <= j <= |s|
    ensures All(s, i, j, p) <==> All(s[i..j], 0, j - i, p)
  {
    assert forall k :: i <= k < j ==> s[k] == s[i..j][k - i];
  }

  /** Span reaches at least as far as any run of `p`-characters from `i`. */
  lemma SpanCovers(s: string, i: nat, j: nat, p: char -> bool)
    requires i <= j <= |s| && All(s, i, j, p)
    ensures j <= Span(s, i, p)
  {
  }

  /** No line terminator: text that a regular expression `.` can run across. */
  predicate SingleLine(s: string) {
    All(s, 0, |s|, NotLineTerminator)
  }

  /** The last index in `[lo, hi)` holding `c`: the backtracking point of a greedy `.+` followed by `c`. */
  function LastIndexOf(s: string, c: char, lo: nat, hi: nat): (r: Option<nat>)
    requires lo <= hi <= |s|
    ensures r.Some? ==> lo <= r.value < hi && s[r.value] == c
    ensures r.Some? ==> forall k :: r.value < k < hi ==> s[k] != c
    ensures r.None? ==> forall k :: lo <= k < hi ==> s[k] != c
    decreases hi - lo
  {
    if lo == hi then None
    else if s[hi - 1] == c then Some(hi - 1)
    else LastIndexOf(s, c, lo, hi - 1)
  }

  /** The whitespace-free-at-the-front suffix of `s`. */
  function TrimStart(s: string): (r: string)
    ensures |r| <= |s| && r == s[|s| - |r|..]
    ensures forall k :: 0 <= k < |s| - |r| ==> IsWhitespace(s[k])
    ensures r == [] || !IsWhitespace(r[0])
  {
    if s != [] && IsWhitespace(s[0]) then TrimStart(s[1..]) else s
  }

  /** The whitespace-free-at-the-back prefix of `s`. */
  function TrimEnd(s: string): (r: string)
    ensures |r| <= |s| && r == s[..|r|]
    ensures forall k :: |r| <= k < |s| ==> IsWhitespace(s[k])
    ensures r == [] || !IsWhitespace(r[|r| - 1])
  {
    if s != [] && IsWhitespace(s[|s| - 1]) then TrimEnd(s[..|s| - 1]) else s
  }

  /** No whitespace at either end. */
  predicate Trimmed(s: string) {
    s == [] || (!IsWhitespace(s[0]) && !IsWhitespace(s[|s| - 1]))
  }

  /** String.prototype.trim. */
  function Trim(s: string): (r: string)
    ensures Trimmed(r)
  {
    TrimEnd(TrimStart(s))
  }

  /** Trim only removes characters, and only whitespace: what holds of every character still holds. */
  lemma TrimKeeps(s: string, p: char -> bool)
    ensures All(s, 0, |s|, p) ==> All(Trim(s), 0, |Trim(s)|, p)
    ensures forall k :: 0 <= k < |s| && !IsWhitespace(s[k]) ==> s[k] in Trim(s)
  {
    var t := TrimStart(s);
    var r := TrimEnd(t);
    assert forall k :: 0 <= k < |r| ==> r[k] == s[|s| - |t| + k];
    assert forall k :: 0 <= k < |s| && !IsWhitespace(s[k]) ==> s[k] == r[k - (|s| - |t|)];
  }

  /** Trimming a string that is its trimmed core between two blank margins gives back the core. */
  lemma {:induction false} TrimWrapped(lead: string, core: string, trail: string)
    requires forall k :: 0 <= k < |lead| ==> IsWhitespace(lead[k])
    requires forall k :: 0 <= k < |trail| ==> IsWhitespace(trail[k])
    requires core != [] && Trimmed(core)
    ensures Trim(lead + core + trail) == core
  {
    var s := lead + core + trail;
    assert forall k :: 0 <= k < |lead| ==> s[k] == lead[k];
    assert forall k :: 0 <= k < |core| ==> s[|lead| + k] == core[k];
    assert forall k :: 0 <= k < |trail| ==> s[|lead| + |core| + k] == trail[k];
    var t := TrimStart(s);
    var n := |s| - |t|;
    assert !IsWhitespace(s[|lead|]);
    assert n <= |lead|;
    assert t[0] == s[n];
    assert n == |lead|;
    assert t == core + trail;
    var r := TrimEnd(t);
    assert !IsWhitespace(t[|core| - 1]);
    assert |r| >= |core|;
    assert r[|r| - 1] == t[|r| - 1];
    assert |r| == |core|;
  }

  /** String.prototype.split('\n'): the pieces between newline characters, never none. */
  function SplitLines(s: string): (r: seq<string>)
    ensures |r| >= 1
    ensures forall k :: 0 <= k < |r| ==> '\n' !in r[k]
    decreases |s|
  {
    var i := Span(s, 0, NotNewline);
    assert '\n' !in s[..i] by {
      assert forall k :: 0 <= k < i ==> s[..i][k] == s[k];
    }
    if i == |s| then [s] else [s[..i]] + SplitLines(s[i + 1..])
  }

  /** Array.prototype.join('\n'): the inverse of SplitLines. */
  function JoinLines(lines: seq<string>): string
    requires |lines| >= 1
    decreases |lines|
  {
    if |lines| == 1 then lines[0] else lines[0] + "\n" + JoinLines(lines[1..])
  }

  /** Splitting loses nothing: joining the pieces with newlines gives back the text. */
  lemma {:induction false} JoinSplit(s: string)
    ensures JoinLines(SplitLines(s)) == s
    decreases |s|
  {
    var i := Span(s, 0, NotNewline);
    if i < |s| {
      JoinSplit(s[i + 1..]);
      assert s == s[..i] + "\n" + s[i + 1..];
    }
  }

  /** Splitting the join of newline-free lines gives back exactly those lines. */
  lemma {:induction false} SplitJoin(lines: seq<string>)
    requires |lines| >= 1
    requires forall k :: 0 <= k < |lines| ==> '\n' !in lines[k]
    ensures SplitLines(JoinLines(lines)) == lines
    decreases |lines|
  {
    var s := JoinLines(lines);
    var first := lines[0];
    if |lines| == 1 {
      SpanUnique(s, 0, |s|, NotNewline);
    } else {
      var rest := JoinLines(lines[1..]);
      assert s == first + "\n" + rest;
      assert s[|first|] == '\n';
      SpanUnique(s, 0, |first|, NotNewline);
      assert s[..|first|] == first;
      assert s[|first| + 1..] == rest;
      SplitJoin(lines[1..]);
      assert lines == [first] + lines[1..];
    }
  }
}
