/**
 * Reading `yamlenv_config_<name>=<value>` overrides out of a list of
 * command-line arguments (lib/cli-options.js).
 *
 * The pattern `^yamlenv_config_(.+)=(.+)` has no end anchor and no flags:
 * after the prefix, `.` runs up to the first line terminator, the greedy
 * name group backtracks to the last `=` that still leaves one character for
 * the value, and the value is everything from there up to that line
 * terminator.
 */
module CliOptions {
  import opened Wrappers
  import opened Chars
  import opened Text
  import opened Entries

  /** The text every override argument starts with. */
  const Prefix: string := "yamlenv_config_"

  /** No `=` before the last character: the value group cannot give up a character to the name group. */
  predicate NoEqualsBeforeLast(value: string) {
    forall k :: 0 <= k < |value| - 1 ==> value[k] != '='
  }

  /** The name and value one argument overrides, or nothing; a name and a value are never empty. */
  function MatchArg(arg: string): (r: Option<Entry>)
    ensures r.Some? ==> r.value.key != [] && r.value.value != []
  {
    if |arg| < |Prefix| || arg[..|Prefix|] != Prefix then None
    else
      var s := arg[|Prefix|..];
      Split(s, Span(s, 0, NotLineTerminator))
  }

  /**
   * The two groups within the first `n` characters after the prefix: the name
   * runs up to the last `=` that leaves at least one character for the value.
   */
  function Split(s: string, n: nat): (r: Option<Entry>)
    requires n <= |s|
    ensures r.Some? ==> r.value.key != [] && r.value.value != []
  {
    if n < 2 then None
    else match LastIndexOf(s, '=', 1, n - 1)
      case None => None
      case Some(j) => Some(Entry(s[..j], s[j + 1..n]))
  }

  /**
   * A match is the prefix, a single-line name, `=` and a single-line value
   * that has no `=` before its last character, followed by the end of the
   * argument or a line terminator.
   */
  lemma MatchArgSound(arg: string)
    requires MatchArg(arg).Some?
    ensures SingleLine(MatchArg(arg).value.key) && SingleLine(MatchArg(arg).value.value)
    ensures Prefix + MatchArg(arg).value.key + "=" + MatchArg(arg).value.value <= arg
    ensures var n := |Prefix| + |MatchArg(arg).value.key| + 1 + |MatchArg(arg).value.value|;
      n == |arg| || IsLineTerminator(arg[n])
    ensures NoEqualsBeforeLast(MatchArg(arg).value.value)
  {
    var s := arg[|Prefix|..];
    var n := Span(s, 0, NotLineTerminator);
    var j := LastIndexOf(s, '=', 1, n - 1).value;
    assert MatchArg(arg) == Some(Entry(s[..j], s[j + 1..n]));
    SplitSound(s, n, j);
    assert n == |s| || IsLineTerminator(s[n]);
    assert arg == Prefix + s;
    assert Prefix + s[..n] == arg[..|Prefix| + n];
  }

  /** The split MatchArg makes after the prefix: name, `=`, value, then the end or a line terminator. */
  lemma SplitSound(s: string, n: nat, j: nat)
    requires n <= |s| && All(s, 0, n, NotLineTerminator)
    requires 1 <= j < n - 1 && s[j] == '='
    requires forall k :: j < k < n - 1 ==> s[k] != '='
    ensures SingleLine(s[..j]) && SingleLine(s[j + 1..n])
    ensures s[..n] == s[..j] + "=" + s[j + 1..n]
    ensures NoEqualsBeforeLast(s[j + 1..n])
  {
    assert s[..j] == s[0..j];
    AllSlice(s, 0, j, NotLineTerminator);
    AllSlice(s, j + 1, n, NotLineTerminator);
    ValueNoEquals(s, j, n);
  }

  /** The text after the last `=` before position n - 1 has no `=` before its last character. */
  lemma ValueNoEquals(s: string, j: nat, n: nat)
    requires j < n <= |s|
    requires forall k :: j < k < n - 1 ==> s[k] != '='
    ensures NoEqualsBeforeLast(s[j + 1..n])
  {
    var value := s[j + 1..n];
    forall k | 0 <= k < |value| - 1
      ensures value[k] != '='
    {
      assert value[k] == s[j + 1 + k];
    }
  }

  /**
   * Every argument of the documented form is matched, and its name and value
   * come back: with MatchArg's own guarantees this pins the match down.
   */
  lemma MatchArgComplete(key: string, value: string, rest: string)
    requires key != [] && value != [] && SingleLine(key) && SingleLine(value)
    requires NoEqualsBeforeLast(value)
    requires rest == [] || IsLineTerminator(rest[0])
    ensures MatchArg(Prefix + key + "=" + value + rest) == Some(Entry(key, value))
  {
    var s := key + "=" + value + rest;
    var arg := Prefix + key + "=" + value + rest;
    assert arg == Prefix + s;
    assert arg[..|Prefix|] == Prefix && arg[|Prefix|..] == s;
    SplitComplete(key, value, rest);
  }

  /** The scan after the prefix finds exactly the name and value of a well-formed override. */
  lemma SplitComplete(key: string, value: string, rest: string)
    requires key != [] && value != [] && SingleLine(key) && SingleLine(value)
    requires NoEqualsBeforeLast(value)
    requires rest == [] || IsLineTerminator(rest[0])
    ensures var s := key + "=" + value + rest;
      var n := |key| + 1 + |value|;
      && Span(s, 0, NotLineTerminator) == n
      && LastIndexOf(s, '=', 1, n - 1) == Some(|key|)
      && s[..|key|] == key && s[|key| + 1..n] == value
  {
    var s := key + "=" + value + rest;
    var n := |key| + 1 + |value|;
    assert s[..|key|] == key && s[|key|] == '=' && s[|key| + 1..n] == value;
    assert All(s, 0, n, NotLineTerminator) by {
      AllSlice(s, 0, |key|, NotLineTerminator);
      AllSlice(s, |key| + 1, n, NotLineTerminator);
    }
    assert n == |s| || IsLineTerminator(s[n]) by {
      if n < |s| {
        assert s[n] == rest[0];
      }
    }
    SpanUnique(s, 0, n, NotLineTerminator);
    assert forall k :: |key| < k < n - 1 ==> s[k] == value[k - |key| - 1];
    var found := LastIndexOf(s, '=', 1, n - 1);
    assert found.Some? && found.value >= |key|;
  }

  /** A text with no line terminator keeps its match whatever follows a line terminator after it. */
  lemma MatchArgStopsAtLineBreak(line: string, rest: string)
    requires SingleLine(line)
    requires rest == [] || IsLineTerminator(rest[0])
    ensures MatchArg(line + rest) == MatchArg(line)
  {
    var arg := line + rest;
    if rest == [] {
      assert arg == line;
    } else if |line| < |Prefix| {
      assert arg[|line|] == rest[0];
      LineBreakInPrefix(arg, |line|);
    } else {
      StopsAtLineBreakAfterPrefix(line, rest);
    }
  }

  /** MatchArgStopsAtLineBreak when the text is at least as long as the prefix. */
  lemma StopsAtLineBreakAfterPrefix(line: string, rest: string)
    requires SingleLine(line) && |line| >= |Prefix|
    requires rest != [] && IsLineTerminator(rest[0])
    ensures MatchArg(line + rest) == MatchArg(line)
  {
    var arg := line + rest;
    assert arg[..|Prefix|] == line[..|Prefix|];
    var s := arg[|Prefix|..];
    var t := line[|Prefix|..];
    assert s == t + rest;
    var m := |t|;
    AllSlice(line, |Prefix|, |line|, NotLineTerminator);
    assert All(s, 0, m, NotLineTerminator) by {
      assert forall k :: 0 <= k < m ==> s[k] == t[k];
    }
    assert s[m] == rest[0];
    SpanUnique(s, 0, m, NotLineTerminator);
    SpanUnique(t, 0, m, NotLineTerminator);
    SplitSame(s, t, m);
  }

  /** Two strings that agree on their first `n` characters split them the same way. */
  lemma SplitSame(s: string, t: string, n: nat)
    requires n <= |s| && n <= |t|
    requires forall k :: 0 <= k < n ==> s[k] == t[k]
    ensures Split(s, n) == Split(t, n)
  {
    if n >= 2 {
      LastIndexOfSame(s, t, 1, n - 1);
      var found := LastIndexOf(s, '=', 1, n - 1);
      if found.Some? {
        var j := found.value;
        assert s[..j] == t[..j];
        assert s[j + 1..n] == t[j + 1..n];
      }
    }
  }

  /** An argument with a line terminator where the prefix should be is not matched. */
  lemma LineBreakInPrefix(arg: string, i: nat)
    requires i < |Prefix| && i < |arg| && IsLineTerminator(arg[i])
    ensures MatchArg(arg) == None
  {
    assert forall k :: 0 <= k < |Prefix| ==> NotLineTerminator(Prefix[k]);
    if |arg| >= |Prefix| {
      assert arg[..|Prefix|][i] == arg[i];
    }
  }

  /** Two strings that agree below `hi` have the same last `=` below `hi`. */
  lemma {:induction false} LastIndexOfSame(s: string, t: string, lo: nat, hi: nat)
    requires lo <= hi <= |s| && hi <= |t|
    requires forall k :: lo <= k < hi ==> s[k] == t[k]
    ensures LastIndexOf(s, '=', lo, hi) == LastIndexOf(t, '=', lo, hi)
    decreases hi - lo
  {
    if lo < hi && s[hi - 1] != '=' {
      LastIndexOfSame(s, t, lo, hi - 1);
    }
  }

  /** Every entry has a non-empty, single-line name and value. */
  predicate WellFormed(es: seq<Option<Entry>>) {
    forall i :: 0 <= i < |es| && es[i].Some? ==>
      && es[i].value.key != [] && es[i].value.value != []
      && SingleLine(es[i].value.key) && SingleLine(es[i].value.value)
  }

  /** What each argument overrides, in order; every name and value is non-empty and single-line. */
  function ArgEntries(args: seq<string>): (es: seq<Option<Entry>>)
    ensures |es| == |args|
    ensures forall i :: 0 <= i < |args| ==> es[i] == MatchArg(args[i])
    ensures WellFormed(es)
  {
    var es := seq(|args|, i requires 0 <= i < |args| => MatchArg(args[i]));
    assert WellFormed(es) by {
      forall i | 0 <= i < |es| && es[i].Some?
        ensures SingleLine(es[i].value.key) && SingleLine(es[i].value.value)
      {
        MatchArgSound(args[i]);
      }
    }
    es
  }

  /** The overrides a list of arguments sets, later arguments overwriting earlier ones. Names and values are never empty and hold no line break. */
  function Overrides(args: seq<string>): (acc: map<string, string>)
    ensures forall k :: k in acc ==> k != [] && acc[k] != [] && SingleLine(k) && SingleLine(acc[k])
  {
    var es := ArgEntries(args);
    var acc := Collect(es);
    assert forall k :: k in acc ==> k != [] && acc[k] != [] && SingleLine(k) && SingleLine(acc[k]) by {
      forall k | k in acc
        ensures k != [] && acc[k] != [] && SingleLine(k) && SingleLine(acc[k])
      {
        var i :| 0 <= i < |es| && es[i] == Some(Entry(k, acc[k]));
        assert WellFormed(es);
      }
    }
    acc
  }

  /** `args.reduce(...)` starting from `{}`: each matching argument assigns its name. */
  method OptionMatcher(args: seq<string>) returns (acc: map<string, string>)
    ensures acc == Overrides(args)
  {
    acc := map[];
    for i := 0 to |args|
      invariant acc == Overrides(args[..i])
    {
      var matches := MatchArg(args[i]);
      assert ArgEntries(args[..i + 1]) == ArgEntries(args[..i]) + [matches];
      CollectAppend(ArgEntries(args[..i]), matches);
      if matches.Some? {
        acc := acc[matches.value.key := matches.value.value];
      }
    }
    assert args[..|args|] == args;
  }

  /** No arguments, no overrides. */
  lemma OverridesEmpty()
    ensures Overrides([]) == map[]
  {
    var none: seq<Option<Entry>> := [];
    assert ArgEntries([]) == none;
  }

  /** A name is overridden exactly when some argument matches with that name. */
  lemma OverridesHasKey(args: seq<string>, key: string)
    ensures key in Overrides(args) <==>
      exists i :: 0 <= i < |args| && MatchArg(args[i]).Some? && MatchArg(args[i]).value.key == key
  {
    var es := ArgEntries(args);
    CollectHasKey(es, key);
    if key in Overrides(args) {
      var i :| 0 <= i < |es| && es[i].Some? && es[i].value.key == key;
      assert MatchArg(args[i]) == es[i];
    }
    if exists i :: 0 <= i < |args| && MatchArg(args[i]).Some? && MatchArg(args[i]).value.key == key {
      var i :| 0 <= i < |args| && MatchArg(args[i]).Some? && MatchArg(args[i]).value.key == key;
      assert es[i] == MatchArg(args[i]);
    }
  }

  /** The last matching argument for a name decides its value. */
  lemma OverridesLastWins(args: seq<string>, i: nat)
    requires i < |args| && MatchArg(args[i]).Some?
    requires forall j :: i < j < |args| ==>
      MatchArg(args[j]).None? || MatchArg(args[j]).value.key != MatchArg(args[i]).value.key
    ensures MatchArg(args[i]).value.key in Overrides(args)
    ensures Overrides(args)[MatchArg(args[i]).value.key] == MatchArg(args[i]).value.value
  {
    CollectLastWins(ArgEntries(args), i);
  }

  /** An argument that does not match is skipped. */
  lemma OverridesSkipsUnmatched(before: seq<string>, arg: string, after: seq<string>)
    requires MatchArg(arg) == None
    ensures Overrides(before + [arg] + after) == Overrides(before + after)
  {
    var es := ArgEntries(before + [arg] + after);
    assert es == ArgEntries(before) + [None] + ArgEntries(after);
    assert ArgEntries(before + after) == ArgEntries(before) + ArgEntries(after);
    CollectSkipsNone(ArgEntries(before), ArgEntries(after));
  }

  /** An argument without the prefix is never matched. */
  lemma UnprefixedUnmatched(arg: string)
    requires !(Prefix <= arg)
    ensures MatchArg(arg) == None
  {
  }

  /** The name runs to the last `=`: `yamlenv_config_A=B=C` sets `A=B` to `C`. */
  lemma ExampleSplitAtLastEquals()
    ensures MatchArg("yamlenv_config_A=B=C") == Some(Entry("A=B", "C"))
  {
    var key, value, none := "A=B", "C", "";
    assert "yamlenv_config_A=B=C" == Prefix + key + "=" + value + none;
    assert SingleLine(key) && SingleLine(value);
    MatchArgComplete(key, value, none);
  }
}
