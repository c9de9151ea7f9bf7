/**
 * `parse` of lib/main.js: turn text into an object, one `key: value` entry
 * per line. A line is accepted when it matches the pattern
 * `^\s*([\w.-]+)\s*:\s*(.*)?\s*$`; other lines are skipped. The captured
 * value is normalised (escaped newlines expanded inside double quotes, one
 * quote stripped from each end, whitespace trimmed) and later keys overwrite
 * earlier ones.
 */
module LineParser {
  import opened Wrappers
  import opened Chars
  import opened Text
  import opened Entries

  /** A key as the pattern's first group captures it: one or more of `[\w.-]`. */
  predicate IsKey(k: string) {
    |k| > 0 && All(k, 0, |k|, IsKeyChar)
  }

  predicate AllWhitespace(s: string) {
    All(s, 0, |s|, IsWhitespace)
  }

  // ---------------------------------------------------------------------------
  // Matching one line against the pattern

  /**
   * Positions in a line: `line[..keyStart]` leading blanks, `line[keyStart..keyEnd]`
   * the key, `line[keyEnd..colon]` blanks, `line[colon] == ':'`,
   * `line[colon + 1..valueStart]` blanks, `line[valueStart..valueEnd]` the captured
   * value, `line[valueEnd..]` trailing blanks.
   */
  datatype Bounds = Bounds(keyStart: nat, keyEnd: nat, colon: nat, valueStart: nat, valueEnd: nat)

  /** The pattern matches `line` with these positions (one of possibly many ways). */
  predicate Shape(line: string, b: Bounds) {
    && b.keyStart < b.keyEnd <= b.colon < b.valueStart <= b.valueEnd <= |line|
    && line[b.colon] == ':'
    && All(line, 0, b.keyStart, IsWhitespace)
    && All(line, b.keyStart, b.keyEnd, IsKeyChar)
    && All(line, b.keyEnd, b.colon, IsWhitespace)
    && All(line, b.colon + 1, b.valueStart, IsWhitespace)
    && All(line, b.valueStart, b.valueEnd, NotLineTerminator)
    && All(line, b.valueEnd, |line|, IsWhitespace)
  }

  /**
   * The way a backtracking matcher reports first: the `\s*` after the colon
   * and the `(.*)` group both take as much as they can.
   */
  predicate Greedy(line: string, b: Bounds)
    requires b.valueStart <= b.valueEnd <= |line|
  {
    && (b.valueStart == |line| || !IsWhitespace(line[b.valueStart]))
    && (b.valueEnd == |line| || IsLineTerminator(line[b.valueEnd]))
  }

  /** The match of the line pattern, scanning left to right. */
  function MatchLine(line: string): (r: Option<Bounds>)
    ensures r.Some? ==> Shape(line, r.value) && Greedy(line, r.value)
  {
    var keyStart := Span(line, 0, IsWhitespace);
    var keyEnd := Span(line, keyStart, IsKeyChar);
    var colon := Span(line, keyEnd, IsWhitespace);
    if keyStart == keyEnd || colon == |line| || line[colon] != ':' then None
    else
      var valueStart := Span(line, colon + 1, IsWhitespace);
      var valueEnd := Span(line, valueStart, NotLineTerminator);
      if Span(line, valueEnd, IsWhitespace) == |line| then
        Some(Bounds(keyStart, keyEnd, colon, valueStart, valueEnd))
      else
        None
  }

  /**
   * Whenever the pattern can match the line at all, MatchLine finds a match,
   * with the same key; and the greedy way of matching is the one it reports.
   */
  lemma MatchLineComplete(line: string, b: Bounds)
    requires Shape(line, b)
    ensures MatchLine(line).Some?
    ensures MatchLine(line).value.keyStart == b.keyStart && MatchLine(line).value.keyEnd == b.keyEnd
    ensures Greedy(line, b) ==> MatchLine(line) == Some(b)
  {
    MatchLineKey(line, b);
    MatchLineValue(line, b);
    var valueStart := Span(line, b.colon + 1, IsWhitespace);
    var valueEnd := Span(line, valueStart, NotLineTerminator);
    assert MatchLine(line) == Some(Bounds(b.keyStart, b.keyEnd, b.colon, valueStart, valueEnd));
  }

  /** The scans up to the colon stop exactly where the pattern's first groups end. */
  lemma MatchLineKey(line: string, b: Bounds)
    requires Shape(line, b)
    ensures Span(line, 0, IsWhitespace) == b.keyStart
    ensures Span(line, b.keyStart, IsKeyChar) == b.keyEnd
    ensures Span(line, b.keyEnd, IsWhitespace) == b.colon
  {
    ClassesDisjoint(line[b.keyStart]);
    SpanUnique(line, 0, b.keyStart, IsWhitespace);
    ClassesDisjoint(line[b.keyEnd]);
    SpanUnique(line, b.keyStart, b.keyEnd, IsKeyChar);
    ClassesDisjoint(line[b.colon]);
    SpanUnique(line, b.keyEnd, b.colon, IsWhitespace);
  }

  /** The scans after the colon reach the end of the line, and stop where a greedy match does. */
  lemma MatchLineValue(line: string, b: Bounds)
    requires Shape(line, b)
    ensures var valueStart := Span(line, b.colon + 1, IsWhitespace);
      Span(line, Span(line, valueStart, NotLineTerminator), IsWhitespace) == |line|
    ensures Greedy(line, b) ==> Span(line, b.colon + 1, IsWhitespace) == b.valueStart
    ensures Greedy(line, b) ==> Span(line, b.valueStart, NotLineTerminator) == b.valueEnd
  {
    var valueStart := Span(line, b.colon + 1, IsWhitespace);
    SpanCovers(line, b.colon + 1, b.valueStart, IsWhitespace);
    var valueEnd := Span(line, valueStart, NotLineTerminator);
    assert b.valueEnd <= valueEnd by {
      if valueStart <= b.valueEnd {
        SpanCovers(line, valueStart, b.valueEnd, NotLineTerminator);
      }
    }
    assert All(line, valueEnd, |line|, IsWhitespace);
    SpanUnique(line, valueEnd, |line|, IsWhitespace);
    if Greedy(line, b) {
      SpanUnique(line, b.colon + 1, b.valueStart, IsWhitespace);
      SpanUnique(line, b.valueStart, b.valueEnd, NotLineTerminator);
    }
  }

  /** The two groups the pattern captures; a value group that took part in no match reads as ''. */
  function Captures(line: string): (r: Option<Entry>)
    ensures r.Some? ==> IsKey(r.value.key)
  {
    match MatchLine(line)
    case None => None
    case Some(b) => Some(Entry(line[b.keyStart..b.keyEnd], line[b.valueStart..b.valueEnd]))
  }

  /** The captured value never holds a line terminator. */
  lemma CapturesSingleLine(line: string)
    requires Captures(line).Some?
    ensures SingleLine(Captures(line).value.value)
  {
    var b := MatchLine(line).value;
    AllSlice(line, b.valueStart, b.valueEnd, NotLineTerminator);
  }

  // ---------------------------------------------------------------------------
  // Normalising a captured value

  /** The value begins and ends with a double quote (a lone `"` counts). */
  predicate DoubleQuoted(v: string) {
    |v| > 0 && v[0] == '"' && v[|v| - 1] == '"'
  }

  /** No backslash is directly followed by the letter n. */
  predicate NoEscapedNewline(s: string) {
    forall i :: 0 <= i < |s| - 1 ==> !(s[i] == '\\' && s[i + 1] == 'n')
  }

  /** `s.replace(/\\n/gm, '\n')`: each backslash-n, left to right and without overlap, becomes a newline. */
  function Unescape(s: string): (r: string)
    ensures |r| <= |s|
    ensures |r| == |s| ==> r == s
    decreases |s|
  {
    if |s| >= 2 && s[0] == '\\' && s[1] == 'n' then "\n" + Unescape(s[2..])
    else if s == [] then []
    else [s[0]] + Unescape(s[1..])
  }

  /** Every backslash-n is replaced: none is left in the result, and the first letter n is kept where it was. */
  lemma {:induction false} UnescapeComplete(s: string)
    ensures NoEscapedNewline(Unescape(s))
    ensures s != [] ==> Unescape(s) != [] && (Unescape(s)[0] == 'n' <==> s[0] == 'n')
    decreases |s|
  {
    if |s| >= 2 && s[0] == '\\' && s[1] == 'n' {
      UnescapeComplete(s[2..]);
      var rest := Unescape(s[2..]);
      assert forall i :: 1 <= i < |rest| + 1 ==> ("\n" + rest)[i] == rest[i - 1];
    } else if s != [] {
      UnescapeComplete(s[1..]);
      var rest := Unescape(s[1..]);
      assert forall i :: 1 <= i < |rest| + 1 ==> ([s[0]] + rest)[i] == rest[i - 1];
    }
  }

  /** The inverse of Unescape on text without backslashes: each newline written as backslash-n. */
  function Escape(s: string): string
    decreases |s|
  {
    if s == [] then []
    else (if s[0] == '\n' then "\\n" else [s[0]]) + Escape(s[1..])
  }

  /** Unescape undoes Escape for text that holds no backslash of its own. */
  lemma {:induction false} UnescapeEscape(s: string)
    requires '\\' !in s
    ensures Unescape(Escape(s)) == s
    decreases |s|
  {
    if s != [] {
      assert '\\' !in s[1..];
      UnescapeEscape(s[1..]);
      var e := Escape(s[1..]);
      if s[0] == '\n' {
        assert ("\\n" + e)[2..] == e;
      } else {
        assert ([s[0]] + e)[1..] == e;
      }
      assert s == [s[0]] + s[1..];
    }
  }

  /** Text without backslash-n is left alone by Unescape; so Unescape is idempotent. */
  lemma {:induction false} UnescapeIdentity(s: string)
    requires NoEscapedNewline(s)
    ensures Unescape(s) == s
    decreases |s|
  {
    if s != [] {
      UnescapeIdentity(s[1..]);
      assert s == [s[0]] + s[1..];
    }
  }

  /** Text without backslashes passes through Unescape unchanged, whatever follows it. */
  lemma {:induction false} UnescapePlain(x: string, rest: string)
    requires '\\' !in x
    ensures Unescape(x + rest) == x + Unescape(rest)
    decreases |x|
  {
    if x != [] {
      assert x[0] in x;
      assert (x + rest)[0] == x[0] != '\\';
      assert forall c :: c in x[1..] ==> c in x;
      UnescapePlain(x[1..], rest);
      assert (x + rest)[1..] == x[1..] + rest;
      calc {
        Unescape(x + rest);
        [x[0]] + Unescape(x[1..] + rest);
        [x[0]] + (x[1..] + Unescape(rest));
        { assert x == [x[0]] + x[1..]; }
        x + Unescape(rest);
      }
    } else {
      assert x + rest == rest;
    }
  }

  /** `s.replace(/(^['"]|['"]$)/g, '')`: one quote of either kind off the front, then one off the back. */
  function StripQuotes(s: string): (r: string)
    ensures |s| - 2 <= |r| <= |s|
  {
    var t := if s != [] && IsQuote(s[0]) then s[1..] else s;
    if t != [] && IsQuote(t[|t| - 1]) then t[..|t| - 1] else t
  }

  /** Zero or one quote character. */
  predicate QuoteOrNothing(q: string) {
    q == [] || (|q| == 1 && IsQuote(q[0]))
  }

  /**
   * StripQuotes removes exactly the quotes put around a value, one at each end
   * at most, whatever the value holds (quotes of its own included) when both
   * are present; an end without a wrapping quote is kept when it is no quote.
   */
  lemma StripQuotesInverse(open: string, m: string, close: string)
    requires QuoteOrNothing(open) && QuoteOrNothing(close)
    requires open == [] && m != [] ==> !IsQuote(m[0])
    requires close == [] && m != [] ==> !IsQuote(m[|m| - 1])
    ensures StripQuotes(open + m + close) == m
  {
    var s := open + m + close;
    if open != [] {
      assert s[1..] == m + close;
    } else {
      assert s == m + close;
    }
  }

  /** Dropping characters from the ends keeps text free of backslash-n. */
  lemma NoEscapedNewlineSlice(s: string, i: nat, j: nat)
    requires i <= j <= |s| && NoEscapedNewline(s)
    ensures NoEscapedNewline(s[i..j])
  {
    assert forall k :: 0 <= k < j - i ==> s[i..j][k] == s[i + k];
  }

  /** StripQuotes only cuts the ends: it adds no line break and no backslash-n. */
  lemma StripQuotesKeeps(s: string)
    ensures SingleLine(s) ==> SingleLine(StripQuotes(s))
    ensures NoEscapedNewline(s) ==> NoEscapedNewline(StripQuotes(s))
  {
    var t := if s != [] && IsQuote(s[0]) then s[1..] else s;
    var r := StripQuotes(s);
    assert t == s[|s| - |t|..|s|];
    assert r == t[0..|r|];
    AllSlice(s, |s| - |t|, |s|, NotLineTerminator);
    AllSlice(t, 0, |r|, NotLineTerminator);
    if NoEscapedNewline(s) {
      NoEscapedNewlineSlice(s, |s| - |t|, |s|);
      NoEscapedNewlineSlice(t, 0, |r|);
    }
  }

  /** Trim only cuts the ends: it adds no line break and no backslash-n. */
  lemma TrimKeepsNoEscapedNewline(s: string)
    ensures SingleLine(s) ==> SingleLine(Trim(s))
    ensures NoEscapedNewline(s) ==> NoEscapedNewline(Trim(s))
  {
    TrimKeeps(s, NotLineTerminator);
    if NoEscapedNewline(s) {
      var u := TrimStart(s);
      var r := Trim(s);
      NoEscapedNewlineSlice(s, |s| - |u|, |s|);
      assert u == s[|s| - |u|..|s|];
      NoEscapedNewlineSlice(u, 0, |r|);
      assert r == u[0..|r|];
    }
  }

  /** The value stored for a line whose value group captured `raw` (lib/main.js lines 17-24). */
  function NormalizeValue(raw: string): (v: string)
    ensures Trimmed(v)
  {
    Trim(StripQuotes(if DoubleQuoted(raw) then Unescape(raw) else raw))
  }

  /**
   * Backslash-n turns into a newline only inside a double-quoted value: an
   * unquoted single-line value gives a value without line breaks, and a
   * double-quoted one gives a value with no backslash-n left.
   */
  lemma NormalizeValueLineBreaks(raw: string)
    ensures !DoubleQuoted(raw) && SingleLine(raw) ==> SingleLine(NormalizeValue(raw))
    ensures DoubleQuoted(raw) ==> NoEscapedNewline(NormalizeValue(raw))
  {
    var unescaped := if DoubleQuoted(raw) then Unescape(raw) else raw;
    UnescapeComplete(raw);
    StripQuotesKeeps(unescaped);
    TrimKeepsNoEscapedNewline(StripQuotes(unescaped));
  }

  /** A value with nothing to strip around it, wrapped in quotes and blanks, comes back as it was. */
  lemma NormalizeWrapped(open: string, m: string, close: string, trail: string)
    requires QuoteOrNothing(open) && QuoteOrNothing(close) && AllWhitespace(trail)
    requires trail == [] || close == []
    requires m != [] && Trimmed(m) && !IsQuote(m[0]) && !IsQuote(m[|m| - 1])
    requires '\\' !in m
    ensures NormalizeValue(open + m + close + trail) == m
  {
    var raw := open + m + close + trail;
    if trail != [] {
      ClassesDisjoint(trail[|trail| - 1]);
      assert raw[|raw| - 1] == trail[|trail| - 1];
      assert !DoubleQuoted(raw);
    }
    if DoubleQuoted(raw) {
      assert NoEscapedNewline(raw) by {
        forall i | 0 <= i < |raw| - 1
          ensures !(raw[i] == '\\' && raw[i + 1] == 'n')
        {
          if i >= |open| && i < |open| + |m| {
            assert raw[i] == m[i - |open|];
          }
        }
      }
      UnescapeIdentity(raw);
    }
    assert StripQuotes(raw) == m + trail by {
      if trail == [] {
        assert raw == open + m + close;
        StripQuotesInverse(open, m, close);
      } else {
        assert raw[|raw| - 1] == trail[|trail| - 1];
        ClassesDisjoint(trail[|trail| - 1]);
        if open != [] {
          assert raw[1..] == m + trail;
        } else {
          assert raw == m + trail;
        }
      }
    }
    assert AllWhitespace(trail) ==> forall k :: 0 <= k < |trail| ==> IsWhitespace(trail[k]);
    TrimWrapped([], m, trail);
    assert [] + m + trail == m + trail;
  }

  // ---------------------------------------------------------------------------
  // One line

  /** What one line contributes to the object: its key and normalised value, or nothing. */
  function ParseLine(line: string): (r: Option<Entry>)
    ensures r.Some? <==> Captures(line).Some?
    ensures r.Some? ==> r.value.key == Captures(line).value.key
    ensures r.Some? ==> IsKey(r.value.key) && Trimmed(r.value.value)
  {
    match Captures(line)
    case None => None
    case Some(Entry(key, raw)) => Some(Entry(key, NormalizeValue(raw)))
  }

  /** A stored value holds a line break only when the captured value was double-quoted, and then no backslash-n. */
  lemma ParseLineLineBreaks(line: string)
    requires ParseLine(line).Some?
    ensures !DoubleQuoted(Captures(line).value.value) ==> SingleLine(ParseLine(line).value.value)
    ensures DoubleQuoted(Captures(line).value.value) ==> NoEscapedNewline(ParseLine(line).value.value)
  {
    CapturesSingleLine(line);
    NormalizeValueLineBreaks(Captures(line).value.value);
  }

  /**
   * A line made of a key, a colon and a value, with blanks around them, is
   * accepted under that key; when the value starts with no blank and has no
   * line break before its trailing blanks, the stored value is the value
   * normalised.
   */
  lemma ParseLineMatches(lead: string, key: string, mid: string, post: string, raw: string, tail: string)
    requires AllWhitespace(lead) && IsKey(key) && AllWhitespace(mid)
    requires AllWhitespace(post) && AllWhitespace(tail)
    requires SingleLine(raw)
    ensures ParseLine(lead + key + mid + ":" + post + raw + tail).Some?
    ensures ParseLine(lead + key + mid + ":" + post + raw + tail).value.key == key
    ensures (raw == [] && tail == []) || (raw != [] && !IsWhitespace(raw[0]) && (tail == [] || IsLineTerminator(tail[0])))
      ==> ParseLine(lead + key + mid + ":" + post + raw + tail) == Some(Entry(key, NormalizeValue(raw)))
  {
    var line := lead + key + mid + ":" + post + raw + tail;
    var o1 := |lead|;
    var o2 := o1 + |key|;
    var o3 := o2 + |mid|;
    var o4 := o3 + 1;
    var o5 := o4 + |post|;
    var o6 := o5 + |raw|;
    assert line[0..o1] == lead && line[o1..o2] == key && line[o2..o3] == mid;
    assert line[o3] == ':' && line[o4..o5] == post && line[o5..o6] == raw;
    assert line[o6..|line|] == tail;
    AllSlice(line, 0, o1, IsWhitespace);
    AllSlice(line, o1, o2, IsKeyChar);
    AllSlice(line, o2, o3, IsWhitespace);
    AllSlice(line, o4, o5, IsWhitespace);
    AllSlice(line, o5, o6, NotLineTerminator);
    AllSlice(line, o6, |line|, IsWhitespace);
    var b := Bounds(o1, o2, o3, o5, o6);
    assert Shape(line, b);
    MatchLineComplete(line, b);
    if (raw == [] && tail == []) || (raw != [] && !IsWhitespace(raw[0]) && (tail == [] || IsLineTerminator(tail[0]))) {
      assert raw != [] ==> line[o5] == raw[0];
      assert tail != [] ==> line[o6] == tail[0];
      assert Greedy(line, b);
    }
  }

  /** A blank line adds nothing. */
  lemma BlankLineIgnored(line: string)
    requires AllWhitespace(line)
    ensures ParseLine(line) == None
  {
    SpanUnique(line, 0, |line|, IsWhitespace);
  }

  /** A line without a colon adds nothing. */
  lemma NoColonIgnored(line: string)
    requires ':' !in line
    ensures ParseLine(line) == None
  {
  }

  /** A line whose first non-blank character cannot start a key (a `#` comment, say) adds nothing. */
  lemma NonKeyStartIgnored(lead: string, c: char, rest: string)
    requires AllWhitespace(lead) && !IsWhitespace(c) && !IsKeyChar(c)
    ensures ParseLine(lead + [c] + rest) == None
  {
    var line := lead + [c] + rest;
    assert line[|lead|] == c;
    assert All(line, 0, |lead|, IsWhitespace) by {
      assert forall k :: 0 <= k < |lead| ==> line[k] == lead[k];
    }
    SpanUnique(line, 0, |lead|, IsWhitespace);
    SpanUnique(line, |lead|, |lead|, IsKeyChar);
  }

  /**
   * A line whose key is followed, after optional blanks, by anything but a
   * colon adds nothing: a key holding a character outside `[\w.-]`, or two
   * words before the colon.
   */
  lemma KeyWithoutColonIgnored(lead: string, key: string, mid: string, c: char, rest: string)
    requires AllWhitespace(lead) && IsKey(key) && AllWhitespace(mid)
    requires !IsWhitespace(c) && c != ':'
    requires mid == [] ==> !IsKeyChar(c)
    ensures ParseLine(lead + key + mid + [c] + rest) == None
  {
    var line := lead + key + mid + [c] + rest;
    var o1 := |lead|;
    var o2 := o1 + |key|;
    var o3 := o2 + |mid|;
    assert All(line, 0, o1, IsWhitespace) by {
      assert forall k :: 0 <= k < o1 ==> line[k] == lead[k];
    }
    assert All(line, o1, o2, IsKeyChar) by {
      assert forall k :: o1 <= k < o2 ==> line[k] == key[k - o1];
    }
    assert All(line, o2, o3, IsWhitespace) by {
      assert forall k :: o2 <= k < o3 ==> line[k] == mid[k - o2];
    }
    assert line[o3] == c;
    ClassesDisjoint(line[o1]);
    SpanUnique(line, 0, o1, IsWhitespace);
    if mid != [] {
      assert line[o2] == mid[0];
      ClassesDisjoint(line[o2]);
    }
    SpanUnique(line, o1, o2, IsKeyChar);
    SpanUnique(line, o2, o3, IsWhitespace);
  }

  // ---------------------------------------------------------------------------
  // The whole text

  /** Every entry has a well-formed key and a trimmed value. */
  predicate WellFormed(es: seq<Option<Entry>>) {
    forall i :: 0 <= i < |es| && es[i].Some? ==> IsKey(es[i].value.key) && Trimmed(es[i].value.value)
  }

  /** What each line contributes, in order. */
  function LineEntries(lines: seq<string>): (es: seq<Option<Entry>>)
    ensures |es| == |lines|
    ensures forall i :: 0 <= i < |lines| ==> es[i] == ParseLine(lines[i])
    ensures WellFormed(es)
  {
    seq(|lines|, i requires 0 <= i < |lines| => ParseLine(lines[i]))
  }

  /** LineEntries distributes over concatenation of line lists. */
  lemma LineEntriesAppend(a: seq<string>, b: seq<string>)
    ensures LineEntries(a + b) == LineEntries(a) + LineEntries(b)
  {
  }

  /** The object built from a list of lines. Every key is a well-formed key and every value is trimmed. */
  function ParseLines(lines: seq<string>): (obj: map<string, string>)
    ensures forall k :: k in obj ==> IsKey(k) && Trimmed(obj[k])
  {
    CollectWellFormed(LineEntries(lines));
    Collect(LineEntries(lines))
  }

  /** Collecting well-formed entries gives well-formed keys and trimmed values. */
  lemma CollectWellFormed(es: seq<Option<Entry>>)
    requires WellFormed(es)
    ensures forall k :: k in Collect(es) ==> IsKey(k) && Trimmed(Collect(es)[k])
  {
    var obj := Collect(es);
    forall k | k in obj
      ensures IsKey(k) && Trimmed(obj[k])
    {
      var i :| 0 <= i < |es| && es[i] == Some(Entry(k, obj[k]));
    }
  }

  /** The object `parse` returns for `src`: well-formed keys, trimmed values. */
  function ParseText(src: string): (obj: map<string, string>)
    ensures forall k :: k in obj ==> IsKey(k) && Trimmed(obj[k])
  {
    ParseLines(SplitLines(src))
  }

  /** `parse`: split on newlines and assign each accepted line's entry into a fresh object. */
  method Parse(src: string) returns (obj: map<string, string>)
    ensures obj == ParseText(src)
  {
    var lines := SplitLines(src);
    obj := map[];
    for i := 0 to |lines|
      invariant obj == ParseLines(lines[..i])
    {
      var entry := ParseLine(lines[i]);
      ParseLinesStep(lines, i);
      if entry.Some? {
        obj := obj[entry.value.key := entry.value.value];
      }
    }
    assert lines[..|lines|] == lines;
  }

  /** One more line: its entry, if any, is assigned over the object built so far. */
  lemma ParseLinesStep(lines: seq<string>, i: nat)
    requires i < |lines|
    ensures ParseLines(lines[..i + 1]) == Assign(ParseLines(lines[..i]), ParseLine(lines[i]))
  {
    var before := LineEntries(lines[..i]);
    var after := LineEntries(lines[..i + 1]);
    assert after[..i] == before;
    assert after == before + [after[i]];
    CollectAppend(before, after[i]);
  }

  /** The empty text gives the empty object. */
  lemma ParseTextEmpty()
    ensures ParseText("") == map[]
  {
    assert SplitLines("") == [""];
    BlankLineIgnored("");
    assert LineEntries([""]) == [None];
    var none: seq<Option<Entry>> := [];
    CollectAppend(none, None);
    assert none + [None] == [None];
  }

  /** A key is in the object exactly when some line is accepted with that key. */
  lemma ParseLinesHasKey(lines: seq<string>, key: string)
    ensures key in ParseLines(lines) <==>
      exists i :: 0 <= i < |lines| && ParseLine(lines[i]).Some? && ParseLine(lines[i]).value.key == key
  {
    var es := LineEntries(lines);
    CollectHasKey(es, key);
    if key in ParseLines(lines) {
      var i :| 0 <= i < |es| && es[i].Some? && es[i].value.key == key;
      assert ParseLine(lines[i]) == es[i];
    }
    if exists i :: 0 <= i < |lines| && ParseLine(lines[i]).Some? && ParseLine(lines[i]).value.key == key {
      var i :| 0 <= i < |lines| && ParseLine(lines[i]).Some? && ParseLine(lines[i]).value.key == key;
      assert es[i] == ParseLine(lines[i]);
    }
  }

  /** Last line wins: a key's value is the normalised value of the last line accepted with that key. */
  lemma ParseLinesLastWins(lines: seq<string>, i: nat)
    requires i < |lines| && ParseLine(lines[i]).Some?
    requires forall j :: i < j < |lines| ==>
      ParseLine(lines[j]).None? || ParseLine(lines[j]).value.key != ParseLine(lines[i]).value.key
    ensures ParseLine(lines[i]).value.key in ParseLines(lines)
    ensures ParseLines(lines)[ParseLine(lines[i]).value.key] == ParseLine(lines[i]).value.value
  {
    CollectLastWins(LineEntries(lines), i);
  }

  /** Removing a line that is not accepted (a comment, a blank line) does not change the object. */
  lemma ParseLinesSkipsIgnored(before: seq<string>, line: string, after: seq<string>)
    requires ParseLine(line) == None
    ensures ParseLines(before + [line] + after) == ParseLines(before + after)
  {
    LineEntriesAppend(before + [line], after);
    LineEntriesAppend(before, [line]);
    LineEntriesAppend(before, after);
    assert LineEntries([line]) == [None];
    CollectSkipsNone(LineEntries(before), LineEntries(after));
  }

  /** The same, stated on the text: deleting an ignored line from it leaves the object unchanged. */
  lemma ParseTextSkipsIgnoredLine(before: seq<string>, line: string, after: seq<string>)
    requires |before + after| >= 1
    requires forall k :: 0 <= k < |before + [line] + after| ==> '\n' !in (before + [line] + after)[k]
    requires ParseLine(line) == None
    ensures ParseText(JoinLines(before + [line] + after)) == ParseText(JoinLines(before + after))
  {
    var with := before + [line] + after;
    var without := before + after;
    assert forall k :: 0 <= k < |without| ==> '\n' !in without[k] by {
      forall k | 0 <= k < |without|
        ensures '\n' !in without[k]
      {
        if k < |before| {
          assert without[k] == with[k];
        } else {
          assert without[k] == with[k + 1];
        }
      }
    }
    SplitJoin(with);
    SplitJoin(without);
    ParseLinesSkipsIgnored(before, line, after);
  }

  // ---------------------------------------------------------------------------
  // Worked examples

  /** `KEY:` with nothing after the colon stores the empty string. */
  lemma ParseLineEmptyValue(key: string)
    requires IsKey(key)
    ensures ParseLine(key + ":") == Some(Entry(key, ""))
  {
    var none: string := [];
    assert none + key + none + ":" + none + none + none == key + ":";
    assert AllWhitespace(none) && SingleLine(none);
    ParseLineMatches(none, key, none, none, none, none);
    NormalizeEmpty();
  }

  /** The empty captured value stays empty. */
  lemma NormalizeEmpty()
    ensures NormalizeValue([]) == []
  {
    assert StripQuotes([]) == [];
  }

  /** `KEY: "m"` and `KEY: 'm'` both store m. */
  lemma ParseLineQuoted(key: string, q: char, m: string)
    requires IsKey(key) && IsQuote(q)
    requires m != [] && Trimmed(m) && !IsQuote(m[0]) && !IsQuote(m[|m| - 1])
    requires '\\' !in m && SingleLine(m)
    ensures ParseLine(key + ": " + [q] + m + [q]) == Some(Entry(key, m))
  {
    var none: string := [];
    var raw := [q] + m + [q];
    assert none + key + none + ":" + " " + raw + none == key + ": " + [q] + m + [q];
    assert AllWhitespace(none) && AllWhitespace(" ");
    QuotedSingleLine(q, m);
    ParseLineMatches(none, key, none, " ", raw, none);
    QuotedNormalized(q, m);
  }

  lemma QuotedSingleLine(q: char, m: string)
    requires IsQuote(q) && SingleLine(m)
    ensures SingleLine([q] + m + [q]) && !IsWhitespace(([q] + m + [q])[0])
  {
    var raw := [q] + m + [q];
    ClassesDisjoint(q);
    assert forall k :: 1 <= k < |raw| - 1 ==> raw[k] == m[k - 1];
  }

  lemma QuotedNormalized(q: char, m: string)
    requires IsQuote(q)
    requires m != [] && Trimmed(m) && !IsQuote(m[0]) && !IsQuote(m[|m| - 1])
    requires '\\' !in m
    ensures NormalizeValue([q] + m + [q]) == m
  {
    assert AllWhitespace([]);
    NormalizeWrapped([q], m, [q], []);
    assert [q] + m + [q] + [] == [q] + m + [q];
  }

  /** A carriage return ending the line (a file with CRLF line ends) is a trailing blank and changes nothing. */
  lemma ParseLineCarriageReturnAtEnd(key: string, raw: string)
    requires IsKey(key) && SingleLine(raw) && raw != [] && !IsWhitespace(raw[0])
    ensures ParseLine(key + ": " + raw + "\r") == Some(Entry(key, NormalizeValue(raw)))
    ensures ParseLine(key + ": " + raw) == Some(Entry(key, NormalizeValue(raw)))
  {
    var none: string := [];
    assert none + key + none + ":" + " " + raw + "\r" == key + ": " + raw + "\r";
    assert none + key + none + ":" + " " + raw + none == key + ": " + raw;
    assert AllWhitespace(none) && AllWhitespace(" ") && AllWhitespace("\r");
    ParseLineMatches(none, key, none, " ", raw, "\r");
    ParseLineMatches(none, key, none, " ", raw, none);
  }

  /** Inside double quotes each backslash-n becomes a newline: `KEY: "a\nb"` stores a, a newline and b. */
  lemma NormalizeEscapedNewline(a: string, b: string)
    requires '\\' !in a && '\\' !in b
    requires a != [] && !IsWhitespace(a[0]) && !IsQuote(a[0])
    requires b != [] && !IsWhitespace(b[|b| - 1]) && !IsQuote(b[|b| - 1])
    ensures NormalizeValue("\"" + a + "\\n" + b + "\"") == a + "\n" + b
  {
    var raw := "\"" + a + "\\n" + b + "\"";
    var m := a + "\n" + b;
    assert m[0] == a[0] && m[|m| - 1] == b[|b| - 1];
    assert DoubleQuoted(raw);
    UnescapeQuotedNewline(a, b);
    StripQuotesInverse("\"", m, "\"");
    TrimWrapped([], m, []);
    assert [] + m + [] == m;
  }

  /** The unescaping step of NormalizeEscapedNewline. */
  lemma UnescapeQuotedNewline(a: string, b: string)
    requires '\\' !in a && '\\' !in b
    ensures Unescape("\"" + a + "\\n" + b + "\"") == "\"" + (a + "\n" + b) + "\""
  {
    var x := "\"" + a;
    var y := b + "\"";
    var escaped := "\\n" + y;
    assert "\"" + a + "\\n" + b + "\"" == x + escaped;
    assert "\"" + (a + "\n" + b) + "\"" == x + ("\n" + y);
    assert '\\' !in x by {
      assert forall k :: 1 <= k < |x| ==> x[k] == a[k - 1];
    }
    assert '\\' !in y by {
      assert forall k :: 0 <= k < |b| ==> y[k] == b[k];
    }
    UnescapePlain(x, escaped);
    assert escaped[2..] == y + [];
    UnescapePlain(y, []);
    assert Unescape([]) == [];
    assert y + [] == y;
  }

  /** Blanks after the closing quote keep it from being stripped: `KEY: "m"  ` stores m followed by a quote. */
  lemma NormalizeBlankAfterClosingQuote(m: string, trail: string)
    requires '\\' !in m && m != [] && !IsWhitespace(m[0]) && !IsQuote(m[0])
    requires trail != [] && AllWhitespace(trail)
    ensures NormalizeValue("\"" + m + "\"" + trail) == m + "\""
  {
    var raw := "\"" + m + "\"" + trail;
    var kept := m + "\"";
    ClassesDisjoint(trail[|trail| - 1]);
    ClassesDisjoint('"');
    assert raw[|raw| - 1] == trail[|trail| - 1];
    assert !DoubleQuoted(raw);
    assert raw[1..] == kept + trail;
    assert StripQuotes(raw) == kept + trail;
    assert kept[0] == m[0] && kept[|kept| - 1] == '"';
    assert forall k :: 0 <= k < |trail| ==> IsWhitespace(trail[k]);
    TrimWrapped([], kept, trail);
    assert [] + kept + trail == kept + trail;
  }

  /** A carriage return followed by more text stops the value group short, so the line is skipped. */
  lemma ExampleCarriageReturnInside()
    ensures ParseLine("A: x\ry") == None
  {
    var line := "A: x\ry";
    SpanUnique(line, 0, 0, IsWhitespace);
    SpanUnique(line, 0, 1, IsKeyChar);
    SpanUnique(line, 1, 1, IsWhitespace);
    SpanUnique(line, 2, 3, IsWhitespace);
    SpanUnique(line, 3, 4, NotLineTerminator);
    SpanUnique(line, 4, 5, IsWhitespace);
  }
}
