/** Line and token helpers of the request parser: `get_first`, `get_parts`, and
    the line splitter `get_all` that the handler calls (modelled with the
    semantics of Rust's `str::lines`). Text is a `string`, i.e. `seq<char>`. */
module LineParser {

  /** Rust's `char::is_whitespace`: the Unicode `White_Space` property. */
  predicate IsWhitespace(c: char) {
    || ('\t' <= c <= '\r')
    || c == ' '
    || c == '\U{85}'
    || c == '\U{A0}'
    || c == '\U{1680}'
    || ('\U{2000}' <= c <= '\U{200A}')
    || c == '\U{2028}'
    || c == '\U{2029}'
    || c == '\U{202F}'
    || c == '\U{205F}'
    || c == '\U{3000}'
  }

  /** A token as `split_whitespace` yields it: non-empty, no whitespace. */
  predicate IsToken(t: string) {
    |t| > 0 && forall j :: 0 <= j < |t| ==> !IsWhitespace(t[j])
  }

  // ---------------------------------------------------------------------------
  // Lines
  // ---------------------------------------------------------------------------

  /** Position of the first '\n' of `s`, or `|s|` when there is none. */
  function NewlineIndex(s: string): (i: nat)
    ensures i <= |s|
    ensures i < |s| ==> s[i] == '\n'
    ensures forall j :: 0 <= j < i ==> s[j] != '\n'
  {
    if |s| == 0 || s[0] == '\n' then 0 else 1 + NewlineIndex(s[1..])
  }

  /** Drops one trailing '\r' (the CR of a CRLF terminator). */
  function StripCr(l: string): string {
    if |l| > 0 && l[|l| - 1] == '\r' then l[..|l| - 1] else l
  }

  /** `str::lines`: split after each '\n'; a piece that ended in '\n' loses it
      and then one '\r' before it. The last piece keeps its text as is when no
      '\n' follows it, and an empty last piece yields no line. */
  function Lines(s: string): (ls: seq<string>)
    ensures |ls| == 0 <==> |s| == 0
    ensures forall k :: 0 <= k < |ls| ==> '\n' !in ls[k]
    decreases |s|
  {
    if |s| == 0 then []
    else
      var i := NewlineIndex(s);
      if i == |s| then [s] else [StripCr(s[..i])] + Lines(s[i + 1..])
  }

  /** `get_first`: the first line of the input. The source panics when there
      is no line at all, which happens exactly for the empty input; "\n"
      yields the empty line. */
  function GetFirst(input: string): (first: string)
    requires |input| > 0
    ensures |first| <= |input| && first == input[..|first|]
    ensures '\n' !in first
    ensures var i := NewlineIndex(input);
      if i < |input| && 0 < i && input[i - 1] == '\r' then |first| + 1 == i else |first| == i
  {
    Lines(input)[0]
  }

  /** Each line followed by `term`, all concatenated. */
  function EachFollowedBy(lines: seq<string>, term: string): string {
    if |lines| == 0 then "" else lines[0] + term + EachFollowedBy(lines[1..], term)
  }

  lemma {:induction false} NewlineIndexAfter(a: string, b: string)
    requires '\n' !in a
    ensures NewlineIndex(a + b) == |a| + NewlineIndex(b)
    decreases |a|
  {
    if |a| == 0 {
      assert a + b == b;
    } else {
      assert (a + b)[1..] == a[1..] + b;
      NewlineIndexAfter(a[1..], b);
    }
  }

  /** A line `a` terminated by '\n' is split off whole, less a trailing '\r'. */
  /** Text after the first '\n' does not move that '\n'. */
  lemma {:induction false} NewlineIndexOfPrefix(t: string, u: string)
    requires '\n' in t
    ensures NewlineIndex(t + u) == NewlineIndex(t)
    decreases |t|
  {
    if t[0] != '\n' {
      assert (t + u)[1..] == t[1..] + u;
      assert '\n' in t[1..] by {
        var j :| 0 <= j < |t| && t[j] == '\n';
        assert t[1..][j - 1] == '\n';
      }
      NewlineIndexOfPrefix(t[1..], u);
    }
  }

  /** The first line of a text that contains a '\n' is the first line of any
      extension of it. */
  lemma FirstLineOfPrefix(t: string, u: string)
    requires '\n' in t
    ensures |Lines(t)| > 0 && |Lines(t + u)| > 0
    ensures Lines(t + u)[0] == Lines(t)[0]
  {
    NewlineIndexOfPrefix(t, u);
    var i := NewlineIndex(t);
    assert (t + u)[..i] == t[..i];
  }

  lemma LinesAfterLine(a: string, rest: string)
    requires '\n' !in a
    ensures Lines(a + "\n" + rest) == [StripCr(a)] + Lines(rest)
  {
    var s := a + "\n" + rest;
    assert s == a + ("\n" + rest);
    NewlineIndexAfter(a, "\n" + rest);
    assert NewlineIndex(s) == |a|;
    assert s[..|a|] == a;
    assert s[|a| + 1..] == rest;
  }

  /** A non-empty text with no '\n' is a single line, kept verbatim. */
  lemma LinesOfUnterminated(s: string)
    requires |s| > 0 && '\n' !in s
    ensures Lines(s) == [s]
  {
  }

  /** Round trip: CRLF-terminated lines split back into exactly those lines,
      whatever they contain besides '\n' (empty lines included). */
  lemma {:induction false} LinesOfCrlfLines(ls: seq<string>)
    requires forall k :: 0 <= k < |ls| ==> '\n' !in ls[k]
    ensures Lines(EachFollowedBy(ls, "\r\n")) == ls
  {
    if |ls| > 0 {
      var rest := EachFollowedBy(ls[1..], "\r\n");
      assert ls[0] + "\r\n" + rest == (ls[0] + "\r") + "\n" + rest;
      assert '\n' !in ls[0] + "\r";
      LinesAfterLine(ls[0] + "\r", rest);
      assert StripCr(ls[0] + "\r") == ls[0];
      LinesOfCrlfLines(ls[1..]);
    }
  }

  // ---------------------------------------------------------------------------
  // Tokens
  // ---------------------------------------------------------------------------

  /** Length of the longest whitespace-free prefix of `s`. */
  function WordLength(s: string): (n: nat)
    ensures n <= |s|
    ensures forall j :: 0 <= j < n ==> !IsWhitespace(s[j])
    ensures n < |s| ==> IsWhitespace(s[n])
  {
    if |s| == 0 || IsWhitespace(s[0]) then 0 else 1 + WordLength(s[1..])
  }

  /** `get_parts`: `split_whitespace`, the maximal whitespace-free runs of the
      line, in order. */
  function GetParts(line: string): (parts: seq<string>)
    ensures forall k :: 0 <= k < |parts| ==> IsToken(parts[k])
    decreases |line|
  {
    if |line| == 0 then []
    else if IsWhitespace(line[0]) then GetParts(line[1..])
    else
      var n := WordLength(line);
      [line[..n]] + GetParts(line[n..])
  }

  /** Rust's own definition of `split_whitespace`: split at every whitespace
      character, keeping empty pieces ... */
  function SplitAtWhitespace(s: string): (pieces: seq<string>)
    ensures |pieces| > 0
    decreases |s|
  {
    var n := WordLength(s);
    if n == |s| then [s] else [s[..n]] + SplitAtWhitespace(s[n + 1..])
  }

  /** ... then filter the empty pieces out. */
  function DropEmpty(pieces: seq<string>): (kept: seq<string>)
    ensures forall k :: 0 <= k < |kept| ==> |kept[k]| > 0
  {
    if |pieces| == 0 then []
    else (if pieces[0] == "" then [] else [pieces[0]]) + DropEmpty(pieces[1..])
  }

  lemma {:induction false} DropEmptyAppend(a: seq<string>, b: seq<string>)
    ensures DropEmpty(a + b) == DropEmpty(a) + DropEmpty(b)
  {
    if |a| > 0 {
      assert (a + b)[1..] == a[1..] + b;
      DropEmptyAppend(a[1..], b);
    } else {
      assert a + b == b;
    }
  }

  /** `GetParts` agrees with split-then-filter on every line. */
  lemma {:induction false} GetPartsIsFilteredSplit(s: string)
    ensures GetParts(s) == DropEmpty(SplitAtWhitespace(s))
    decreases |s|
  {
    if |s| > 0 {
      var n := WordLength(s);
      if IsWhitespace(s[0]) {
        var rest := SplitAtWhitespace(s[1..]);
        assert SplitAtWhitespace(s) == [""] + rest by {
          assert n == 0 && s[..0] == "";
        }
        assert DropEmpty([""] + rest) == DropEmpty(rest) by {
          assert ([""] + rest)[1..] == rest;
        }
        GetPartsIsFilteredSplit(s[1..]);
      } else if n < |s| {
        var rest := SplitAtWhitespace(s[n + 1..]);
        assert SplitAtWhitespace(s) == [s[..n]] + rest;
        assert DropEmpty([s[..n]] + rest) == [s[..n]] + DropEmpty(rest) by {
          assert s[..n] != "";
          assert ([s[..n]] + rest)[1..] == rest;
        }
        assert GetParts(s[n..]) == GetParts(s[n + 1..]) by {
          assert s[n..][1..] == s[n + 1..];
        }
        GetPartsIsFilteredSplit(s[n + 1..]);
      } else {
        assert s[..n] == s;
        assert s[n..] == [];
      }
    }
  }

  /** The non-whitespace characters of `s`, in order. */
  function NonWhitespace(s: string): string {
    if |s| == 0 then ""
    else (if IsWhitespace(s[0]) then "" else [s[0]]) + NonWhitespace(s[1..])
  }

  lemma {:induction false} NonWhitespaceAppend(a: string, b: string)
    ensures NonWhitespace(a + b) == NonWhitespace(a) + NonWhitespace(b)
  {
    if |a| > 0 {
      assert (a + b)[1..] == a[1..] + b;
      NonWhitespaceAppend(a[1..], b);
    } else {
      assert a + b == b;
    }
  }

  lemma {:induction false} NonWhitespaceOfWord(w: string)
    requires forall j :: 0 <= j < |w| ==> !IsWhitespace(w[j])
    ensures NonWhitespace(w) == w
  {
    if |w| > 0 {
      NonWhitespaceOfWord(w[1..]);
    }
  }

  function Concat(parts: seq<string>): string {
    if |parts| == 0 then "" else parts[0] + Concat(parts[1..])
  }

  /** Tokens neither lose, duplicate nor reorder text: glued together they
      are exactly the line's non-whitespace characters, in order. */
  lemma {:induction false} GetPartsKeepsText(line: string)
    ensures Concat(GetParts(line)) == NonWhitespace(line)
    decreases |line|
  {
    if |line| > 0 {
      if IsWhitespace(line[0]) {
        GetPartsKeepsText(line[1..]);
      } else {
        var n := WordLength(line);
        GetPartsKeepsText(line[n..]);
        assert line == line[..n] + line[n..];
        NonWhitespaceAppend(line[..n], line[n..]);
        NonWhitespaceOfWord(line[..n]);
      }
    }
  }

  lemma {:induction false} WordLengthExtend(a: string, rest: string)
    requires WordLength(a) < |a| || (|rest| > 0 && IsWhitespace(rest[0]))
    ensures WordLength(a + rest) == WordLength(a)
    decreases |a|
  {
    if |a| > 0 && !IsWhitespace(a[0]) {
      assert (a + rest)[1..] == a[1..] + rest;
      WordLengthExtend(a[1..], rest);
    }
  }

  /** A whitespace character separates tokens: the tokens of `a c b` are the
      tokens of `a` followed by those of `b`. */
  lemma {:induction false} GetPartsAtSeparator(a: string, c: char, b: string)
    requires IsWhitespace(c)
    ensures GetParts(a + [c] + b) == GetParts(a) + GetParts(b)
    decreases |a|
  {
    var s := a + [c] + b;
    if |a| == 0 {
      assert s[1..] == b;
    } else if IsWhitespace(a[0]) {
      assert s[1..] == a[1..] + [c] + b;
      GetPartsAtSeparator(a[1..], c, b);
    } else {
      var n := WordLength(a);
      WordLengthExtend(a, [c] + b);
      assert s == a + ([c] + b);
      assert s[..n] == a[..n];
      assert s[n..] == a[n..] + [c] + b;
      GetPartsAtSeparator(a[n..], c, b);
    }
  }

  /** A line is its own single token exactly when it is a token. */
  lemma {:induction false} SingleToken(line: string)
    ensures GetParts(line) == [line] <==> IsToken(line)
  {
    if IsToken(line) {
      var n := WordLength(line);
      assert n == |line|;
      assert line[..n] == line;
      assert line[n..] == [];
      assert GetParts(line) == [line] + GetParts([]);
    }
    if GetParts(line) == [line] {
      assert IsToken(GetParts(line)[0]);
    }
  }

  /** A line has no token exactly when it is empty or all whitespace. */
  lemma {:induction false} NoTokens(line: string)
    ensures GetParts(line) == [] <==> forall j :: 0 <= j < |line| ==> IsWhitespace(line[j])
    decreases |line|
  {
    if |line| > 0 {
      NoTokens(line[1..]);
      if IsWhitespace(line[0]) {
        assert forall j :: 1 <= j < |line| ==> line[j] == line[1..][j - 1];
      }
    }
  }

  /** Tokens joined with single spaces. */
  function JoinSpace(parts: seq<string>): string {
    if |parts| == 0 then ""
    else if |parts| == 1 then parts[0]
    else parts[0] + " " + JoinSpace(parts[1..])
  }

  /** Round trip: tokenising tokens joined by spaces gives back the tokens. */
  lemma {:induction false} GetPartsOfJoin(parts: seq<string>)
    requires forall k :: 0 <= k < |parts| ==> IsToken(parts[k])
    ensures GetParts(JoinSpace(parts)) == parts
  {
    if |parts| == 1 {
      SingleToken(parts[0]);
    } else if |parts| > 1 {
      GetPartsOfJoin(parts[1..]);
      GetPartsAtSeparator(parts[0], ' ', JoinSpace(parts[1..]));
      SingleToken(parts[0]);
    }
  }

  /** Re-tokenising the space-joined tokens of a line changes nothing. */
  lemma GetPartsIdempotent(line: string)
    ensures GetParts(JoinSpace(GetParts(line))) == GetParts(line)
  {
    GetPartsOfJoin(GetParts(line));
  }

  /** Whitespace (and so '\n') never occurs in a token. */
  lemma TokenHasNoNewline(t: string)
    requires IsToken(t)
    ensures '\n' !in t
  {
  }
}
