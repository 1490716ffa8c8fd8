/** The ECMAScript string built-ins the analyser and its views call, with the
    semantics of the language standard written out over `seq<char>`:
    the `\s` character class, `trim`, `substring`, `indexOf`, `split` and
    `join` with a string separator, `replace` with a string pattern, and the
    first-letter capitalisation idiom `s.charAt(0).toUpperCase() + s.slice(1)`. */
module JsString {

  /** The `\s` class of ECMAScript regular expressions: the WhiteSpace and
      LineTerminator code points. `trim` strips exactly the same set. */
  predicate IsSpace(c: char) {
    || c == '\t' || c == '\n' || c == '\U{000B}' || c == '\U{000C}' || c == '\r' || c == ' '
    || c == '\U{00A0}' || c == '\U{1680}' || ('\U{2000}' <= c <= '\U{200A}')
    || c == '\U{2028}' || c == '\U{2029}' || c == '\U{202F}' || c == '\U{205F}'
    || c == '\U{3000}' || c == '\U{FEFF}'
  }

  /** Every character of `s` is white space (true of the empty string). */
  predicate IsBlank(s: string) {
    forall i :: 0 <= i < |s| ==> IsSpace(s[i])
  }

  /** `s.trimStart()` */
  function TrimStart(s: string): (r: string)
    ensures |r| <= |s| && r == s[|s| - |r|..]
    ensures r != [] ==> !IsSpace(r[0])
    ensures IsBlank(s[..|s| - |r|])
    decreases |s|
  {
    if |s| > 0 && IsSpace(s[0]) then
      var r := TrimStart(s[1..]);
      assert s[1..][..|s| - 1 - |r|] == s[1..|s| - |r|];
      r
    else s
  }

  /** `s.trimEnd()` */
  function TrimEnd(s: string): (r: string)
    ensures |r| <= |s| && r == s[..|r|]
    ensures r != [] ==> !IsSpace(r[|r| - 1])
    ensures IsBlank(s[|r|..])
    decreases |s|
  {
    if |s| > 0 && IsSpace(s[|s| - 1]) then
      var r := TrimEnd(s[..|s| - 1]);
      assert s[..|s| - 1][|r|..] + [s[|s| - 1]] == s[|r|..];
      r
    else s
  }

  /** `s.trim()`: a contiguous piece of `s` that neither starts nor ends with
      white space and is surrounded only by white space. */
  function Trim(s: string): (r: string)
    ensures |r| <= |s|
    ensures r == [] || (!IsSpace(r[0]) && !IsSpace(r[|r| - 1]))
    ensures IsPrefix(r, TrimStart(s))
  {
    TrimEnd(TrimStart(s))
  }

  /** The empty result of `trim` (the falsy case of `!text.trim()`) is exactly
      the all-white-space input. */
  lemma TrimEmptyIffBlank(s: string)
    ensures Trim(s) == [] <==> IsBlank(s)
  {
    var a := TrimStart(s);
    if Trim(s) == [] {
      assert a[0..] == a;
      assert a == [];
      assert s[..|s|] == s;
    } else {
      var r := Trim(s);
      assert r[0] == a[0] == s[|s| - |a|];
    }
  }

  /** `p` is a prefix of `s`. */
  predicate IsPrefix<T(==)>(p: seq<T>, s: seq<T>) {
    |p| <= |s| && p == s[..|p|]
  }

  /** The clamping that `substring` and `indexOf` apply to a position. */
  function Clamp(i: int, len: nat): (r: nat)
    ensures r <= len
    ensures 0 <= i <= len ==> r == i
  {
    if i < 0 then 0 else if i > len then len else i
  }

  /** `s.substring(a, b)`: both ends are clamped into [0, |s|] and swapped
      when the first exceeds the second. */
  function Substring(s: string, a: int, b: int): (r: string)
    ensures 0 <= a <= b <= |s| ==> r == s[a..b]
    ensures |r| <= |s|
  {
    var x, y := Clamp(a, |s|), Clamp(b, |s|);
    if x <= y then s[x..y] else s[y..x]
  }

  /** `s.substring(a)` */
  function SubstringFrom(s: string, a: int): (r: string)
    ensures 0 <= a <= |s| ==> r == s[a..]
  {
    Substring(s, a, |s|)
  }

  /** `pat` occurs in `s` starting at position `i`. */
  predicate MatchAt(s: string, pat: string, i: int) {
    0 <= i && i + |pat| <= |s| && s[i..i + |pat|] == pat
  }

  /** `s.indexOf(pat, from)`: the first position at or after the clamped
      `from` where `pat` occurs, or -1 when there is none. */
  function IndexOf(s: string, pat: string, from: int): (r: int)
    ensures r == -1 || (Clamp(from, |s|) <= r && MatchAt(s, pat, r))
    ensures r == -1 ==> forall i :: Clamp(from, |s|) <= i ==> !MatchAt(s, pat, i)
    ensures r != -1 ==> forall i :: Clamp(from, |s|) <= i < r ==> !MatchAt(s, pat, i)
    decreases |s| - Clamp(from, |s|)
  {
    var i := Clamp(from, |s|);
    if i + |pat| > |s| then -1
    else if s[i..i + |pat|] == pat then i
    else IndexOf(s, pat, i + 1)
  }

  /** `s.split(sep)` for a non-empty string separator: the pieces between
      the occurrences of `sep`, found from left to right. */
  function SplitOn(s: string, sep: string): (r: seq<string>)
    requires |sep| > 0
    ensures |r| >= 1
    decreases |s|
  {
    var k := IndexOf(s, sep, 0);
    if k == -1 then [s] else [s[..k]] + SplitOn(s[k + |sep|..], sep)
  }

  /** `parts.join(sep)` */
  function Join(parts: seq<string>, sep: string): string
    decreases |parts|
  {
    if |parts| == 0 then ""
    else if |parts| == 1 then parts[0]
    else parts[0] + sep + Join(parts[1..], sep)
  }

  /** `xs.slice(0, n)` for a non-negative `n`. */
  function Take<T>(xs: seq<T>, n: nat): (r: seq<T>)
    ensures |r| == if n < |xs| then n else |xs|
    ensures r == xs[..|r|]
  {
    if n < |xs| then xs[..n] else xs
  }

  /** A slice cut in three places. */
  lemma SliceSplit<T>(s: seq<T>, a: nat, b: nat, c: nat)
    requires a <= b <= c <= |s|
    ensures s[a..] == s[a..b] + s[b..c] + s[c..]
  {
    var x, y, z := s[a..b], s[b..c], s[c..];
    assert |x + y + z| == |s[a..]|;
    forall i | 0 <= i < |s[a..]| ensures (x + y + z)[i] == s[a..][i] {
      if i < |x| {
      } else if i < |x| + |y| {
        assert (x + y + z)[i] == y[i - |x|];
      } else {
        assert (x + y + z)[i] == z[i - |x| - |y|];
      }
    }
  }

  /** Joining the pieces of a split with the same separator gives the
      original string back. */
  lemma {:induction false} JoinSplitOn(s: string, sep: string)
    requires |sep| > 0
    ensures Join(SplitOn(s, sep), sep) == s
    decreases |s|
  {
    var k := IndexOf(s, sep, 0);
    if k != -1 {
      var rest := s[k + |sep|..];
      JoinSplitOn(rest, sep);
      var tail := SplitOn(rest, sep);
      assert SplitOn(s, sep) == [s[..k]] + tail;
      JoinCons(s[..k], tail, sep);
      assert s[k..k + |sep|] == sep;
      SliceSplit(s, 0, k, k + |sep|);
    }
  }

  /** No piece of a split contains the separator. */
  lemma {:induction false} SplitOnPiecesAvoidSep(s: string, sep: string)
    requires |sep| > 0
    ensures forall p :: p in SplitOn(s, sep) ==> IndexOf(p, sep, 0) == -1
    decreases |s|
  {
    var k := IndexOf(s, sep, 0);
    if k != -1 {
      var rest := s[k + |sep|..];
      SplitOnPiecesAvoidSep(rest, sep);
      var head := s[..k];
      forall i | 0 <= i ensures !MatchAt(head, sep, i) {
        if MatchAt(head, sep, i) {
          assert head[i..i + |sep|] == s[i..i + |sep|];
          assert MatchAt(s, sep, i);
        }
      }
    }
  }

  /** Joining a piece in front of at least one more. */
  lemma JoinCons(x: string, t: seq<string>, sep: string)
    requires |t| >= 1
    ensures Join([x] + t, sep) == x + sep + Join(t, sep)
  {
    assert ([x] + t)[1..] == t;
  }

  /** A piece, the separator and a prefix of the rest form a prefix. */
  lemma PrefixAfterSep(s: string, k: nat, sep: string, jt: string)
    requires MatchAt(s, sep, k)
    requires IsPrefix(jt, s[k + |sep|..])
    ensures IsPrefix(s[..k] + sep + jt, s)
  {
    var rest := s[k + |sep|..];
    SliceSplit(s, 0, k, k + |sep|);
    assert rest[..|jt|] == jt;
  }

  /** Joining the first `n` pieces of a split gives a prefix of the string. */
  lemma {:induction false} JoinTakeSplitIsPrefix(s: string, sep: string, n: nat)
    requires |sep| > 0
    ensures IsPrefix(Join(Take(SplitOn(s, sep), n), sep), s)
    decreases |s|
  {
    var k := IndexOf(s, sep, 0);
    if n == 0 || k == -1 {
    } else {
      var rest := s[k + |sep|..];
      var tail := SplitOn(rest, sep);
      var parts := SplitOn(s, sep);
      assert parts == [s[..k]] + tail;
      if n == 1 {
        assert Take(parts, n) == [s[..k]];
      } else {
        JoinTakeSplitIsPrefix(rest, sep, n - 1);
        var tt := Take(tail, n - 1);
        assert Take(parts, n) == [s[..k]] + tt;
        JoinCons(s[..k], tt, sep);
        PrefixAfterSep(s, k, sep, Join(tt, sep));
      }
    }
  }

  /** `s.replace(pat, rep)` with a string pattern: only the first occurrence
      is replaced; without one, `s` is returned. */
  function ReplaceFirst(s: string, pat: string, rep: string): (r: string)
    ensures IndexOf(s, pat, 0) == -1 ==> r == s
    ensures IndexOf(s, pat, 0) != -1 ==>
      var k := IndexOf(s, pat, 0);
      && |r| == |s| - |pat| + |rep|
      && r[..k] == s[..k]
      && r[k..k + |rep|] == rep
      && r[k + |rep|..] == s[k + |pat|..]
  {
    var k := IndexOf(s, pat, 0);
    if k == -1 then s else s[..k] + rep + s[k + |pat|..]
  }

  /** A pattern at the very start is the one `replace` rewrites. */
  lemma ReplaceFirstAtStart(s: string, pat: string, rep: string)
    requires IsPrefix(pat, s)
    ensures ReplaceFirst(s, pat, rep) == rep + s[|pat|..]
  {
    assert MatchAt(s, pat, 0);
    assert IndexOf(s, pat, 0) == 0;
  }

  /** Replacing a leading pattern by itself with `pre` in front puts `pre`
      in front of the whole string. */
  lemma ReplacePrefixBefore(s: string, pat: string, pre: string)
    requires IsPrefix(pat, s)
    ensures ReplaceFirst(s, pat, pre + pat) == pre + s
  {
    ReplaceFirstAtStart(s, pat, pre + pat);
    assert s == pat + s[|pat|..];
  }

  /** `c.toUpperCase()` for a single character, on the ASCII letters. */
  function ToUpper(c: char): (r: char)
    ensures 'a' <= c <= 'z' ==> 'A' <= r <= 'Z' && r as int == c as int - 32
    ensures !('a' <= c <= 'z') ==> r == c
  {
    if 'a' <= c <= 'z' then (c as int - 32) as char else c
  }

  /** `s.charAt(0).toUpperCase() + s.slice(1)` */
  function Capitalize(s: string): (r: string)
    ensures |r| == |s|
    ensures |s| > 0 ==> r[0] == ToUpper(s[0]) && r[1..] == s[1..]
  {
    if |s| == 0 then "" else [ToUpper(s[0])] + s[1..]
  }
}
