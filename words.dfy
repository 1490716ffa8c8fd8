/** The analyser's word list, `text.split(/\s+/).filter(Boolean)`: the
    maximal runs of non-white-space characters of the text, in text order.
    Each word is given together with the span of the text it was cut from,
    which is what lets the entity offsets be related to the words. */
module Words {
  import opened JsString

  /** A half-open range of character positions. */
  datatype Span = Span(start: nat, end: nat)

  /** No character of `w` is white space. */
  predicate NoSpace(w: string) {
    forall i :: 0 <= i < |w| ==> !IsSpace(w[i])
  }

  /** The first position at or after `i` that is not white space (or the end). */
  function SkipSpaces(t: string, i: nat): (j: nat)
    requires i <= |t|
    ensures i <= j <= |t|
    ensures j < |t| ==> !IsSpace(t[j])
    ensures IsBlank(t[i..j])
    ensures forall k :: i <= k < j ==> IsSpace(t[k])
    decreases |t| - i
  {
    if i < |t| && IsSpace(t[i]) then
      var j := SkipSpaces(t, i + 1);
      assert t[i..j] == [t[i]] + t[i + 1..j];
      j
    else i
  }

  /** The first position at or after `i` that is white space (or the end). */
  function SkipWord(t: string, i: nat): (j: nat)
    requires i <= |t|
    ensures i <= j <= |t|
    ensures j < |t| ==> IsSpace(t[j])
    ensures NoSpace(t[i..j])
    decreases |t| - i
  {
    if i < |t| && !IsSpace(t[i]) then
      var j := SkipWord(t, i + 1);
      assert t[i..j] == [t[i]] + t[i + 1..j];
      j
    else i
  }

  /** What the spans found from position `i` on promise: each lies in
      [i, |t|], is non-empty, holds no white space and is maximal (bounded by
      white space or the ends of the scanned range), and the spans are
      strictly increasing with white space between them. */
  ghost predicate WellFormed(t: string, i: nat, r: seq<Span>) {
    SpansInRange(t, i, r) && SpansMaximal(t, r) && SpansIncreasing(r)
  }

  ghost predicate SpansInRange(t: string, i: nat, r: seq<Span>) {
    && (forall k :: 0 <= k < |r| ==> i <= r[k].start < r[k].end <= |t|)
    && (forall k :: 0 <= k < |r| ==> NoSpace(t[r[k].start..r[k].end]))
  }

  ghost predicate SpansMaximal(t: string, r: seq<Span>) {
    && (forall k :: 0 <= k < |r| ==> r[k].end <= |t| && (r[k].end == |t| || IsSpace(t[r[k].end])))
    && (forall k :: 0 <= k < |r| ==> r[k].start <= |t| && (r[k].start == 0 || IsSpace(t[r[k].start - 1])))
  }

  ghost predicate SpansIncreasing(r: seq<Span>) {
    forall k :: 0 <= k < |r| - 1 ==> r[k].end < r[k + 1].start
  }

  /** No word of `t` can start strictly inside a run that crosses `i`. */
  predicate Boundary(t: string, i: nat)
    requires i <= |t|
  {
    i == 0 || i == |t| || IsSpace(t[i - 1]) || IsSpace(t[i])
  }

  /** The spans of the words of `t[i..]`. */
  function SpansFrom(t: string, i: nat): (r: seq<Span>)
    requires i <= |t|
    requires Boundary(t, i)
    ensures WellFormed(t, i, r)
    decreases |t| - i
  {
    var s := SkipSpaces(t, i);
    if s == |t| then []
    else
      var e := SkipWord(t, s);
      assert s > i ==> t[s - 1] == t[i..s][s - 1 - i];
      var rest := SpansFrom(t, e);
      WellFormedCons(t, i, s, e, rest);
      [Span(s, e)] + rest
  }

  /** One more word in front of well-formed spans. */
  lemma WellFormedCons(t: string, i: nat, s: nat, e: nat, rest: seq<Span>)
    requires i <= s < e <= |t|
    requires NoSpace(t[s..e]) && (e == |t| || IsSpace(t[e])) && (s == 0 || IsSpace(t[s - 1]))
    requires WellFormed(t, e, rest)
    ensures WellFormed(t, i, [Span(s, e)] + rest)
  {
    var r := [Span(s, e)] + rest;
    ConsInRange(t, i, s, e, rest, r);
    ConsMaximal(t, s, e, rest, r);
    ConsIncreasing(t, s, e, rest, r);
  }

  lemma ConsInRange(t: string, i: nat, s: nat, e: nat, rest: seq<Span>, r: seq<Span>)
    requires i <= s < e <= |t| && NoSpace(t[s..e])
    requires SpansInRange(t, e, rest) && r == [Span(s, e)] + rest
    ensures SpansInRange(t, i, r)
  {
    forall k | 0 <= k < |r| ensures i <= r[k].start < r[k].end <= |t| && NoSpace(t[r[k].start..r[k].end]) {
      if k > 0 { assert r[k] == rest[k - 1]; }
    }
  }

  lemma ConsMaximal(t: string, s: nat, e: nat, rest: seq<Span>, r: seq<Span>)
    requires s < e <= |t| && (e == |t| || IsSpace(t[e])) && (s == 0 || IsSpace(t[s - 1]))
    requires SpansMaximal(t, rest) && r == [Span(s, e)] + rest
    ensures SpansMaximal(t, r)
  {
    forall k | 0 <= k < |r| ensures r[k].end <= |t| && (r[k].end == |t| || IsSpace(t[r[k].end])) {
      if k > 0 { assert r[k] == rest[k - 1]; }
    }
    forall k | 0 <= k < |r| ensures r[k].start <= |t| && (r[k].start == 0 || IsSpace(t[r[k].start - 1])) {
      if k > 0 { assert r[k] == rest[k - 1]; }
    }
  }

  lemma ConsIncreasing(t: string, s: nat, e: nat, rest: seq<Span>, r: seq<Span>)
    requires e <= |t| && SpansInRange(t, e, rest) && SpansMaximal(t, rest)
    requires SpansIncreasing(rest) && r == [Span(s, e)] + rest
    requires e == |t| || IsSpace(t[e])
    ensures SpansIncreasing(r)
  {
    forall k | 0 <= k < |r| - 1 ensures r[k].end < r[k + 1].start {
      if k > 0 {
        assert r[k] == rest[k - 1] && r[k + 1] == rest[k];
      } else {
        var f := rest[0];
        assert r[1] == f;
        assert t[f.start..f.end][0] == t[f.start];
      }
    }
  }

  /** The spans of the words of `t`. */
  function WordSpans(t: string): (r: seq<Span>)
    ensures WellFormed(t, 0, r)
  {
    SpansFrom(t, 0)
  }

  /** `t.split(/\s+/).filter(Boolean)` */
  function SplitWords(t: string): (ws: seq<string>)
    ensures |ws| == |WordSpans(t)|
    ensures forall k :: 0 <= k < |ws| ==> ws[k] == t[WordSpans(t)[k].start..WordSpans(t)[k].end]
  {
    var sp := WordSpans(t);
    seq(|sp|, k requires 0 <= k < |sp| => t[sp[k].start..sp[k].end])
  }

  /** The positions at which the words of `t` start. */
  function WordStarts(t: string): (r: seq<nat>)
    ensures |r| == |WordSpans(t)|
    ensures forall k :: 0 <= k < |r| ==> r[k] == WordSpans(t)[k].start
  {
    var sp := WordSpans(t);
    seq(|sp|, k requires 0 <= k < |sp| => sp[k].start)
  }

  /** Every word is non-empty and free of white space; word `k` occurs in the
      text at its span, and the spans strictly increase, so the words are in
      text order. */
  lemma SplitWordsShape(t: string)
    ensures forall w :: w in SplitWords(t) ==> |w| > 0 && NoSpace(w)
    ensures forall k :: 0 <= k < |SplitWords(t)| ==>
      var sp := WordSpans(t)[k]; sp.end == sp.start + |SplitWords(t)[k]| <= |t| && MatchAt(t, SplitWords(t)[k], sp.start)
  {
    var ws, sp := SplitWords(t), WordSpans(t);
    forall k | 0 <= k < |ws|
      ensures |ws[k]| > 0 && NoSpace(ws[k])
      ensures sp[k].end == sp[k].start + |ws[k]| <= |t| && MatchAt(t, ws[k], sp[k].start)
    {
      assert ws[k] == t[sp[k].start..sp[k].end];
    }
    forall w | w in ws ensures |w| > 0 && NoSpace(w) {
      var k :| 0 <= k < |ws| && ws[k] == w;
    }
  }

  /** The spans from a position before a word: that word, then the rest. */
  lemma SpansFromUnfold(t: string, i: nat, s: nat, e: nat)
    requires i <= |t| && Boundary(t, i)
    requires s == SkipSpaces(t, i) < |t| && e == SkipWord(t, s)
    ensures Boundary(t, e)
    ensures SpansFrom(t, i) == [Span(s, e)] + SpansFrom(t, e)
  {
  }

  /** Nothing but white space is dropped: every other character of the text
      lies in the span of some word. */
  lemma {:induction false} NonSpaceCovered(t: string, i: nat, p: nat)
    requires i <= p < |t| && !IsSpace(t[p])
    requires Boundary(t, i)
    ensures exists k :: 0 <= k < |SpansFrom(t, i)| && SpansFrom(t, i)[k].start <= p < SpansFrom(t, i)[k].end
    decreases |t| - i
  {
    var s := SkipSpaces(t, i);
    assert s <= p;
    var e := SkipWord(t, s);
    SpansFromUnfold(t, i, s, e);
    var r, rest := SpansFrom(t, i), SpansFrom(t, e);
    if p < e {
      assert r[0] == Span(s, e);
    } else {
      NonSpaceCovered(t, e, p);
      var k :| 0 <= k < |rest| && rest[k].start <= p < rest[k].end;
      assert r[k + 1] == rest[k];
    }
  }

  /** The whole text is blank exactly when it has no words — the condition
      `!text.trim()` under which analysis is refused. */
  lemma BlankIffNoWords(t: string)
    ensures IsBlank(t) <==> SplitWords(t) == []
  {
    if !IsBlank(t) {
      var p :| 0 <= p < |t| && !IsSpace(t[p]);
      NonSpaceCovered(t, 0, p);
    }
  }
}
