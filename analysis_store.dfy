/** The state of `AnalysisProvider`: the text being edited, the busy flag,
    the current analysis and the history of analyses, newest first. The
    history updaters handed to `setAnalysisHistory` are pure functions of the
    previous list; the provider applies them to its field. */
module AnalysisStore {
  import opened Wrappers
  import opened JsString
  import opened Seqs
  import opened Words
  import opened Analysis

  // ----- the history updaters -----

  /** `(prev) => [analysis, ...prev]` */
  function Prepended(prev: seq<AnalysisResult>, a: AnalysisResult): seq<AnalysisResult> {
    [a] + prev
  }

  /** `(prev) => prev.filter((item) => item.id !== id)` */
  function WithoutId(prev: seq<AnalysisResult>, id: string): seq<AnalysisResult>
    decreases |prev|
  {
    if prev == [] then []
    else (if prev[0].id != id then [prev[0]] else []) + WithoutId(prev[1..], id)
  }

  /** Some entry of `h` has the identifier `id`. */
  predicate HasId(h: seq<AnalysisResult>, id: string) {
    exists k :: 0 <= k < |h| && h[k].id == id
  }

  /** Adding puts the new analysis first and keeps the old entries, in order,
      behind it. */
  lemma PrependedProperties(prev: seq<AnalysisResult>, a: AnalysisResult)
    ensures |Prepended(prev, a)| == |prev| + 1
    ensures Prepended(prev, a)[0] == a
    ensures forall k :: 0 <= k < |prev| ==> Prepended(prev, a)[k + 1] == prev[k]
    ensures IsSubseq(prev, Prepended(prev, a))
  {
    var r := Prepended(prev, a);
    SubseqRefl(prev);
    SubseqConcat([], [a], prev, prev);
  }

  /** The filter keeps an entry exactly as often as the list holds it when its
      identifier differs, and never otherwise. */
  lemma {:induction false} WithoutIdCounts(prev: seq<AnalysisResult>, id: string)
    ensures forall x :: multiset(WithoutId(prev, id))[x] == if x.id == id then 0 else multiset(prev)[x]
    decreases |prev|
  {
    if prev != [] {
      var head, tail := prev[0], prev[1..];
      WithoutIdCounts(tail, id);
      assert prev == [head] + tail;
      var keep := if head.id != id then [head] else [];
      assert WithoutId(prev, id) == keep + WithoutId(tail, id);
    }
  }

  /** The filter keeps exactly the entries whose identifier differs. */
  lemma WithoutIdMembers(prev: seq<AnalysisResult>, id: string)
    ensures forall x :: x in WithoutId(prev, id) <==> x in prev && x.id != id
    ensures !HasId(WithoutId(prev, id), id)
  {
    WithoutIdCounts(prev, id);
    var r := WithoutId(prev, id);
    forall x ensures x in r <==> x in prev && x.id != id {
      assert x in r <==> multiset(r)[x] > 0;
      assert x in prev <==> multiset(prev)[x] > 0;
    }
    forall k | 0 <= k < |r| ensures r[k].id != id {
      assert r[k] in r;
    }
  }

  /** The kept entries keep their relative order. */
  lemma {:induction false} WithoutIdIsSubseq(prev: seq<AnalysisResult>, id: string)
    ensures IsSubseq(WithoutId(prev, id), prev)
    decreases |prev|
  {
    if prev == [] {
      SubseqRefl(prev);
    } else {
      var head, tail := prev[0], prev[1..];
      WithoutIdIsSubseq(tail, id);
      var keep := if head.id != id then [head] else [];
      assert prev == [head] + tail;
      if head.id != id {
        SubseqRefl(keep);
      }
      SubseqConcat(keep, [head], WithoutId(tail, id), tail);
    }
  }

  /** Removing an identifier no entry has changes nothing. */
  lemma {:induction false} WithoutAbsentId(prev: seq<AnalysisResult>, id: string)
    requires !HasId(prev, id)
    ensures WithoutId(prev, id) == prev
    decreases |prev|
  {
    if prev != [] {
      var tail := prev[1..];
      forall k | 0 <= k < |tail| ensures tail[k].id != id {
        assert tail[k] == prev[k + 1];
      }
      WithoutAbsentId(tail, id);
      assert prev[0].id != id;
      assert prev == [prev[0]] + tail;
    }
  }

  /** Removing twice is removing once. */
  lemma WithoutIdIdempotent(prev: seq<AnalysisResult>, id: string)
    ensures WithoutId(WithoutId(prev, id), id) == WithoutId(prev, id)
  {
    WithoutIdMembers(prev, id);
    WithoutAbsentId(WithoutId(prev, id), id);
  }

  /** Removing the identifier of an analysis just added, when the history had
      no entry with it before, restores the history. */
  lemma RemoveUndoesAdd(prev: seq<AnalysisResult>, a: AnalysisResult)
    requires !HasId(prev, a.id)
    ensures WithoutId(Prepended(prev, a), a.id) == prev
  {
    var r := Prepended(prev, a);
    assert r[0] == a && r[1..] == prev;
    WithoutAbsentId(prev, a.id);
  }

  // ----- the guard -----

  /** `!text.trim() || isAnalyzing`: the condition under which
      `performAnalysis` returns at once and the submit button is disabled. */
  predicate Refused(text: string, isAnalyzing: bool) {
    Trim(text) == "" || isAnalyzing
  }

  /** Analysis is refused exactly when the analyser is busy or the text has
      no words. */
  lemma RefusedIffNoWords(text: string, isAnalyzing: bool)
    ensures Refused(text, isAnalyzing) <==> IsBlank(text) || isAnalyzing
    ensures Refused(text, isAnalyzing) <==> SplitWords(text) == [] || isAnalyzing
  {
    TrimEmptyIffBlank(text);
    BlankIffNoWords(text);
  }

  // ----- the provider -----

  /** `AnalysisProvider`: its four pieces of state and the operations on them. */
  class AnalysisProvider {
    var text: string
    var isAnalyzing: bool
    var currentAnalysis: Option<AnalysisResult>
    var analysisHistory: seq<AnalysisResult>

    /** The initial state of the four `useState` hooks. */
    constructor()
      ensures text == "" && !isAnalyzing && currentAnalysis == None && analysisHistory == []
    {
      text := "";
      isAnalyzing := false;
      currentAnalysis := None;
      analysisHistory := [];
    }

    method SetText(t: string)
      modifies this
      ensures text == t
      ensures isAnalyzing == old(isAnalyzing) && currentAnalysis == old(currentAnalysis)
      ensures analysisHistory == old(analysisHistory)
    {
      text := t;
    }

    method SetIsAnalyzing(b: bool)
      modifies this
      ensures isAnalyzing == b
      ensures text == old(text) && currentAnalysis == old(currentAnalysis)
      ensures analysisHistory == old(analysisHistory)
    {
      isAnalyzing := b;
    }

    method SetCurrentAnalysis(a: Option<AnalysisResult>)
      modifies this
      ensures currentAnalysis == a
      ensures text == old(text) && isAnalyzing == old(isAnalyzing)
      ensures analysisHistory == old(analysisHistory)
    {
      currentAnalysis := a;
    }

    /** `addToHistory`: the analysis goes in front. */
    method AddToHistory(a: AnalysisResult)
      modifies this
      ensures analysisHistory == Prepended(old(analysisHistory), a)
      ensures text == old(text) && isAnalyzing == old(isAnalyzing)
      ensures currentAnalysis == old(currentAnalysis)
    {
      analysisHistory := Prepended(analysisHistory, a);
    }

    /** `clearHistory`: the history empties and nothing else changes. */
    method ClearHistory()
      modifies this
      ensures analysisHistory == []
      ensures text == old(text) && isAnalyzing == old(isAnalyzing)
      ensures currentAnalysis == old(currentAnalysis)
    {
      analysisHistory := [];
    }

    /** `removeFromHistory`: every entry with identifier `id` goes. */
    method RemoveFromHistory(id: string)
      modifies this
      ensures analysisHistory == WithoutId(old(analysisHistory), id)
      ensures text == old(text) && isAnalyzing == old(isAnalyzing)
      ensures currentAnalysis == old(currentAnalysis)
    {
      analysisHistory := WithoutId(analysisHistory, id);
    }

    /** `performAnalysis`, run to completion. `d`, `id` and `now` are what
        the random draws and the clock of `analyzeText` return; `fails` says
        whether the awaited analysis throws. Refused, nothing changes;
        otherwise the flag is down again afterwards and, on success only, the
        result is current and first in the history. */
    method PerformAnalysis(d: Draws, id: string, now: nat, fails: bool)
      modifies this
      ensures text == old(text)
      ensures Refused(old(text), old(isAnalyzing)) ==>
        isAnalyzing == old(isAnalyzing) && currentAnalysis == old(currentAnalysis)
        && analysisHistory == old(analysisHistory)
      ensures !Refused(old(text), old(isAnalyzing)) ==> !isAnalyzing
      ensures !Refused(old(text), old(isAnalyzing)) && !fails ==>
        var result := AnalysisOf(old(text), d, id, now);
        currentAnalysis == Some(result) && analysisHistory == Prepended(old(analysisHistory), result)
      ensures !Refused(old(text), old(isAnalyzing)) && fails ==>
        currentAnalysis == old(currentAnalysis) && analysisHistory == old(analysisHistory)
    {
      if Refused(text, isAnalyzing) {
        return;
      }
      SetIsAnalyzing(true);
      if !fails {
        var result := AnalyzeText(text, d, id, now);
        SetCurrentAnalysis(Some(result));
        AddToHistory(result);
      }
      SetIsAnalyzing(false);
    }
  }
}
