/** The entity view: `renderTextWithEntities` cuts the analysed text into
    plain and highlighted fragments along the entities sorted by start, and
    the legend lists each entity label once, capitalised. */
module EntityRecognition {
  import opened JsString
  import opened Seqs
  import opened Analysis

  /** A `<span>` of the rendered text: a stretch of plain text, or the text
      of one entity with its label (the `entity-<label>` class and title). */
  datatype Fragment = Plain(text: string) | Highlight(text: string, entity: string)

  // ----- the stable sort by start -----

  /** Each entity starts no earlier than the one before it. */
  predicate SortedByStart(es: seq<EntityTag>) {
    forall k :: 0 <= k < |es| - 1 ==> es[k].start <= es[k + 1].start
  }

  /** `e` inserted into a sorted list after every entity that starts no
      later than it. */
  function InsertByStart(e: EntityTag, s: seq<EntityTag>): (r: seq<EntityTag>)
    ensures |r| == |s| + 1
    decreases |s|
  {
    if s == [] then [e]
    else if e.start < s[0].start then [e] + s
    else [s[0]] + InsertByStart(e, s[1..])
  }

  /** `[...entities].sort((a, b) => a.start - b.start)`: a stable sort by
      start, as `Array.prototype.sort` is. */
  function SortByStart(es: seq<EntityTag>): (r: seq<EntityTag>)
    ensures |r| == |es|
    decreases |es|
  {
    if es == [] then [] else InsertByStart(es[|es| - 1], SortByStart(es[..|es| - 1]))
  }

  /** The tail of a sorted list is sorted. */
  lemma SortedTail(s: seq<EntityTag>)
    requires SortedByStart(s) && s != []
    ensures SortedByStart(s[1..])
  {
    var t := s[1..];
    forall k | 0 <= k < |t| - 1 ensures t[k].start <= t[k + 1].start {
      assert t[k] == s[k + 1] && t[k + 1] == s[k + 2];
    }
  }

  /** Inserting adds exactly `e`. */
  lemma {:induction false} InsertByStartPermutation(e: EntityTag, s: seq<EntityTag>)
    ensures multiset(InsertByStart(e, s)) == multiset(s) + multiset{e}
    decreases |s|
  {
    if s != [] && e.start >= s[0].start {
      var head, tail := s[0], s[1..];
      InsertByStartPermutation(e, tail);
      assert InsertByStart(e, s) == [head] + InsertByStart(e, tail);
      assert s == [head] + tail;
    }
  }

  /** Inserting keeps a sorted list sorted, and puts `e` or the old first
      entity first. */
  lemma {:induction false} InsertByStartSorted(e: EntityTag, s: seq<EntityTag>)
    requires SortedByStart(s)
    ensures SortedByStart(InsertByStart(e, s))
    ensures InsertByStart(e, s)[0] == e || (s != [] && InsertByStart(e, s)[0] == s[0])
    decreases |s|
  {
    if s != [] && e.start >= s[0].start {
      var head, tail := s[0], s[1..];
      SortedTail(s);
      InsertByStartSorted(e, tail);
      var t := InsertByStart(e, tail);
      var r := [head] + t;
      assert r == InsertByStart(e, s);
      forall k | 0 <= k < |r| - 1 ensures r[k].start <= r[k + 1].start {
        if k > 0 {
          assert r[k] == t[k - 1] && r[k + 1] == t[k];
        } else if tail != [] && t[0] == tail[0] {
          assert s[1] == tail[0];
        }
      }
    }
  }

  /** The sort is a permutation of its input. */
  lemma {:induction false} SortByStartPermutation(es: seq<EntityTag>)
    ensures multiset(SortByStart(es)) == multiset(es)
    decreases |es|
  {
    if es != [] {
      var init, last := es[..|es| - 1], es[|es| - 1];
      SortByStartPermutation(init);
      InsertByStartPermutation(last, SortByStart(init));
      assert SortByStart(es) == InsertByStart(last, SortByStart(init));
      assert es == init + [last];
      assert multiset(es) == multiset(init) + multiset{last};
    }
  }

  /** The sort is sorted. */
  lemma {:induction false} SortByStartIsSorted(es: seq<EntityTag>)
    ensures SortedByStart(SortByStart(es))
    decreases |es|
  {
    if es != [] {
      var init, last := es[..|es| - 1], es[|es| - 1];
      SortByStartIsSorted(init);
      InsertByStartSorted(last, SortByStart(init));
      assert SortByStart(es) == InsertByStart(last, SortByStart(init));
    }
  }

  /** The entities of `es` that start at `v`, in order. */
  function WithStart(es: seq<EntityTag>, v: int): seq<EntityTag>
    decreases |es|
  {
    if es == [] then [] else (if es[0].start == v then [es[0]] else []) + WithStart(es[1..], v)
  }

  lemma {:induction false} WithStartAppend(a: seq<EntityTag>, b: seq<EntityTag>, v: int)
    ensures WithStart(a + b, v) == WithStart(a, v) + WithStart(b, v)
    decreases |a|
  {
    if a != [] {
      var h := if a[0].start == v then [a[0]] else [];
      assert (a + b)[0] == a[0] && (a + b)[1..] == a[1..] + b;
      WithStartAppend(a[1..], b, v);
      calc {
        WithStart(a + b, v);
        h + WithStart(a[1..] + b, v);
        h + (WithStart(a[1..], v) + WithStart(b, v));
        (h + WithStart(a[1..], v)) + WithStart(b, v);
      }
    } else {
      assert a + b == b;
    }
  }

  lemma WithStartOne(e: EntityTag, v: int)
    ensures WithStart([e], v) == if e.start == v then [e] else []
  {
    assert [e][0] == e && [e][1..] == [];
  }

  /** No entity of a sorted list that starts after `v` is kept. */
  lemma {:induction false} WithStartAbove(s: seq<EntityTag>, v: int)
    requires SortedByStart(s) && (s != [] ==> s[0].start > v)
    ensures WithStart(s, v) == []
    decreases |s|
  {
    if s != [] {
      var tail := s[1..];
      SortedTail(s);
      if tail != [] {
        assert tail[0] == s[1];
      }
      WithStartAbove(tail, v);
    }
  }

  /** Inserting keeps the order among entities of equal start: `e` comes
      after all earlier ones. */
  lemma {:induction false} InsertByStartStable(e: EntityTag, s: seq<EntityTag>, v: int)
    requires SortedByStart(s)
    ensures WithStart(InsertByStart(e, s), v) == WithStart(s, v) + (if e.start == v then [e] else [])
    decreases |s|
  {
    var extra := if e.start == v then [e] else [];
    if s == [] {
      WithStartOne(e, v);
    } else if e.start < s[0].start {
      assert InsertByStart(e, s) == [e] + s;
      WithStartAppend([e], s, v);
      WithStartOne(e, v);
      if e.start == v {
        WithStartAbove(s, v);
      }
    } else {
      var head, tail := s[0], s[1..];
      SortedTail(s);
      InsertByStartStable(e, tail, v);
      var t := InsertByStart(e, tail);
      assert InsertByStart(e, s) == [head] + t;
      WithStartAppend([head], t, v);
      WithStartAppend([head], tail, v);
      assert [head] + tail == s;
      var h := WithStart([head], v);
      calc {
        WithStart(InsertByStart(e, s), v);
        h + WithStart(t, v);
        h + (WithStart(tail, v) + extra);
        (h + WithStart(tail, v)) + extra;
        WithStart(s, v) + extra;
      }
    }
  }

  /** The sort is stable: the entities of each start value keep their
      relative order. */
  lemma {:induction false} SortByStartStable(es: seq<EntityTag>, v: int)
    ensures WithStart(SortByStart(es), v) == WithStart(es, v)
    decreases |es|
  {
    if es != [] {
      var init, last := es[..|es| - 1], es[|es| - 1];
      SortByStartStable(init, v);
      SortByStartIsSorted(init);
      InsertByStartStable(last, SortByStart(init), v);
      assert SortByStart(es) == InsertByStart(last, SortByStart(init));
      assert es == init + [last];
      WithStartAppend(init, [last], v);
      WithStartOne(last, v);
    }
  }

  /** Inserting an entity that starts no earlier than all others appends it. */
  lemma {:induction false} InsertByStartAtEnd(e: EntityTag, s: seq<EntityTag>)
    requires forall k :: 0 <= k < |s| ==> s[k].start <= e.start
    ensures InsertByStart(e, s) == s + [e]
    decreases |s|
  {
    if s != [] {
      InsertByStartAtEnd(e, s[1..]);
      assert [s[0]] + (s[1..] + [e]) == s + [e];
    }
  }

  /** Each entity starts no earlier than any entity before it. */
  lemma {:induction false} SortedAllPairs(es: seq<EntityTag>, j: nat)
    requires SortedByStart(es) && j < |es|
    ensures forall k :: 0 <= k < j ==> es[k].start <= es[j].start
    decreases j
  {
    if j > 0 {
      SortedAllPairs(es, j - 1);
    }
  }

  /** Sorting a sorted list changes nothing. */
  lemma {:induction false} SortByStartSorted(es: seq<EntityTag>)
    requires SortedByStart(es)
    ensures SortByStart(es) == es
    decreases |es|
  {
    if es != [] {
      var n := |es| - 1;
      var init := es[..n];
      assert SortedByStart(init) by {
        forall k | 0 <= k < |init| - 1 ensures init[k].start <= init[k + 1].start {
          assert init[k] == es[k] && init[k + 1] == es[k + 1];
        }
      }
      SortByStartSorted(init);
      SortedAllPairs(es, n);
      InsertByStartAtEnd(es[n], init);
      assert init + [es[n]] == es;
    }
  }

  // ----- the fragments -----

  /** The fragments of the loop from the sorted entities `es` on, with
      `lastIndex` at `last`, followed by the trailing text. */
  function FragmentsFrom(text: string, es: seq<EntityTag>, last: int): seq<Fragment>
    decreases |es|
  {
    if es == [] then
      if last < |text| then [Plain(SubstringFrom(text, last))] else []
    else
      var e := es[0];
      (if e.start > last then [Plain(Substring(text, last, e.start))] else [])
      + [Highlight(Substring(text, e.start, e.end), e.entity)]
      + FragmentsFrom(text, es[1..], e.end)
  }

  /** `renderTextWithEntities()`: the whole text without entities, otherwise
      the fragments along the entities sorted by start. */
  function Render(text: string, entities: seq<EntityTag>): seq<Fragment> {
    if |entities| == 0 then [Plain(text)] else FragmentsFrom(text, SortByStart(entities), 0)
  }

  /** The fragment loop of `renderTextWithEntities`. */
  method RenderTextWithEntities(text: string, entities: seq<EntityTag>) returns (fragments: seq<Fragment>)
    ensures fragments == Render(text, entities)
    ensures |entities| == 0 ==> fragments == [Plain(text)]
  {
    if |entities| == 0 {
      return [Plain(text)];
    }
    var lastIndex := 0;
    fragments := [];
    var sortedEntities := SortByStart(entities);
    var i := 0;
    while i < |sortedEntities|
      invariant i <= |sortedEntities|
      invariant fragments + FragmentsFrom(text, sortedEntities[i..], lastIndex) == FragmentsFrom(text, sortedEntities, 0)
    {
      var entity := sortedEntities[i];
      FragmentsStep(text, sortedEntities, i, lastIndex, fragments);
      if entity.start > lastIndex {
        fragments := fragments + [Plain(Substring(text, lastIndex, entity.start))];
      }
      fragments := fragments + [Highlight(Substring(text, entity.start, entity.end), entity.entity)];
      lastIndex := entity.end;
      i := i + 1;
    }
    FragmentsEnd(text, sortedEntities, lastIndex);
    if lastIndex < |text| {
      fragments := fragments + [Plain(SubstringFrom(text, lastIndex))];
    }
  }

  /** One turn of the fragment loop: the gap, the entity, then the rest. */
  lemma FragmentsStep(text: string, s: seq<EntityTag>, i: nat, last: int, acc: seq<Fragment>)
    requires i < |s|
    ensures acc + FragmentsFrom(text, s[i..], last) ==
      (if s[i].start > last then acc + [Plain(Substring(text, last, s[i].start))] else acc)
      + [Highlight(Substring(text, s[i].start, s[i].end), s[i].entity)]
      + FragmentsFrom(text, s[i + 1..], s[i].end)
  {
    var t := s[i..];
    assert t[0] == s[i] && t[1..] == s[i + 1..];
  }

  /** After the last entity only the trailing text remains. */
  lemma FragmentsEnd(text: string, s: seq<EntityTag>, last: int)
    ensures FragmentsFrom(text, s[|s|..], last) == if last < |text| then [Plain(SubstringFrom(text, last))] else []
  {
    assert s[|s|..] == [];
  }

  /** The text of the fragments, in order. */
  function Concat(fs: seq<Fragment>): string
    decreases |fs|
  {
    if fs == [] then "" else fs[0].text + Concat(fs[1..])
  }

  lemma {:induction false} ConcatAppend(a: seq<Fragment>, b: seq<Fragment>)
    ensures Concat(a + b) == Concat(a) + Concat(b)
    decreases |a|
  {
    if a != [] {
      assert (a + b)[0] == a[0] && (a + b)[1..] == a[1..] + b;
      ConcatAppend(a[1..], b);
      calc {
        Concat(a + b);
        a[0].text + Concat(a[1..] + b);
        a[0].text + (Concat(a[1..]) + Concat(b));
        (a[0].text + Concat(a[1..])) + Concat(b);
      }
    } else {
      assert a + b == b;
    }
  }

  lemma ConcatOne(f: Fragment)
    ensures Concat([f]) == f.text
  {
    assert [f][0] == f && [f][1..] == [];
  }

  /** The highlighted fragments, in order. */
  function Highlights(fs: seq<Fragment>): seq<Fragment>
    decreases |fs|
  {
    if fs == [] then [] else (if fs[0].Highlight? then [fs[0]] else []) + Highlights(fs[1..])
  }

  lemma {:induction false} HighlightsAppend(a: seq<Fragment>, b: seq<Fragment>)
    ensures Highlights(a + b) == Highlights(a) + Highlights(b)
    decreases |a|
  {
    if a != [] {
      var h := if a[0].Highlight? then [a[0]] else [];
      assert (a + b)[0] == a[0] && (a + b)[1..] == a[1..] + b;
      HighlightsAppend(a[1..], b);
      calc {
        Highlights(a + b);
        h + Highlights(a[1..] + b);
        h + (Highlights(a[1..]) + Highlights(b));
        (h + Highlights(a[1..])) + Highlights(b);
      }
    } else {
      assert a + b == b;
    }
  }

  /** The highlighted fragment of each entity: its text `text.substring(start, end)`
      and its label. */
  function EntityFragments(text: string, es: seq<EntityTag>): (r: seq<Fragment>)
    ensures |r| == |es|
  {
    seq(|es|, k requires 0 <= k < |es| => Highlight(Substring(text, es[k].start, es[k].end), es[k].entity))
  }

  /** Exactly one highlighted fragment per entity, in the order of `es`. */
  lemma {:induction false} FragmentsHighlights(text: string, es: seq<EntityTag>, last: int)
    ensures Highlights(FragmentsFrom(text, es, last)) == EntityFragments(text, es)
    decreases |es|
  {
    if es != [] {
      var e := es[0];
      var gap := if e.start > last then [Plain(Substring(text, last, e.start))] else [];
      var h := Highlight(Substring(text, e.start, e.end), e.entity);
      var rest := FragmentsFrom(text, es[1..], e.end);
      FragmentsHighlights(text, es[1..], e.end);
      HighlightsAppend(gap + [h], rest);
      HighlightsAppend(gap, [h]);
      assert Highlights(gap) == [];
      assert Highlights([h]) == [h];
      assert EntityFragments(text, es) == [h] + EntityFragments(text, es[1..]);
    }
  }

  /** The rendered highlights are those of the entities sorted by start
      (none at all without entities). */
  lemma RenderHighlights(text: string, entities: seq<EntityTag>)
    ensures Highlights(Render(text, entities)) == EntityFragments(text, SortByStart(entities))
  {
    if |entities| == 0 {
      assert Highlights([Plain(text)]) == [];
    } else {
      FragmentsHighlights(text, SortByStart(entities), 0);
    }
  }

  /** Every entity lies within the text. */
  predicate InBounds(text: string, es: seq<EntityTag>) {
    forall k :: 0 <= k < |es| ==> 0 <= es[k].start <= es[k].end <= |text|
  }

  /** Within bounds no empty plain fragment is emitted: a gap only when the
      entity starts after `lastIndex`, the tail only when text remains. */
  lemma {:induction false} FragmentsNoEmptyPlain(text: string, es: seq<EntityTag>, last: int)
    requires InBounds(text, es) && 0 <= last
    ensures forall k :: 0 <= k < |FragmentsFrom(text, es, last)| ==>
      FragmentsFrom(text, es, last)[k].Plain? ==> |FragmentsFrom(text, es, last)[k].text| > 0
    decreases |es|
  {
    if es != [] {
      var e := es[0];
      var gap := if e.start > last then [Plain(Substring(text, last, e.start))] else [];
      var head := gap + [Highlight(Substring(text, e.start, e.end), e.entity)];
      var rest := FragmentsFrom(text, es[1..], e.end);
      assert InBounds(text, es[1..]) by {
        forall k | 0 <= k < |es[1..]| ensures 0 <= es[1..][k].start <= es[1..][k].end <= |text| {
          assert es[1..][k] == es[k + 1];
        }
      }
      FragmentsNoEmptyPlain(text, es[1..], e.end);
      var fs := FragmentsFrom(text, es, last);
      assert fs == head + rest;
      forall k | 0 <= k < |fs| && fs[k].Plain? ensures |fs[k].text| > 0 {
        if k >= |head| {
          assert fs[k] == rest[k - |head|];
        }
      }
    }
  }

  /** For a non-empty entity list within bounds, no rendered plain fragment
      is empty. */
  lemma RenderNoEmptyPlain(text: string, entities: seq<EntityTag>)
    requires |entities| > 0 && InBounds(text, entities)
    ensures forall k :: 0 <= k < |Render(text, entities)| ==>
      Render(text, entities)[k].Plain? ==> |Render(text, entities)[k].text| > 0
  {
    var s := SortByStart(entities);
    SortByStartPermutation(entities);
    forall k | 0 <= k < |s| ensures 0 <= s[k].start <= s[k].end <= |text| {
      assert s[k] in multiset(entities);
      var j :| 0 <= j < |entities| && entities[j] == s[k];
    }
    FragmentsNoEmptyPlain(text, s, 0);
  }

  /** The entities lie in order between `last` and the end of the text,
      none overlapping the next. */
  predicate Placed(text: string, es: seq<EntityTag>, last: int)
    decreases |es|
  {
    0 <= last && if es == [] then last <= |text| else last <= es[0].start <= es[0].end && Placed(text, es[1..], es[0].end)
  }

  /** Placed entities cut the text from `last` on into fragments that
      concatenate back to exactly that text. */
  lemma {:induction false} FragmentsRoundTrip(text: string, es: seq<EntityTag>, last: int)
    requires Placed(text, es, last)
    ensures 0 <= last <= |text|
    ensures Concat(FragmentsFrom(text, es, last)) == text[last..]
    decreases |es|
  {
    if es == [] {
      if last < |text| {
        assert Concat([Plain(text[last..])]) == text[last..] + Concat([]);
      }
    } else {
      var e, tail := es[0], es[1..];
      var next := e.end;
      FragmentsRoundTrip(text, tail, next);
      var gap := if e.start > last then [Plain(Substring(text, last, e.start))] else [];
      var h := Highlight(Substring(text, e.start, next), e.entity);
      var rest := FragmentsFrom(text, tail, next);
      assert FragmentsFrom(text, es, last) == gap + [h] + rest;
      ConcatAppend(gap + [h], rest);
      ConcatAppend(gap, [h]);
      ConcatOne(h);
      if e.start > last {
        ConcatOne(gap[0]);
      }
      assert Concat(gap) == text[last..e.start];
      SliceSplit(text, last, e.start, next);
    }
  }

  /** Valid, ordered entities are placed after any cursor no later than the
      first of them. */
  lemma {:induction false} ValidIsPlaced(text: string, es: seq<EntityTag>, last: int)
    requires ValidEntities(text, es) && 0 <= last <= |text| && (es != [] ==> last <= es[0].start)
    ensures Placed(text, es, last)
    decreases |es|
  {
    if es != [] {
      var tail := es[1..];
      assert ValidEntity(text, es[0]);
      assert ValidEntities(text, tail) by {
        forall k | 0 <= k < |tail| ensures ValidEntity(text, tail[k]) {
          assert tail[k] == es[k + 1];
        }
        forall k | 0 <= k < |tail| - 1 ensures tail[k].end <= tail[k + 1].start {
          assert tail[k] == es[k + 1] && tail[k + 1] == es[k + 2];
        }
      }
      if tail != [] {
        assert es[0].end <= es[1].start;
      }
      ValidIsPlaced(text, tail, es[0].end);
    }
  }

  /** Valid entities are sorted by start. */
  lemma ValidIsSorted(text: string, es: seq<EntityTag>)
    requires ValidEntities(text, es)
    ensures SortedByStart(es)
  {
    forall k | 0 <= k < |es| - 1 ensures es[k].start <= es[k + 1].start {
      assert ValidEntity(text, es[k]);
    }
  }

  /** Valid entities render back to exactly the text. */
  lemma RenderValidRoundTrip(text: string, es: seq<EntityTag>)
    requires ValidEntities(text, es)
    ensures Concat(Render(text, es)) == text
  {
    if |es| == 0 {
      ConcatOne(Plain(text));
    } else {
      ValidIsSorted(text, es);
      SortByStartSorted(es);
      ValidIsPlaced(text, es, 0);
      FragmentsRoundTrip(text, es, 0);
    }
  }

  /** The analyser's entities are already sorted, and the view renders the
      analysed text back exactly: its fragments concatenate to the text. */
  lemma RenderAnalysisRoundTrip(text: string, d: Draws)
    ensures Concat(Render(text, Entities(text, d))) == text
  {
    var es := Entities(text, d);
    EntitiesProperties(text, d);
    RenderValidRoundTrip(text, es);
  }

  // ----- the legend -----

  /** The labels of the entities, in order. */
  function Labels(es: seq<EntityTag>): (r: seq<string>)
    ensures |r| == |es| && forall k :: 0 <= k < |es| ==> r[k] == es[k].entity
  {
    seq(|es|, k requires 0 <= k < |es| => es[k].entity)
  }

  /** `Array.from(new Set(entities.map(entity => entity.entity)))`. */
  function UniqueEntityTypes(es: seq<EntityTag>): seq<string> {
    Dedup(Labels(es))
  }

  /** Each label appears exactly once, every label of an entity appears, and
      the labels come in the order of their first appearance. */
  lemma UniqueEntityTypesProperties(es: seq<EntityTag>)
    ensures var u := UniqueEntityTypes(es);
      && (forall i, j :: 0 <= i < j < |u| ==> u[i] != u[j])
      && (forall k :: 0 <= k < |es| ==> es[k].entity in u)
      && (forall i :: 0 <= i < |u| ==> u[i] in Labels(es))
      && (forall i, j :: 0 <= i < j < |u| ==> FirstIndex(Labels(es), u[i]) < FirstIndex(Labels(es), u[j]))
  {
    DedupFirstAppearance(Labels(es));
  }

  /** The legend badges: each unique label, capitalised. */
  function LegendLabels(es: seq<EntityTag>): (r: seq<string>)
    ensures |r| == |UniqueEntityTypes(es)|
    ensures forall i :: 0 <= i < |r| ==> r[i] == Capitalize(UniqueEntityTypes(es)[i])
  {
    var u := UniqueEntityTypes(es);
    seq(|u|, i requires 0 <= i < |u| => Capitalize(u[i]))
  }

  /** The legend shows one badge for every label some entity carries and no
      other: badge `i` is unique label `i` with only its first character
      upper-cased. */
  lemma LegendLabelsProperties(es: seq<EntityTag>)
    ensures var r := LegendLabels(es); var u := UniqueEntityTypes(es);
      && |r| == |u|
      && (forall i :: 0 <= i < |r| ==> |r[i]| == |u[i]| && u[i] in Labels(es))
      && (forall i :: 0 <= i < |r| && |u[i]| > 0 ==> r[i][0] == ToUpper(u[i][0]) && r[i][1..] == u[i][1..])
      && (forall k :: 0 <= k < |es| ==> Capitalize(es[k].entity) in r)
  {
    var r := LegendLabels(es);
    var u := UniqueEntityTypes(es);
    UniqueEntityTypesProperties(es);
    forall k | 0 <= k < |es| ensures Capitalize(es[k].entity) in r {
      var i :| 0 <= i < |u| && u[i] == es[k].entity;
      assert r[i] == Capitalize(es[k].entity);
    }
  }
}
