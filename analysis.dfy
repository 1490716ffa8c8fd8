/** The mock analyser `analyzeText`: the word list, one random part-of-speech
    tag per word, a few "entities" located in the text with a forward-moving
    `indexOf` cursor, the mock syntax tree, a random sentiment score with
    random positive and negative word lists, a summary and keywords.

    Every `Math.random()` draw is an input: a `Draws` value says what each
    draw returns. */
module Analysis {
  import opened Wrappers
  import opened Tables
  import opened JsString
  import opened Seqs
  import opened Words
  import opened SyntaxTrees

  /** `POSTag`; the field `type` of the record is called `posType` here. */
  datatype POSTag = POSTag(word: string, tag: string, posType: string)

  /** `EntityTag`: the word, its label and the character range it was found at. */
  datatype EntityTag = EntityTag(word: string, entity: string, start: int, end: int)

  /** `SentimentScore`; `comparative` is `None` where the division by the
      word count has no finite value (no words). */
  datatype SentimentScore = SentimentScore(score: real, comparative: Option<real>, positive: seq<string>, negative: seq<string>)

  /** `AnalysisResult`; `timestamp` is the clock reading, an input. */
  datatype AnalysisResult = AnalysisResult(
    id: string,
    text: string,
    timestamp: nat,
    posTagging: seq<POSTag>,
    entities: seq<EntityTag>,
    syntax: SyntaxNode,
    sentiment: SentimentScore,
    summary: string,
    keywords: seq<string>)

  /** The values the `Math.random()` calls of one `analyzeText` return, by
      the word index (or tree node) they are drawn for. */
  datatype Draws = Draws(
    posPick: nat -> PosIndex,           // the tag of word i
    entityRoll: nat -> UnitReal,        // the "about 10%" draw of word i
    entityPick: nat -> EntityIndex,     // the label of the entity found for word i
    tree: TreeDraws,                    // the tags and relations of the tree
    scoreRoll: UnitReal,                // the sentiment score draw
    positiveRoll: nat -> UnitReal,      // the filter draw of word i for `positive`
    negativeRoll: nat -> UnitReal,      // ... for `negative`
    keywordRoll: nat -> UnitReal)       // ... for `keywords`

  /** The mask `i => roll(i) > threshold` of a `filter(() => Math.random() > threshold)`. */
  function Above(roll: nat -> UnitReal, threshold: real): nat -> bool {
    (i: nat) => roll(i) > threshold
  }

  // ----- part-of-speech tags -----

  /** `wordList.map(word => ({ word, tag: posTags[k], type: posTypes[k] }))`. */
  function PosTagging(words: seq<string>, pick: nat -> PosIndex): (r: seq<POSTag>)
    ensures |r| == |words|
    ensures forall i :: 0 <= i < |r| ==> r[i].word == words[i]
  {
    seq(|words|, i requires 0 <= i < |words| => POSTag(words[i], PosTags[pick(i)], PosTypes[pick(i)]))
  }

  /** `tag` and `posType` are entries at the same index of the parallel tables. */
  predicate ParallelEntry(t: POSTag) {
    exists k :: 0 <= k < |PosTags| && PosTags[k] == t.tag && PosTypes[k] == t.posType
  }

  /** Every tag and its type come from the same index of the two tables. */
  lemma PosTaggingParallel(words: seq<string>, pick: nat -> PosIndex)
    ensures forall i :: 0 <= i < |words| ==> ParallelEntry(PosTagging(words, pick)[i])
  {
    var r := PosTagging(words, pick);
    forall i | 0 <= i < |words| ensures ParallelEntry(r[i]) {
      var k := pick(i);
      assert PosTags[k] == r[i].tag && PosTypes[k] == r[i].posType;
    }
  }

  // ----- entities -----

  /** The `indexOf` scan over the word list from word `idx` on, with the
      cursor `startIndex` at `cursor`: a chosen word that is found becomes an
      entity and moves the cursor to its end; a word that is not found or not
      chosen leaves the cursor where it is. */
  function ScanEntities(text: string, words: seq<string>, roll: nat -> UnitReal, pick: nat -> EntityIndex, idx: nat, cursor: int): seq<EntityTag>
    requires idx <= |words|
    decreases |words| - idx
  {
    if idx == |words| then []
    else if roll(idx) > 0.9 then
      var start := IndexOf(text, words[idx], cursor);
      if start != -1 then
        [EntityTag(words[idx], EntityTypes[pick(idx)], start, start + |words[idx]|)]
        + ScanEntities(text, words, roll, pick, idx + 1, start + |words[idx]|)
      else ScanEntities(text, words, roll, pick, idx + 1, cursor)
    else ScanEntities(text, words, roll, pick, idx + 1, cursor)
  }

  /** The entities of the analysis of `text`. */
  function Entities(text: string, d: Draws): seq<EntityTag> {
    ScanEntities(text, SplitWords(text), d.entityRoll, d.entityPick, 0, 0)
  }

  /** The entity loop: `wordList.forEach` pushing into `entities` and
      advancing `startIndex`. */
  method RecognizeEntities(text: string, words: seq<string>, roll: nat -> UnitReal, pick: nat -> EntityIndex)
    returns (entities: seq<EntityTag>)
    ensures entities == ScanEntities(text, words, roll, pick, 0, 0)
    ensures (forall i :: 0 <= i < |words| ==> |words[i]| > 0) ==> ValidEntities(text, entities)
  {
    entities := [];
    var startIndex := 0;
    var idx := 0;
    while idx < |words|
      invariant idx <= |words|
      invariant entities + ScanEntities(text, words, roll, pick, idx, startIndex) == ScanEntities(text, words, roll, pick, 0, 0)
    {
      var word := words[idx];
      if roll(idx) > 0.9 {
        var start := IndexOf(text, word, startIndex);
        if start != -1 {
          var end := start + |word|;
          var entityType := EntityTypes[pick(idx)];
          ScanFound(text, words, roll, pick, idx, startIndex, entities);
          entities := entities + [EntityTag(word, entityType, start, end)];
          startIndex := end;
        } else {
          ScanPassed(text, words, roll, pick, idx, startIndex, entities);
        }
      } else {
        ScanPassed(text, words, roll, pick, idx, startIndex, entities);
      }
      idx := idx + 1;
    }
    assert entities + [] == entities;
    if forall i :: 0 <= i < |words| ==> |words[i]| > 0 {
      ScanValid(text, words, roll, pick, 0, 0);
    }
  }

  /** A turn of the entity loop that records an entity. */
  lemma ScanFound(text: string, words: seq<string>, roll: nat -> UnitReal, pick: nat -> EntityIndex, idx: nat, cursor: int,
                  acc: seq<EntityTag>)
    requires idx < |words| && roll(idx) > 0.9 && IndexOf(text, words[idx], cursor) != -1
    ensures var w := words[idx]; var start := IndexOf(text, w, cursor);
      acc + ScanEntities(text, words, roll, pick, idx, cursor) ==
        (acc + [EntityTag(w, EntityTypes[pick(idx)], start, start + |w|)])
        + ScanEntities(text, words, roll, pick, idx + 1, start + |w|)
  {
  }

  /** A turn of the entity loop that records nothing. */
  lemma ScanPassed(text: string, words: seq<string>, roll: nat -> UnitReal, pick: nat -> EntityIndex, idx: nat, cursor: int,
                   acc: seq<EntityTag>)
    requires idx < |words| && (roll(idx) > 0.9 ==> IndexOf(text, words[idx], cursor) == -1)
    ensures acc + ScanEntities(text, words, roll, pick, idx, cursor) == acc + ScanEntities(text, words, roll, pick, idx + 1, cursor)
  {
  }

  /** One entity: its word occurs in the text from `start` to `end`
      (`text.substring(start, end) === word`), it is not empty, and its label
      is one of `EntityTypes`. */
  predicate ValidEntity(text: string, e: EntityTag) {
    && 0 <= e.start < e.end <= |text|
    && e.end == e.start + |e.word|
    && Substring(text, e.start, e.end) == e.word
    && e.entity in EntityTypes
  }

  /** Valid entities, in strictly increasing, non-overlapping order. */
  predicate ValidEntities(text: string, es: seq<EntityTag>) {
    && (forall k :: 0 <= k < |es| ==> ValidEntity(text, es[k]))
    && (forall k :: 0 <= k < |es| - 1 ==> es[k].end <= es[k + 1].start)
  }

  /** No entity starts before `c`. */
  predicate StartsFrom(es: seq<EntityTag>, c: int) {
    forall k :: 0 <= k < |es| ==> c <= es[k].start
  }

  /** A valid entity in front of valid entities that start at or after its end. */
  lemma ValidEntitiesCons(text: string, e: EntityTag, rest: seq<EntityTag>, c: int)
    requires ValidEntity(text, e) && ValidEntities(text, rest) && StartsFrom(rest, e.end)
    requires c <= e.start
    ensures ValidEntities(text, [e] + rest) && StartsFrom([e] + rest, c)
  {
    var r := [e] + rest;
    forall k | 1 <= k < |r| ensures r[k] == rest[k - 1] { }
    forall k | 0 <= k < |r| - 1 ensures r[k].end <= r[k + 1].start {
      if k > 0 { assert r[k] == rest[k - 1] && r[k + 1] == rest[k]; }
    }
  }

  /** For non-empty words, every entity the scan produces is valid, they
      are ordered, and none starts before the cursor. */
  lemma {:induction false} ScanValid(text: string, words: seq<string>, roll: nat -> UnitReal, pick: nat -> EntityIndex, idx: nat, cursor: nat)
    requires idx <= |words| && cursor <= |text|
    requires forall i :: 0 <= i < |words| ==> |words[i]| > 0
    ensures ValidEntities(text, ScanEntities(text, words, roll, pick, idx, cursor))
    ensures StartsFrom(ScanEntities(text, words, roll, pick, idx, cursor), cursor)
    decreases |words| - idx
  {
    if idx < |words| {
      var w := words[idx];
      var i1 := idx + 1;
      var start := IndexOf(text, w, cursor);
      if roll(idx) > 0.9 && start != -1 {
        var end := start + |w|;
        ScanValid(text, words, roll, pick, i1, end);
        var e := EntityTag(w, EntityTypes[pick(idx)], start, end);
        assert Substring(text, start, end) == w;
        ValidEntitiesCons(text, e, ScanEntities(text, words, roll, pick, i1, end), cursor);
      } else {
        ScanValid(text, words, roll, pick, i1, cursor);
      }
    }
  }

  /** The words of a list of entities. */
  function EntityWords(es: seq<EntityTag>): (r: seq<string>)
    ensures |r| == |es|
    ensures forall k :: 0 <= k < |es| ==> r[k] == es[k].word
  {
    seq(|es|, k requires 0 <= k < |es| => es[k].word)
  }

  /** An entity's word in front of more entities. */
  lemma EntityWordsCons(e: EntityTag, rest: seq<EntityTag>)
    ensures EntityWords([e] + rest) == [e.word] + EntityWords(rest)
  {
  }

  /** Word `k` occurs in the text at `pos[k]` and ends no later than the
      next word begins. */
  predicate Located(text: string, words: seq<string>, pos: seq<nat>) {
    && |pos| == |words|
    && (forall k :: 0 <= k < |words| ==> MatchAt(text, words[k], pos[k]))
    && (forall k :: 0 <= k < |words| - 1 ==> pos[k] + |words[k]| <= pos[k + 1])
  }

  /** The words of a text are located at the starts of their spans. */
  lemma WordsLocated(text: string)
    ensures Located(text, SplitWords(text), WordStarts(text))
  {
    SplitWordsShape(text);
    var words, spans := SplitWords(text), WordSpans(text);
    forall k | 0 <= k < |words| - 1 ensures spans[k].start + |words[k]| <= spans[k + 1].start {
      assert spans[k].end < spans[k + 1].start;
    }
  }

  /** With the cursor no further than the position of word `idx`, that word
      is found, no later than its own position, and the cursor then stays no
      further than the position of the next word. */
  lemma CursorStep(text: string, words: seq<string>, pos: seq<nat>, idx: nat, cursor: nat)
    requires Located(text, words, pos) && idx < |words| && cursor <= pos[idx]
    ensures var start := IndexOf(text, words[idx], cursor);
      && start != -1 && start <= pos[idx]
      && (idx + 1 < |words| ==> start + |words[idx]| <= pos[idx + 1])
  {
    assert MatchAt(text, words[idx], pos[idx]);
  }

  /** With located words and the cursor no further than the position of word
      `idx`, every chosen word is found: the `-1` branch is never taken, and
      the entity words are exactly the chosen words. */
  lemma {:induction false} ScanFindsChosen(text: string, words: seq<string>, pos: seq<nat>,
                                           roll: nat -> UnitReal, pick: nat -> EntityIndex, idx: nat, cursor: nat)
    requires Located(text, words, pos) && idx <= |words|
    requires idx < |words| ==> cursor <= pos[idx]
    ensures EntityWords(ScanEntities(text, words, roll, pick, idx, cursor))
      == SelectFrom(words, Above(roll, 0.9), idx)
    decreases |words| - idx
  {
    if idx < |words| {
      var w := words[idx];
      var i1 := idx + 1;
      CursorStep(text, words, pos, idx, cursor);
      var start := IndexOf(text, w, cursor);
      var end := start + |w|;
      var keep := Above(roll, 0.9);
      assert keep(idx) == (roll(idx) > 0.9);
      if roll(idx) > 0.9 {
        var e := EntityTag(w, EntityTypes[pick(idx)], start, end);
        var rest := ScanEntities(text, words, roll, pick, i1, end);
        assert ScanEntities(text, words, roll, pick, idx, cursor) == [e] + rest;
        assert SelectFrom(words, keep, idx) == [w] + SelectFrom(words, keep, i1);
        ScanFindsChosen(text, words, pos, roll, pick, i1, end);
        EntityWordsCons(e, rest);
      } else {
        assert ScanEntities(text, words, roll, pick, idx, cursor) == ScanEntities(text, words, roll, pick, i1, cursor);
        assert SelectFrom(words, keep, idx) == [] + SelectFrom(words, keep, i1);
        ScanFindsChosen(text, words, pos, roll, pick, i1, cursor);
      }
    }
  }

  /** The entities of an analysis: valid, ordered, and one for each chosen
      word, in word order. */
  lemma EntitiesProperties(text: string, d: Draws)
    ensures ValidEntities(text, Entities(text, d))
    ensures EntityWords(Entities(text, d)) == Select(SplitWords(text), Above(d.entityRoll, 0.9))
  {
    SplitWordsShape(text);
    var words := SplitWords(text);
    forall i | 0 <= i < |words| ensures |words[i]| > 0 {
      assert words[i] in words;
    }
    ScanValid(text, words, d.entityRoll, d.entityPick, 0, 0);
    WordsLocated(text);
    ScanFindsChosen(text, words, WordStarts(text), d.entityRoll, d.entityPick, 0, 0);
  }

  /** `indexOf` may find a chosen word inside an earlier word: in "ab b",
      with only the second word chosen, the entity "b" is placed at offset 1,
      inside "ab", not at the word's own offset 3. */
  lemma EntityMayLandInsideEarlierWord(pick: nat -> EntityIndex)
    ensures var roll: nat -> UnitReal := i => if i == 1 then 0.95 else 0.0;
      var es := ScanEntities("ab b", ["ab", "b"], roll, pick, 0, 0);
      |es| == 1 && es[0].start == 1 && es[0].word == "b"
  {
    var roll: nat -> UnitReal := i => if i == 1 then 0.95 else 0.0;
    assert "ab b"[0..1] == "a" && "a"[0] != "b"[0];
    assert "ab b"[1..2] == "b";
    assert IndexOf("ab b", "b", 0) == 1;
  }

  // ----- sentiment, summary, keywords -----

  /** `Math.random() * 2 - 1`. */
  function MockScore(u: UnitReal): (s: real)
    ensures -1.0 <= s < 1.0
  {
    u * 2.0 - 1.0
  }

  /** `score / wordList.length`, which has no finite value without words. */
  function Comparative(score: real, count: nat): (r: Option<real>)
    ensures r.None? <==> count == 0
    ensures r.Some? ==> r.value * count as real == score
  {
    if count == 0 then None else Some(score / count as real)
  }

  /** `wordList.length > 10 ? text.split(". ").slice(0, 2).join(". ") + "." : text`. */
  function Summary(text: string, wordCount: nat): string {
    if wordCount > 10 then Join(Take(SplitOn(text, ". "), 2), ". ") + "." else text
  }

  /** With at most 10 words the summary is the text; with more it is a
      prefix of the text followed by a full stop. */
  lemma SummaryShape(text: string, wordCount: nat)
    ensures wordCount <= 10 ==> Summary(text, wordCount) == text
    ensures wordCount > 10 ==>
      var s := Summary(text, wordCount);
      |s| >= 1 && s[|s| - 1] == '.' && IsPrefix(s[..|s| - 1], text)
  {
    if wordCount > 10 {
      var j := Join(Take(SplitOn(text, ". "), 2), ". ");
      JoinTakeSplitIsPrefix(text, ". ", 2);
      assert (j + ".")[..|j|] == j;
    }
  }

  /** Without a ". " in the text, the summary of a long text is the text
      with a full stop appended. */
  lemma SummaryWithoutBreak(text: string, wordCount: nat)
    requires wordCount > 10 && IndexOf(text, ". ", 0) == -1
    ensures Summary(text, wordCount) == text + "."
  {
    assert SplitOn(text, ". ") == [text];
  }

  // ----- the whole analysis -----

  /** The result `analyzeText(text)` returns for the given draws, id and
      clock reading. */
  function AnalysisOf(text: string, d: Draws, id: string, now: nat): AnalysisResult {
    var words := SplitWords(text);
    var score := MockScore(d.scoreRoll);
    AnalysisResult(
      id, text, now,
      PosTagging(words, d.posPick),
      Entities(text, d),
      SyntaxTreeOf(words, d.tree),
      SentimentScore(score, Comparative(score, |words|), Select(words, Above(d.positiveRoll, 0.7)), Select(words, Above(d.negativeRoll, 0.7))),
      Summary(text, |words|),
      Take(Select(words, Above(d.keywordRoll, 0.7)), 5))
  }

  /** `analyzeText` after its delay. */
  method AnalyzeText(text: string, d: Draws, id: string, now: nat) returns (r: AnalysisResult)
    ensures r == AnalysisOf(text, d, id, now)
  {
    var wordList := SplitWords(text);
    var posTagging := PosTagging(wordList, d.posPick);
    var entities := RecognizeEntities(text, wordList, d.entityRoll, d.entityPick);
    var syntax := SyntaxTreeOf(wordList, d.tree);
    var sentimentScore := MockScore(d.scoreRoll);
    var positive := Select(wordList, Above(d.positiveRoll, 0.7));
    var negative := Select(wordList, Above(d.negativeRoll, 0.7));
    var sentiment := SentimentScore(sentimentScore, Comparative(sentimentScore, |wordList|), positive, negative);
    var summary := Summary(text, |wordList|);
    var keywords := Take(Select(wordList, Above(d.keywordRoll, 0.7)), 5);
    r := AnalysisResult(id, text, now, posTagging, entities, syntax, sentiment, summary, keywords);
  }

  /** What every analysis satisfies: the text is kept verbatim; there is
      one tag per word; the positive, negative and keyword lists are
      subsequences of the word list and there are at most 5 keywords; the
      score lies in [-1, 1). */
  lemma AnalysisOfProperties(text: string, d: Draws, id: string, now: nat)
    ensures var r := AnalysisOf(text, d, id, now); var words := SplitWords(text);
      && r.text == text && r.id == id && r.timestamp == now
      && |r.posTagging| == |words|
      && (forall i :: 0 <= i < |words| ==> r.posTagging[i].word == words[i] && ParallelEntry(r.posTagging[i]))
      && IsSubseq(r.sentiment.positive, words)
      && IsSubseq(r.sentiment.negative, words)
      && IsSubseq(r.keywords, words) && |r.keywords| <= 5
      && -1.0 <= r.sentiment.score < 1.0
  {
    var words := SplitWords(text);
    PosTaggingParallel(words, d.posPick);
    SelectIsSubseq(words, Above(d.positiveRoll, 0.7));
    SelectIsSubseq(words, Above(d.negativeRoll, 0.7));
    var kw := Select(words, Above(d.keywordRoll, 0.7));
    SelectIsSubseq(words, Above(d.keywordRoll, 0.7));
    PrefixIsSubseq(kw, |Take(kw, 5)|);
    SubseqTrans(Take(kw, 5), kw, words);
  }
}
